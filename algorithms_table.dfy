/** The built-in algorithms (src/data/algorithms.ts:234-339): five entries
    whose steps are computed once, from fixed inputs, by the table's own
    generators. */
module Algorithms {
  import opened StepModel
  import BubbleSort
  import BinarySearch
  import LinearSearch
  import ListTraversal
  import TreeTraversal

  const SampleArray: seq<int> := [64, 34, 25, 12, 22, 11, 90]
  const SortedSample: seq<int> := [11, 12, 22, 25, 34, 64, 90]

  /** The four-node list the table's list generator walks. */
  const FixedList: seq<ListNode> :=
    [ListNode(10, Some(1)), ListNode(20, Some(2)), ListNode(30, Some(3)), ListNode(40, None)]

  /** The seven-node tree the table's tree generator walks. */
  const FixedTree: seq<TreeNode> := [
    TreeNode(50, Some(1), Some(2)),
    TreeNode(30, Some(3), Some(4)),
    TreeNode(70, Some(5), Some(6)),
    TreeNode(20, None, None),
    TreeNode(40, None, None),
    TreeNode(60, None, None),
    TreeNode(80, None, None)]

  /** The in-order traversal the table writes out by hand. */
  const FixedOrder: seq<nat> := [3, 1, 4, 0, 5, 2, 6]

  //
  // The fixed data.
  //

  /** The fixed list is the chain over 10, 20, 30, 40, and its walk along
      `next` ends after the fourth node. */
  lemma FixedListIsChain()
    ensures FixedList == ListTraversal.Chain([10, 20, 30, 40])
    ensures ListTraversal.Follow(FixedList, 3) == Some(3)
    ensures ListTraversal.Follow(FixedList, 4) == None
  {
    var c := ListTraversal.Chain([10, 20, 30, 40]);
    assert c[0] == FixedList[0] && c[1] == FixedList[1] && c[2] == FixedList[2] && c[3] == FixedList[3];
    ListTraversal.ChainWalk([10, 20, 30, 40], 3);
    ListTraversal.ChainWalk([10, 20, 30, 40], 4);
  }

  /** The fixed tree is the heap-shaped tree over its values in level order,
      the one the editor's parser builds for the same literal. */
  lemma FixedTreeIsHeap()
    ensures FixedTree == TreeTraversal.HeapTree([50, 30, 70, 20, 40, 60, 80])
  {
    var h := TreeTraversal.HeapTree([50, 30, 70, 20, 40, 60, 80]);
    assert h[0] == FixedTree[0] && h[1] == FixedTree[1] && h[2] == FixedTree[2];
    assert h[3] == FixedTree[3] && h[4] == FixedTree[4] && h[5] == FixedTree[5] && h[6] == FixedTree[6];
  }

  /** The fixed tree has the heap layout, so every child index is larger
      than its parent's. */
  lemma FixedTreeShape()
    ensures TreeTraversal.Forward(FixedTree) && TreeTraversal.HeapShaped(FixedTree)
  {
    FixedTreeIsHeap();
    TreeTraversal.HeapTreeShaped([50, 30, 70, 20, 40, 60, 80]);
  }

  /** The in-order sequence of a seven-node heap layout. */
  lemma HeapOrderSeven()
    ensures TreeTraversal.HeapOrder(7, 0) == FixedOrder
  {
    assert TreeTraversal.HeapOrder(7, 3) == [3] && TreeTraversal.HeapOrder(7, 4) == [4];
    assert TreeTraversal.HeapOrder(7, 5) == [5] && TreeTraversal.HeapOrder(7, 6) == [6];
    assert TreeTraversal.HeapOrder(7, 1) == [3, 1, 4];
    assert TreeTraversal.HeapOrder(7, 2) == [5, 2, 6];
  }

  /** The hand-written order is the in-order traversal of the fixed tree. */
  lemma FixedOrderIsInOrder()
    ensures TreeTraversal.Forward(FixedTree)
    ensures TreeTraversal.InOrder(FixedTree, 0) == FixedOrder
  {
    FixedTreeShape();
    TreeTraversal.HeapInOrder(FixedTree, 0);
    HeapOrderSeven();
  }

  /** The order visits the values in strictly ascending order: the fixed
      tree is a binary search tree. */
  lemma FixedOrderAscending()
    ensures forall k :: 0 <= k < 6 ==> FixedTree[FixedOrder[k]].value < FixedTree[FixedOrder[k + 1]].value
  {
  }

  //
  // The table's generators on their fixed inputs.
  //

  /** The table's `generateLinkedListTraversalSteps()`: the same loop as the
      parser's, over the fixed list. */
  method TableListSteps() returns (steps: seq<Step>)
    ensures steps == ListTraversal.ListTrace(FixedList)
  {
    steps := ListTraversal.ListSteps(FixedList);
  }

  /** The table's `generateTreeTraversalSteps()`: the visiting loop over the
      hand-written order, which is the tree's in-order traversal. */
  method TableTreeSteps() returns (steps: seq<Step>)
    ensures steps == TreeTraversal.TraversalTrace(FixedTree, FixedOrder)
    ensures steps == TreeTraversal.TreeTrace(FixedTree)
  {
    FixedOrderIsInOrder();
    steps := TreeTraversal.EmitSteps(FixedTree, FixedOrder);
  }

  /** The entries of `algorithms`, one function each so that a proof about
      one entry does not unfold the others. Their sample code is left empty. */
  function BubbleEntry(): Algorithm {
    Algorithm("bubble-sort", "Bubble Sort", "Sorting",
              "Repeatedly swaps adjacent elements if they are in wrong order", "",
              ArrayData(SampleArray), BubbleSort.BubbleTrace(SampleArray), ArrayView)
  }

  function BinaryEntry(): Algorithm {
    Algorithm("binary-search", "Binary Search", "Searching",
              "Efficiently finds target by repeatedly dividing search interval in half", "",
              ArrayData(SortedSample), BinarySearch.SearchTrace(FromTable, SortedSample, 25), ArrayView)
  }

  function LinearEntry(): Algorithm {
    Algorithm("linear-search", "Linear Search", "Searching",
              "Sequentially checks each element until target is found", "",
              ArrayData(SampleArray), LinearSearch.LinearTrace(FromTable, SampleArray, 22), ArrayView)
  }

  function ListEntry(): Algorithm {
    Algorithm("linked-list-traversal", "Linked List Traversal", "Data Structures",
              "Walk through each node in a linked list from head to tail", "",
              ListData(FixedList), ListTraversal.ListTrace(FixedList), LinkedListView)
  }

  function TreeEntry(): Algorithm {
    Algorithm("tree-traversal", "Binary Tree In-Order Traversal", "Data Structures",
              "Visit nodes in Left-Root-Right order", "",
              TreeData(FixedTree), TreeTraversal.TraversalTrace(FixedTree, FixedOrder), TreeView)
  }

  /** `algorithms`: the five built-in entries, in menu order. */
  function Table(): seq<Algorithm> {
    [BubbleEntry(), BinaryEntry(), LinearEntry(), ListEntry(), TreeEntry()]
  }

  //
  // What the fixed traces show.
  //

  /** The sorted sample holds the same values as the sample. */
  lemma SamplePermutes()
    ensures multiset(SampleArray) == multiset(SortedSample)
  {
    SampleBag();
    SortedSampleBag();
    SameBag();
  }

  lemma SortedSampleSorted()
    ensures Sorted(SortedSample)
  {
  }

  lemma SampleBag()
    ensures multiset(SampleArray) == multiset{64, 34, 25, 12, 22, 11, 90}
  {
  }

  lemma SortedSampleBag()
    ensures multiset(SortedSample) == multiset{11, 12, 22, 25, 34, 64, 90}
  {
  }

  lemma SameBag()
    ensures multiset{64, 34, 25, 12, 22, 11, 90} == multiset{11, 12, 22, 25, 34, 64, 90}
  {
  }

  /** Bubble sort on the sample ends showing 11, 12, 22, 25, 34, 64, 90 with
      all seven indices marked sorted. */
  lemma TableBubbleResult()
    ensures var r := BubbleEntry().steps;
      && BubbleSort.Values(Last(r)) == SortedSample
      && Last(r).sorted == Range(7)
      && Last(r).note == SortDone
  {
    var r := BubbleSort.BubbleTrace(SampleArray);
    BubbleSort.BubbleTraceSorts(SampleArray);
    SamplePermutes();
    SortedSampleSorted();
    SortedPermutationUnique(BubbleSort.Values(Last(r)), SortedSample);
  }

  /** Binary search for 25 probes the middle index 3 and finds it there:
      three steps in all. */
  lemma TableBinaryTrace()
    ensures BinaryEntry().steps == [
      BinarySearch.InitialStep(SortedSample),
      BinarySearch.ProbeStep(FromTable, SortedSample, 0, 6, 3, 1),
      BinarySearch.FoundStep(FromTable, SortedSample, 3, 2)]
  {
    assert BinarySearch.Mid(0, 6) == 3;
    assert BinarySearch.Events(SortedSample, 25) == [BinarySearch.ProbeAt(0, 6, 3), BinarySearch.FoundAt(3)];
  }

  /** Linear search for 22 checks indices 0 to 4 and reports it at index 4:
      seven steps in all. */
  lemma TableLinearTrace()
    ensures var r := LinearEntry().steps;
      && |r| == 7
      && (forall k :: 1 <= k <= 5 ==> r[k] == LinearSearch.CheckStep(FromTable, SampleArray, k - 1, k))
      && Last(r) == LinearSearch.FoundStep(FromTable, SampleArray, 4, 6)
  {
    assert LinearSearch.FirstIndex(SampleArray, 22) == Some(4) by {
      LinearSearch.FirstIsLeast(SampleArray, 22, 4);
    }
    var r := LinearEntry().steps;
    forall k | 1 <= k <= 5 ensures r[k] == LinearSearch.CheckStep(FromTable, SampleArray, k - 1, k) {
      assert r[k] == LinearSearch.Checks(FromTable, SampleArray, 5)[k - 1];
    }
  }

  /** The list walk has six steps, the last of which highlights all four
      nodes. */
  lemma TableListTrace()
    ensures var r := ListEntry().steps;
      |r| == 6 && Last(r).highlights == [0, 1, 2, 3]
  {
    ListTraversal.ListTraceEnds(FixedList);
    assert Range(4) == [0, 1, 2, 3];
  }

  /** The tree walk has nine steps and its visiting steps name the nodes of
      the hand-written order, which by `FixedOrderAscending` hold 20, 30,
      40, 50, 60, 70, 80, in that order. */
  lemma TableTreeTrace()
    ensures var r := TreeEntry().steps;
      && |r| == 9
      && (forall k :: 1 <= k <= 7 ==> r[k].current == Some(FixedOrder[k - 1]))
  {
    assert Distinct(FixedOrder);
    TreeTraversal.TraversalTraceShape(FixedTree, FixedOrder);
  }

  /** An entry's steps start from the data it shows, in the view that fits
      that data; its step ids are `step-0`, `step-1`, ... in order; and every
      index a step names is valid. */
  ghost predicate WellFormed(a: Algorithm) {
    && |a.steps| > 0
    && a.steps[0].data == a.initialData
    && (a.visualizer == ArrayView <==> a.initialData.ArrayData?)
    && (a.visualizer == LinkedListView <==> a.initialData.ListData?)
    && (a.visualizer == TreeView <==> a.initialData.TreeData?)
    && NumberedFrom(a.steps, 0)
    && (forall k :: 0 <= k < |a.steps| ==> StepInBounds(a.steps[k]))
  }

  lemma BubbleEntryWellFormed()
    ensures WellFormed(BubbleEntry())
  {
    BubbleSort.BubbleTraceSorts(SampleArray);
    BubbleSort.BubbleTraceIds(SampleArray);
    BubbleSort.BubbleTraceInBounds(SampleArray);
  }

  lemma BinaryEntryWellFormed()
    ensures WellFormed(BinaryEntry())
  {
    TableBinaryTrace();
  }

  lemma LinearEntryWellFormed()
    ensures WellFormed(LinearEntry())
  {
    var r := LinearEntry().steps;
    TableLinearTrace();
    forall k | 0 <= k < 7 ensures r[k].id == Num(k) && StepInBounds(r[k]) {
    }
  }

  lemma ListEntryWellFormed()
    ensures WellFormed(ListEntry())
  {
    ListTraversal.ListTraceShape(FixedList);
    ListTraversal.ListTraceInBounds(FixedList);
  }

  lemma TreeEntryWellFormed()
    ensures WellFormed(TreeEntry())
  {
    assert Distinct(FixedOrder);
    TreeTraversal.TraversalTraceShape(FixedTree, FixedOrder);
    TreeTraversal.TraversalTraceCovers(FixedTree, FixedOrder);
  }

  /** Five well-formed entries make a well-formed list. */
  lemma AllWellFormed(a: Algorithm, b: Algorithm, c: Algorithm, d: Algorithm, e: Algorithm)
    requires WellFormed(a) && WellFormed(b) && WellFormed(c) && WellFormed(d) && WellFormed(e)
    ensures forall x :: x in [a, b, c, d, e] ==> WellFormed(x)
  {
  }

  /** Every entry of `algorithms` is well formed. */
  lemma TableWellFormed()
    ensures forall a :: a in Table() ==> WellFormed(a)
  {
    BubbleEntryWellFormed();
    BinaryEntryWellFormed();
    LinearEntryWellFormed();
    ListEntryWellFormed();
    TreeEntryWellFormed();
    AllWellFormed(BubbleEntry(), BinaryEntry(), LinearEntry(), ListEntry(), TreeEntry());
  }
}
