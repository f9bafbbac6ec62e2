/** `parsePythonCode` (src/utils/pythonParser.ts:9-135): it recognises
    what the user's code does from fixed fragments of its text, takes the
    literals it needs from the code, and builds the algorithm record whose
    steps the player shows. */
module PythonParser {
  import opened StepModel
  import opened Text
  import BubbleSort
  import BinarySearch
  import LinearSearch
  import ListTraversal
  import TreeTraversal
  import GenericSteps

  /** The literals the regular expressions pull out of the code: the lists
      after `arr =`, `values =` and `tree_values =` (their integer entries,
      in order) and the digits after `target =`. None where the pattern
      does not match. */
  datatype Literals = Literals(
    arr: Option<seq<int>>,
    values: Option<seq<int>>,
    treeValues: Option<seq<int>>,
    target: Option<nat>)

  const DefaultArray: seq<int> := [64, 34, 25, 12, 22, 11, 90]
  const DefaultValues: seq<int> := [10, 20, 30, 40]
  const DefaultTreeValues: seq<int> := [50, 30, 70, 20, 40, 60, 80]
  const DefaultTarget: int := 25

  //
  // Fingerprints.
  //

  predicate IsLinkedList(code: string) {
    Contains(code, "class Node") && Contains(code, "self.next")
  }

  predicate IsTree(code: string) {
    Contains(code, "TreeNode") || (Contains(code, "self.left") && Contains(code, "self.right"))
  }

  predicate IsBubbleSort(code: string) {
    Contains(code, "bubble_sort") && Contains(code, "arr[j]") && Contains(code, "arr[j+1]")
  }

  predicate IsBinarySearch(code: string) {
    Contains(code, "binary_search") && !IsTree(code)
  }

  predicate IsLinearSearch(code: string) {
    Contains(code, "linear_search") && !IsLinkedList(code)
  }

  //
  // Sorting the array for binary search.
  //

  /** `x` inserted into the ascending sequence `s` before its first larger
      element. */
  function Insert(x: int, s: seq<int>): (r: seq<int>)
    requires Sorted(s)
    ensures Sorted(r) && multiset(r) == multiset(s) + multiset{x}
  {
    if |s| == 0 || x <= s[0] then
      [x] + s
    else
      var rest := Insert(x, s[1..]);
      InsertAfterHead(x, s, rest);
      [s[0]] + rest
  }

  /** Inserting a value larger than the head into the tail keeps the head
      first. */
  lemma InsertAfterHead(x: int, s: seq<int>, rest: seq<int>)
    requires Sorted(s) && |s| > 0 && s[0] < x
    requires Sorted(rest) && multiset(rest) == multiset(s[1..]) + multiset{x}
    ensures Sorted([s[0]] + rest) && multiset([s[0]] + rest) == multiset(s) + multiset{x}
  {
    assert s == [s[0]] + s[1..];
    forall k | 0 <= k < |rest| ensures s[0] <= rest[k] {
      assert rest[k] in multiset(rest);
      assert rest[k] in multiset(s[1..]) || rest[k] == x;
      if rest[k] != x {
        var p :| 0 <= p < |s[1..]| && s[1..][p] == rest[k];
        assert s[p + 1] == rest[k];
      }
    }
    assert ([s[0]] + rest)[1..] == rest;
  }

  /** `[...arr].sort((a, b) => a - b)`: the ascending arrangement of the
      same elements. */
  function SortAscending(s: seq<int>): (r: seq<int>)
    ensures Sorted(r) && multiset(r) == multiset(s)
  {
    if |s| == 0 then []
    else
      assert s == [s[0]] + s[1..];
      Insert(s[0], SortAscending(s[1..]))
  }

  //
  // The classifier.
  //

  /** The branch `parsePythonCode` takes. */
  datatype Branch =
    | ListBranch      // linked-list traversal over the `values` literal
    | TreeBranch      // tree traversal over the `tree_values` literal
    | BubbleBranch    // bubble sort of the `arr` literal
    | BinaryBranch    // binary search in the sorted `arr` literal
    | LinearBranch    // linear search in the `arr` literal
    | KeepCurrent     // the current algorithm is returned unchanged
    | GenericBranch   // the fallback stepper over the `arr` literal

  /** The tests of `parsePythonCode`, in the order they are made. */
  function Classify(code: string, lits: Literals, current: Option<Algorithm>): Branch {
    if IsLinkedList(code) && current.Some? then ListBranch
    else if IsTree(code) && current.Some? then TreeBranch
    else if IsBubbleSort(code) then BubbleBranch
    else if IsBinarySearch(code) then BinaryBranch
    else if IsLinearSearch(code) then LinearBranch
    else if current.Some? && (lits.arr.None? || current.value.visualizer != ArrayView) then KeepCurrent
    else GenericBranch
  }

  /** The record `parsePythonCode` starts from: the current algorithm, or a
      custom entry. Its code, data and steps are always replaced. */
  function Base(current: Option<Algorithm>): Algorithm {
    current.GetOr(Algorithm("custom-code", "Custom Python Code", "Custom Python Code",
                            "Visualizing your Python code", "", ArrayData([]), [], ArrayView))
  }

  /** `{ ...base, code, initialData, steps, visualizerType }`. */
  function Rebuild(base: Algorithm, code: string, data: Snapshot, steps: seq<Step>, v: Visualizer): (a: Algorithm)
    ensures a.id == base.id && a.name == base.name && a.category == base.category
    ensures a.description == base.description
    ensures a.code == code && a.initialData == data && a.steps == steps && a.visualizer == v
  {
    base.(code := code, initialData := data, steps := steps, visualizer := v)
  }

  /** `parsePythonCode(code, currentAlgorithm)`, given the literals its
      regular expressions extract. */
  function ParsePythonCode(code: string, lits: Literals, current: Option<Algorithm>): Algorithm {
    var initialArray := lits.arr.GetOr(DefaultArray);
    var listValues := lits.values.GetOr(DefaultValues);
    var treeValues := lits.treeValues.GetOr(DefaultTreeValues);
    var target := if lits.target.Some? then lits.target.value else DefaultTarget;
    var base := Base(current);
    match Classify(code, lits, current)
    case ListBranch =>
      var list := ListTraversal.Chain(listValues);
      Rebuild(base, code, ListData(list), ListTraversal.ListTrace(list), LinkedListView)
    case TreeBranch =>
      var tree := TreeTraversal.HeapTree(treeValues);
      Rebuild(base, code, TreeData(tree), TreeTraversal.TreeTrace(tree), TreeView)
    case BubbleBranch =>
      Rebuild(base, code, ArrayData(initialArray), BubbleSort.BubbleTrace(initialArray), ArrayView)
    case BinaryBranch =>
      var sorted := SortAscending(initialArray);
      Rebuild(base, code, ArrayData(sorted), BinarySearch.SearchTrace(FromParser, sorted, target), ArrayView)
    case LinearBranch =>
      Rebuild(base, code, ArrayData(initialArray), LinearSearch.LinearTrace(FromParser, initialArray, target), ArrayView)
    case KeepCurrent =>
      current.value
    case GenericBranch =>
      Rebuild(base, code, ArrayData(initialArray), GenericSteps.GenericTrace(initialArray, code), ArrayView)
  }

  //
  // The resolution order.
  //

  /** Linked-list and tree code is recognised only when there is a current
      algorithm to update; without one, every result is shown as an array. */
  lemma NoCurrentIsArray(code: string, lits: Literals)
    ensures Classify(code, lits, None) in {BubbleBranch, BinaryBranch, LinearBranch, GenericBranch}
    ensures ParsePythonCode(code, lits, None).visualizer == ArrayView
    ensures ParsePythonCode(code, lits, None).id == "custom-code"
  {
  }

  /** The linked-list test comes first: with a current algorithm, code with
      `class Node` and `self.next` is a list traversal whatever else it
      mentions, over a chain of the `values` literal (or 10, 20, 30, 40). */
  lemma ListFirst(code: string, lits: Literals, current: Algorithm)
    requires IsLinkedList(code)
    ensures var a := ParsePythonCode(code, lits, Some(current));
      var values := lits.values.GetOr(DefaultValues);
      && a.visualizer == LinkedListView
      && a.initialData == ListData(ListTraversal.Chain(values))
      && a.steps == ListTraversal.ListTrace(ListTraversal.Chain(values))
      && a.id == current.id && a.code == code
  {
  }

  /** The chain the list branch builds links node i to node i + 1 and ends
      in null, and its trace visits every node. */
  lemma ListBranchChain(code: string, lits: Literals, current: Algorithm)
    requires IsLinkedList(code)
    ensures var a := ParsePythonCode(code, lits, Some(current));
      var values := lits.values.GetOr(DefaultValues);
      && a.initialData.ListData?
      && |a.initialData.list| == |values|
      && (forall i :: 0 <= i < |values| - 1 ==> a.initialData.list[i].next == Some(i + 1))
      && (|values| > 0 ==> a.initialData.list[|values| - 1].next == None)
      && |a.steps| == |values| + 2
  {
    var values := lits.values.GetOr(DefaultValues);
    ListTraversal.ListTraceShape(ListTraversal.Chain(values));
  }

  /** With a current algorithm and no list fingerprint, tree code is a tree
      traversal, even when it also mentions `binary_search`. */
  lemma TreeSecond(code: string, lits: Literals, current: Algorithm)
    requires !IsLinkedList(code) && IsTree(code)
    ensures var a := ParsePythonCode(code, lits, Some(current));
      var values := lits.treeValues.GetOr(DefaultTreeValues);
      && a.visualizer == TreeView
      && a.initialData == TreeData(TreeTraversal.HeapTree(values))
      && a.steps == TreeTraversal.TreeTrace(TreeTraversal.HeapTree(values))
  {
  }

  /** Binary search is never chosen for tree code, and linear search never
      for linked-list code, with or without a current algorithm. */
  lemma SearchExclusions(code: string, lits: Literals, current: Option<Algorithm>)
    ensures IsTree(code) ==> Classify(code, lits, current) != BinaryBranch
    ensures IsLinkedList(code) ==> Classify(code, lits, current) != LinearBranch
  {
  }

  /** Outside the list and tree cases, the bubble-sort fingerprint wins over
      both search fingerprints. */
  lemma BubbleBeforeSearches(code: string, lits: Literals, current: Option<Algorithm>)
    requires IsBubbleSort(code)
    requires current.Some? ==> !IsLinkedList(code) && !IsTree(code)
    ensures Classify(code, lits, current) == BubbleBranch
    ensures var a := ParsePythonCode(code, lits, current);
      var arr := lits.arr.GetOr(DefaultArray);
      a.steps == BubbleSort.BubbleTrace(arr) && a.initialData == ArrayData(arr)
  {
  }

  /** The binary-search branch runs on the ascending arrangement of the
      array literal, and its last step is a found step exactly when the
      target occurs in the literal. */
  lemma BinaryBranchSorted(code: string, lits: Literals, current: Option<Algorithm>)
    requires Classify(code, lits, current) == BinaryBranch
    ensures var a := ParsePythonCode(code, lits, current);
      var arr := lits.arr.GetOr(DefaultArray);
      var target := if lits.target.Some? then lits.target.value else DefaultTarget;
      && a.initialData.ArrayData?
      && Sorted(a.initialData.values)
      && multiset(a.initialData.values) == multiset(arr)
      && |a.steps| >= 2
      && (Last(a.steps).note == Found <==> target in arr)
      && (Last(a.steps).note == NotFound <==> target !in arr)
  {
    var arr := lits.arr.GetOr(DefaultArray);
    var target := if lits.target.Some? then lits.target.value else DefaultTarget;
    var sorted := SortAscending(arr);
    BinarySearch.SearchTraceOutcome(FromParser, sorted, target);
    assert target in arr <==> target in multiset(arr);
    assert target in sorted <==> target in multiset(sorted);
  }

  /** Linear search runs on the literal as written; its last step is a
      found step exactly when the target occurs. */
  lemma LinearBranchOutcome(code: string, lits: Literals, current: Option<Algorithm>)
    requires Classify(code, lits, current) == LinearBranch
    ensures var a := ParsePythonCode(code, lits, current);
      var arr := lits.arr.GetOr(DefaultArray);
      var target := if lits.target.Some? then lits.target.value else DefaultTarget;
      && a.initialData == ArrayData(arr)
      && (Last(a.steps).note == Found <==> target in arr)
  {
    var arr := lits.arr.GetOr(DefaultArray);
    var target := if lits.target.Some? then lits.target.value else DefaultTarget;
    LinearSearch.LinearTraceOutcome(FromParser, arr, target);
  }

  /** Unrecognised code returns the current algorithm unchanged when the
      code has no array literal or the current algorithm is not shown as an
      array; otherwise it gets the generic steps over the literal (or the
      default array). */
  lemma Fallback(code: string, lits: Literals, current: Option<Algorithm>)
    requires !IsBubbleSort(code) && !IsBinarySearch(code) && !IsLinearSearch(code)
    requires current.Some? ==> !IsLinkedList(code) && !IsTree(code)
    ensures var a := ParsePythonCode(code, lits, current);
      if current.Some? && (lits.arr.None? || current.value.visualizer != ArrayView) then
        a == current.value
      else
        && a.visualizer == ArrayView
        && a.initialData == ArrayData(lits.arr.GetOr(DefaultArray))
        && a.steps == GenericSteps.GenericTrace(lits.arr.GetOr(DefaultArray), code)
  {
  }

  /** Whatever branch is taken, a new record has a non-empty step list and
      starts from the data it shows. */
  lemma ResultStartsFromData(code: string, lits: Literals, current: Option<Algorithm>)
    requires Classify(code, lits, current) != KeepCurrent
    ensures var a := ParsePythonCode(code, lits, current);
      |a.steps| > 0 && a.steps[0].data == a.initialData
  {
    var arr := lits.arr.GetOr(DefaultArray);
    var target := if lits.target.Some? then lits.target.value else DefaultTarget;
    match Classify(code, lits, current)
    case ListBranch =>
      ListTraversal.ListTraceShape(ListTraversal.Chain(lits.values.GetOr(DefaultValues)));
    case TreeBranch =>
    case BubbleBranch =>
      BubbleSort.BubbleTraceSorts(arr);
    case BinaryBranch =>
      BinarySearch.SearchTraceOutcome(FromParser, SortAscending(arr), target);
    case LinearBranch =>
      LinearSearch.LinearTraceOutcome(FromParser, arr, target);
    case GenericBranch =>
  }
}
