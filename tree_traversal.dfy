/** Binary-tree in-order traversal. The editor's parser lays a list of
    values out as a tree in heap order (`generateTreeFromArray`,
    src/utils/pythonParser.ts:322-339), computes its in-order sequence of
    node indices with a recursive closure and emits one visiting step per
    index (src/utils/pythonParser.ts:373-414). The built-in table emits the
    same steps over a fixed tree and a hard-coded order
    (src/data/algorithms.ts:191-232). */
module TreeTraversal {
  import opened StepModel

  //
  // The tree in heap layout.
  //

  /** The child index `c` if it is a node of a tree of `n` nodes, else null. */
  function ChildIf(c: nat, n: nat): Option<nat> {
    if c < n then Some(c) else None
  }

  /** `generateTreeFromArray(values)`: node i holds values[i], and its
      children are nodes 2i+1 and 2i+2 where those exist. */
  function HeapTree(values: seq<int>): (tree: seq<TreeNode>)
    ensures |tree| == |values|
    ensures Forward(tree)
  {
    seq(|values|, i requires 0 <= i < |values| =>
      TreeNode(values[i], ChildIf(2 * i + 1, |values|), ChildIf(2 * i + 2, |values|)))
  }

  /** `generateTreeFromArray`, as the loop that pushes one node per value. */
  method BuildTree(values: seq<int>) returns (tree: seq<TreeNode>)
    ensures tree == HeapTree(values)
  {
    if |values| == 0 {
      return [];
    }
    tree := [];
    var i := 0;
    while i < |values|
      invariant 0 <= i <= |values|
      invariant tree == HeapTree(values)[..i]
    {
      var leftIndex := 2 * i + 1;
      var rightIndex := 2 * i + 2;
      tree := tree + [TreeNode(values[i],
                               if leftIndex < |values| then Some(leftIndex) else None,
                               if rightIndex < |values| then Some(rightIndex) else None)];
      i := i + 1;
    }
  }

  /** Every child index is larger than its parent's, so the traversal
      terminates; trees built by `HeapTree` have this shape. */
  ghost predicate Forward(tree: seq<TreeNode>) {
    forall i :: 0 <= i < |tree| ==>
      (tree[i].left.Some? ==> tree[i].left.value > i)
      && (tree[i].right.Some? ==> tree[i].right.value > i)
  }

  //
  // The in-order sequence.
  //

  /** The node indices `traverse(index)` pushes: left subtree, the node,
      right subtree; an index past the end of the snapshot adds nothing. */
  function InOrder(tree: seq<TreeNode>, index: nat): seq<nat>
    requires Forward(tree)
    decreases if index < |tree| then |tree| - index else 0
  {
    if index >= |tree| then []
    else
      var node := tree[index];
      (match node.left case Some(l) => InOrder(tree, l) case None => [])
      + [index]
      + (match node.right case Some(r) => InOrder(tree, r) case None => [])
  }

  /** The closure `traverse`, as a recursive method that appends to the
      order built so far. */
  method Traverse(tree: seq<TreeNode>, index: nat, order: seq<nat>) returns (out: seq<nat>)
    requires Forward(tree)
    ensures out == order + InOrder(tree, index)
    decreases if index < |tree| then |tree| - index else 0
  {
    if index >= |tree| {
      return order;
    }
    var node := tree[index];
    ghost var l := match node.left case Some(c) => InOrder(tree, c) case None => [];
    ghost var r := match node.right case Some(c) => InOrder(tree, c) case None => [];
    assert InOrder(tree, index) == l + [index] + r;
    out := order;
    if node.left != None {
      out := Traverse(tree, node.left.value, out);
    }
    assert out == order + l;
    out := out + [index];
    if node.right != None {
      out := Traverse(tree, node.right.value, out);
    }
    ConcatAssoc(order, l, [index], r);
  }

  /** The parent of node x > 0 in heap layout. */
  function Parent(x: nat): nat
    requires x > 0
  {
    (x - 1) / 2
  }

  /** Node x lies in the subtree of node a of a heap-layout tree. */
  ghost predicate Desc(x: nat, a: nat)
    decreases x
  {
    x == a || (x > a && Desc(Parent(x), a))
  }

  lemma {:induction false} DescAtLeast(x: nat, a: nat)
    requires Desc(x, a)
    ensures a <= x
  {
  }

  /** Two nodes above x are on one path: the larger lies below the smaller. */
  lemma {:induction false} DescChain(x: nat, a: nat, b: nat)
    requires Desc(x, a) && Desc(x, b) && a <= b
    ensures Desc(b, a)
    decreases x
  {
    if x != b {
      DescChain(Parent(x), a, b);
    }
  }

  /** A proper descendant of a lies under one of a's two children. */
  lemma {:induction false} DescChild(x: nat, a: nat)
    requires Desc(x, a) && x > a
    ensures Desc(x, 2 * a + 1) || Desc(x, 2 * a + 2)
    decreases x
  {
    if Parent(x) != a {
      DescChild(Parent(x), a);
      if Desc(Parent(x), 2 * a + 1) {
        DescAtLeast(Parent(x), 2 * a + 1);
      } else {
        DescAtLeast(Parent(x), 2 * a + 2);
      }
    }
  }

  /** The subtrees of two siblings share no node. */
  lemma SiblingsDisjoint(x: nat, a: nat)
    requires Desc(x, 2 * a + 1)
    ensures !Desc(x, 2 * a + 2)
  {
    if Desc(x, 2 * a + 2) {
      DescChain(x, 2 * a + 1, 2 * a + 2);
    }
  }

  /** Node i of `tree` has the children heap layout gives it. */
  ghost predicate HeapShaped(tree: seq<TreeNode>) {
    forall i :: 0 <= i < |tree| ==>
      tree[i].left == ChildIf(2 * i + 1, |tree|) && tree[i].right == ChildIf(2 * i + 2, |tree|)
  }

  lemma HeapTreeShaped(values: seq<int>)
    ensures HeapShaped(HeapTree(values))
  {
  }

  /** The in-order sequence of node i of a heap-layout tree of n nodes,
      computed from the layout alone. */
  function HeapOrder(n: nat, i: nat): seq<nat>
    decreases if i < n then n - i else 0
  {
    if i >= n then [] else HeapOrder(n, 2 * i + 1) + [i] + HeapOrder(n, 2 * i + 2)
  }

  /** On a heap-layout tree the traversal is `HeapOrder`. */
  lemma {:induction false} HeapInOrder(tree: seq<TreeNode>, i: nat)
    requires Forward(tree) && HeapShaped(tree)
    ensures InOrder(tree, i) == HeapOrder(|tree|, i)
    decreases if i < |tree| then |tree| - i else 0
  {
    if i < |tree| {
      var node := tree[i];
      assert node.left == ChildIf(2 * i + 1, |tree|) && node.right == ChildIf(2 * i + 2, |tree|);
      var l := match node.left case Some(c) => InOrder(tree, c) case None => [];
      var r := match node.right case Some(c) => InOrder(tree, c) case None => [];
      assert InOrder(tree, i) == l + [i] + r;
      HeapInOrder(tree, 2 * i + 1);
      HeapInOrder(tree, 2 * i + 2);
      assert l == HeapOrder(|tree|, 2 * i + 1);
      assert r == HeapOrder(|tree|, 2 * i + 2);
    }
  }

  /** `HeapOrder(n, i)` lists exactly the nodes of i's subtree. */
  lemma {:induction false} HeapOrderMembers(n: nat, i: nat)
    ensures forall x: nat :: x in HeapOrder(n, i) <==> x < n && Desc(x, i)
    decreases if i < n then n - i else 0
  {
    if i < n {
      var l, r := HeapOrder(n, 2 * i + 1), HeapOrder(n, 2 * i + 2);
      assert HeapOrder(n, i) == l + [i] + r;
      HeapOrderMembers(n, 2 * i + 1);
      HeapOrderMembers(n, 2 * i + 2);
      forall x: nat ensures x in HeapOrder(n, i) <==> x < n && Desc(x, i) {
        ConcatMember(l, [i], r, x);
        if x < n && Desc(x, i) && x != i {
          DescChild(x, i);
        }
        if x in l {
          DescUp(x, 2 * i + 1, i);
        } else if x in r {
          DescUp(x, 2 * i + 2, i);
        }
      }
    } else {
      forall x: nat | x < n && Desc(x, i) ensures false {
        DescAtLeast(x, i);
      }
    }
  }

  lemma ConcatMember<T>(a: seq<T>, b: seq<T>, c: seq<T>, x: T)
    ensures x in a + b + c <==> x in a || x in b || x in c
  {
  }

  /** Below a child is below its parent. */
  lemma {:induction false} DescUp(x: nat, c: nat, a: nat)
    requires c > 0 && Parent(c) == a && Desc(x, c)
    ensures Desc(x, a)
    decreases x
  {
    if x != c {
      DescAtLeast(x, c);
      DescUp(Parent(x), c, a);
    }
  }

  lemma DistinctConcat<T>(a: seq<T>, b: seq<T>)
    requires Distinct(a) && Distinct(b)
    requires forall p, q :: 0 <= p < |a| && 0 <= q < |b| ==> a[p] != b[q]
    ensures Distinct(a + b)
  {
    var c := a + b;
    forall p, q | 0 <= p < q < |c| ensures c[p] != c[q] {
      if q < |a| {
        assert c[p] == a[p] && c[q] == a[q];
      } else if p >= |a| {
        assert c[p] == b[p - |a|] && c[q] == b[q - |a|];
      } else {
        assert c[p] == a[p] && c[q] == b[q - |a|];
      }
    }
  }

  /** `HeapOrder` names no node twice. */
  lemma {:induction false} HeapOrderDistinct(n: nat, i: nat)
    ensures Distinct(HeapOrder(n, i))
    decreases if i < n then n - i else 0
  {
    if i < n {
      var l, r := HeapOrder(n, 2 * i + 1), HeapOrder(n, 2 * i + 2);
      assert HeapOrder(n, i) == l + [i] + r;
      HeapOrderDistinct(n, 2 * i + 1);
      HeapOrderDistinct(n, 2 * i + 2);
      HeapOrderMembers(n, 2 * i + 1);
      HeapOrderMembers(n, 2 * i + 2);
      forall p | 0 <= p < |l| ensures l[p] != i {
        assert l[p] in l;
        DescAtLeast(l[p], 2 * i + 1);
      }
      DistinctConcat(l, [i]);
      forall p, q | 0 <= p < |l + [i]| && 0 <= q < |r| ensures (l + [i])[p] != r[q] {
        assert r[q] in r;
        DescAtLeast(r[q], 2 * i + 2);
        if p < |l| {
          assert l[p] in l;
          SiblingsDisjoint(l[p], i);
        }
      }
      DistinctConcat(l + [i], r);
    }
  }

  lemma {:induction false} RangeDistinct(n: nat)
    ensures Distinct(Range(n))
  {
  }

  /** `HeapOrder(n, 0)` lists each of 0 .. n-1 exactly once. */
  lemma HeapOrderPermutes(n: nat)
    ensures var order := HeapOrder(n, 0);
      && Distinct(order)
      && |order| == n
      && (forall x: nat :: x in order <==> x < n)
  {
    var order := HeapOrder(n, 0);
    HeapOrderDistinct(n, 0);
    HeapOrderMembers(n, 0);
    forall x: nat | x < n ensures x in order {
      DescRoot(x);
    }
    var ints: seq<int> := order;
    assert Distinct(ints);
    assert (set x | x in ints) == (set x | x in Range(n)) by {
      forall x: int ensures x in ints <==> x in Range(n) {
        if x in Range(n) {
          var p :| 0 <= p < n && Range(n)[p] == x;
        }
        if x in ints {
          assert Range(n)[x] == x;
        }
      }
    }
    DistinctCard(ints);
    RangeDistinct(n);
    DistinctCard(Range(n));
  }

  /** The in-order traversal of a tree built by `generateTreeFromArray`
      from n values lists each of the node indices 0 .. n-1 exactly once. */
  lemma HeapInOrderPermutes(values: seq<int>)
    ensures var order := InOrder(HeapTree(values), 0);
      && Distinct(order)
      && |order| == |values|
      && (forall x: nat :: x in order <==> x < |values|)
  {
    HeapTreeShaped(values);
    HeapInOrder(HeapTree(values), 0);
    HeapOrderPermutes(|values|);
  }

  /** Every node lies in the subtree of the root. */
  lemma {:induction false} DescRoot(x: nat)
    ensures Desc(x, 0)
    decreases x
  {
    if x > 0 {
      DescRoot(Parent(x));
    }
  }

  //
  // The steps.
  //

  /** `order.indexOf(x)`: the first position holding x. */
  function IndexOf(order: seq<nat>, x: nat): (p: nat)
    requires x in order
    ensures p < |order| && order[p] == x
    ensures forall q :: 0 <= q < p ==> order[q] != x
  {
    if order[0] == x then 0 else 1 + IndexOf(order[1..], x)
  }

  function StartStep(tree: seq<TreeNode>): Step {
    Step(Num(0), Initial, TreeData(tree), [], [], [], None)
  }

  /** The step visiting the k-th index of the order: the indices before its
      first occurrence are highlighted. */
  function VisitStep(tree: seq<TreeNode>, order: seq<nat>, k: nat): Step
    requires k < |order|
  {
    Step(Num(k + 1), Visiting, TreeData(tree), order[..IndexOf(order, order[k])], [], [], Some(order[k]))
  }

  function DoneStep(tree: seq<TreeNode>, order: seq<nat>): Step {
    Step(Num(|order| + 1), TraversalDone, TreeData(tree), order, [], [], None)
  }

  function Visits(tree: seq<TreeNode>, order: seq<nat>, k: nat): (r: seq<Step>)
    requires k <= |order|
    ensures |r| == k
  {
    seq(k, j requires 0 <= j < k => VisitStep(tree, order, j))
  }

  /** The steps emitted over a traversal order. */
  function TraversalTrace(tree: seq<TreeNode>, order: seq<nat>): seq<Step> {
    [StartStep(tree)] + Visits(tree, order, |order|) + [DoneStep(tree, order)]
  }

  /** The whole trace of the parser's `generateTreeTraversalSteps(tree)`. */
  function TreeTrace(tree: seq<TreeNode>): seq<Step>
    requires Forward(tree)
  {
    TraversalTrace(tree, InOrder(tree, 0))
  }

  /** The visiting loop of `generateTreeTraversalSteps`, over a given order. */
  method EmitSteps(tree: seq<TreeNode>, order: seq<nat>) returns (steps: seq<Step>)
    ensures steps == TraversalTrace(tree, order)
  {
    var stepId := 0;
    steps := [Step(Num(stepId), Initial, TreeData(tree), [], [], [], None)];
    stepId := stepId + 1;
    var k := 0;
    while k < |order|
      invariant 0 <= k <= |order|
      invariant stepId == k + 1
      invariant steps == [StartStep(tree)] + Visits(tree, order, k)
    {
      var index := order[k];
      assert Visits(tree, order, k + 1) == Visits(tree, order, k) + [VisitStep(tree, order, k)];
      steps := steps + [Step(Num(stepId), Visiting, TreeData(tree), order[..IndexOf(order, index)], [], [], Some(index))];
      stepId := stepId + 1;
      k := k + 1;
    }
    steps := steps + [Step(Num(stepId), TraversalDone, TreeData(tree), order, [], [], None)];
  }

  /** The parser's `generateTreeTraversalSteps`: compute the order with
      `traverse(0)`, then emit the steps. */
  method TreeSteps(tree: seq<TreeNode>) returns (steps: seq<Step>)
    requires Forward(tree)
    ensures steps == TreeTrace(tree)
  {
    var order := Traverse(tree, 0, []);
    ConcatEmpty(InOrder(tree, 0));
    steps := EmitSteps(tree, order);
  }

  /** Over an order without repetitions, visiting step k + 1 names the k-th
      index as current and highlights the indices visited before it, and the
      last step highlights the whole order. */
  lemma TraversalTraceShape(tree: seq<TreeNode>, order: seq<nat>)
    requires Distinct(order)
    ensures var r := TraversalTrace(tree, order);
      && |r| == |order| + 2
      && NumberedFrom(r, 0)
      && (forall k :: 1 <= k <= |order| ==>
            r[k].note == Visiting && r[k].current == Some(order[k - 1]) && r[k].highlights == order[..k - 1])
      && Last(r).note == TraversalDone && Last(r).highlights == order
  {
    var r := TraversalTrace(tree, order);
    var n := |order|;
    forall k | 1 <= k <= n ensures r[k] == VisitStep(tree, order, k - 1) && IndexOf(order, order[k - 1]) == k - 1 {
      assert r[k] == Visits(tree, order, n)[k - 1];
    }
  }

  /** Over an order of valid node indices, every index a step names is a
      node of the tree, and each index of the order is the current node of
      some visiting step. */
  lemma {:induction false} TraversalTraceCovers(tree: seq<TreeNode>, order: seq<nat>)
    requires Distinct(order)
    requires forall p :: 0 <= p < |order| ==> order[p] < |tree|
    ensures var r := TraversalTrace(tree, order);
      && (forall k :: 0 <= k < |r| ==> StepInBounds(r[k]))
      && (forall p :: 0 <= p < |order| ==> r[p + 1].current == Some(order[p]))
  {
    var r := TraversalTrace(tree, order);
    TraversalTraceShape(tree, order);
    forall k | 0 <= k < |r| ensures StepInBounds(r[k]) {
      assert r[k].data == TreeData(tree);
      if 1 <= k <= |order| {
        assert r[k].highlights == order[..k - 1];
      }
    }
  }

  /** On a tree built by `generateTreeFromArray`, the trace visits every node
      and every step names only nodes of the tree. */
  lemma HeapTreeTrace(values: seq<int>)
    ensures var r := TreeTrace(HeapTree(values));
      && |r| == |values| + 2
      && (forall x: nat :: x < |values| ==> exists k :: 1 <= k <= |values| && r[k].current == Some(x))
      && (forall k :: 0 <= k < |r| ==> StepInBounds(r[k]))
  {
    var tree := HeapTree(values);
    var order := InOrder(tree, 0);
    var r := TreeTrace(tree);
    HeapInOrderPermutes(values);
    forall p | 0 <= p < |order| ensures order[p] < |tree| {
      assert order[p] in order;
    }
    TraversalTraceCovers(tree, order);
    forall x: nat | x < |values| ensures exists k :: 1 <= k <= |values| && r[k].current == Some(x) {
      assert x in order;
      var p :| 0 <= p < |order| && order[p] == x;
      assert r[p + 1].current == Some(x);
    }
  }
}
