/** Linked-list traversal traces. The editor's parser builds a list from
    the values it found (src/utils/pythonParser.ts:65-68) and walks it with
    `generateLinkedListTraversalSteps` (src/utils/pythonParser.ts:341-371);
    the built-in table walks a fixed four-node list with the same code
    (src/data/algorithms.ts:152-189). The walk goes by position in the
    snapshot, not by following `next`: `ChainWalk` shows the two agree on a
    list built by `Chain`. */
module ListTraversal {
  import opened StepModel

  /** The snapshot of a singly linked list over `values`: node i points to
      node i + 1, and the last node to null. */
  function Chain(values: seq<int>): (list: seq<ListNode>)
    ensures |list| == |values|
    ensures forall i :: 0 <= i < |list| ==> list[i].value == values[i]
  {
    seq(|values|, i requires 0 <= i < |values| =>
      ListNode(values[i], if i < |values| - 1 then Some(i + 1) else None))
  }

  /** The node reached from the head after `hops` steps along `next`, if
      the walk stays inside the snapshot. */
  function Follow(list: seq<ListNode>, hops: nat): Option<nat>
  {
    if |list| == 0 then None
    else if hops == 0 then Some(0)
    else
      match Follow(list, hops - 1)
      case None => None
      case Some(at) => if at < |list| then list[at].next else None
  }

  /** In a chain, node i is reached from the head in i hops, and the walk
      leaves the list after the last node. */
  lemma {:induction false} ChainWalk(values: seq<int>, hops: nat)
    requires hops <= |values|
    ensures Follow(Chain(values), hops) == if hops < |values| then Some(hops) else None
  {
    if hops > 0 && |values| > 0 {
      ChainWalk(values, hops - 1);
    }
  }

  function StartStep(list: seq<ListNode>): Step {
    Step(Num(0), Initial, ListData(list), [], [], [], Some(0))
  }

  /** The step visiting node i: the nodes before it are highlighted. */
  function VisitStep(list: seq<ListNode>, i: nat): Step {
    Step(Num(i + 1), Visiting, ListData(list), Range(i), [], [], Some(i))
  }

  function EndStep(list: seq<ListNode>): Step {
    Step(Num(|list| + 1), ReachedEnd, ListData(list), Range(|list|), [], [], None)
  }

  /** The visiting steps of nodes 0 .. k-1. */
  function Visits(list: seq<ListNode>, k: nat): (r: seq<Step>)
    ensures |r| == k
  {
    seq(k, i requires 0 <= i < k => VisitStep(list, i))
  }

  /** The whole trace of `generateLinkedListTraversalSteps(list)`. */
  function ListTrace(list: seq<ListNode>): seq<Step> {
    [StartStep(list)] + Visits(list, |list|) + [EndStep(list)]
  }

  /** Highlights sequence `a` is a prefix of `b`. */
  ghost predicate Prefix(a: seq<int>, b: seq<int>) {
    |a| <= |b| && b[..|a|] == a
  }

  /** One visiting step per node, in snapshot order, each highlighting the
      nodes visited before it; the highlights only grow, and the last step
      highlights every node. */
  lemma ListTraceShape(list: seq<ListNode>)
    ensures var r := ListTrace(list);
      && |r| == |list| + 2
      && NumberedFrom(r, 0)
      && r[0].current == Some(0) && r[0].highlights == []
      && (forall k :: 1 <= k <= |list| ==>
            r[k].note == Visiting && r[k].current == Some(k - 1) && r[k].highlights == Range(k - 1))
      && Last(r).note == ReachedEnd && Last(r).highlights == Range(|list|)
      && (forall k :: 0 <= k < |r| - 1 ==> Prefix(r[k].highlights, r[k + 1].highlights))
      && (forall k :: 0 <= k < |r| ==> r[k].data == ListData(list))
  {
    var r := ListTrace(list);
    var n := |list|;
    forall k | 1 <= k <= n ensures r[k] == VisitStep(list, k - 1) {
      assert r[k] == Visits(list, n)[k - 1];
    }
  }

  /** The trace has two steps more than the list has nodes, and its last
      step highlights every node. */
  lemma ListTraceEnds(list: seq<ListNode>)
    ensures |ListTrace(list)| == |list| + 2 && Last(ListTrace(list)).highlights == Range(|list|)
  {
    ListTraceShape(list);
  }

  /** On a non-empty list every index a step names is a node of the
      snapshot. On the empty list the first step still names node 0 as
      current, which does not exist. */
  lemma ListTraceInBounds(list: seq<ListNode>)
    ensures var r := ListTrace(list);
      (forall k :: 1 <= k < |r| ==> StepInBounds(r[k]))
      && (StepInBounds(r[0]) <==> |list| > 0)
  {
    var r := ListTrace(list);
    var n := |list|;
    forall k | 1 <= k < |r| ensures StepInBounds(r[k]) {
      if k <= n {
        assert r[k] == Visits(list, n)[k - 1];
      }
    }
  }

  /** `generateLinkedListTraversalSteps`. */
  method ListSteps(list: seq<ListNode>) returns (steps: seq<Step>)
    ensures steps == ListTrace(list)
  {
    var stepId := 0;
    steps := [Step(Num(stepId), Initial, ListData(list), [], [], [], Some(0))];
    stepId := stepId + 1;
    var i := 0;
    while i < |list|
      invariant 0 <= i <= |list|
      invariant stepId == i + 1
      invariant steps == [StartStep(list)] + Visits(list, i)
    {
      assert Visits(list, i + 1) == Visits(list, i) + [VisitStep(list, i)];
      steps := steps + [Step(Num(stepId), Visiting, ListData(list), Range(i), [], [], Some(i))];
      stepId := stepId + 1;
      i := i + 1;
    }
    steps := steps + [Step(Num(stepId), ReachedEnd, ListData(list), Range(|list|), [], [], None)];
  }
}
