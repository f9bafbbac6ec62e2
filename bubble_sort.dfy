/** Bubble-sort step traces (src/utils/pythonParser.ts:137-180; the built-in
    table's copy at src/data/algorithms.ts:3-46 runs the same loops and differs
    only in description text, which the model abstracts into notes). */
module BubbleSort {
  import opened StepModel

  /** The `sorted` list of outer pass `i`: the last `i` indices, largest first. */
  function Trailing(n: nat, i: nat): seq<int> {
    seq(i, k => n - 1 - k)
  }

  /** `[data[j], data[j + 1]] = [data[j + 1], data[j]]` on a snapshot. */
  function Swap(data: seq<int>, j: nat): (r: seq<int>)
    requires j + 1 < |data|
    ensures |r| == |data|
  {
    data[j := data[j + 1]][j + 1 := data[j]]
  }

  /** The step pushed before comparing (j, j+1) in pass `i`. */
  function CompareStep(id: nat, data: seq<int>, i: nat, j: nat): Step {
    Step(Num(id), Comparing, ArrayData(data), [], [j, j + 1], Trailing(|data|, i), None)
  }

  /** The step pushed after swapping (j, j+1) in pass `i`. */
  function SwapStep(id: nat, data: seq<int>, i: nat, j: nat): Step {
    Step(Num(id), Swapped, ArrayData(data), [j, j + 1], [], Trailing(|data|, i), None)
  }

  /** The final step: every index is sorted. */
  function DoneStep(id: nat, data: seq<int>): Step {
    Step(Num(id), SortDone, ArrayData(data), [], [], Range(|data|), None)
  }

  /** The first step: the input, nothing marked. */
  function InitialStep(arr: seq<int>): Step {
    Step(Num(0), Initial, ArrayData(arr), [], [], [], None)
  }

  /** The steps the nested loops push from outer index `i` and inner index `j`
      on, with `data` the working copy and `id` the next step id. An inner
      iteration pushes the comparison and, when the pair is strictly out of
      order, swaps it and pushes the swapped snapshot. */
  function BubbleFrom(data: seq<int>, i: nat, j: nat, id: nat): (r: seq<Step>)
    ensures |r| >= 1
    decreases |data| - i, |data| - i - j
  {
    if i + 1 >= |data| then [DoneStep(id, data)]
    else if i + j + 1 >= |data| then BubbleFrom(data, i + 1, 0, id)
    else if data[j] > data[j + 1] then
      [CompareStep(id, data, i, j), SwapStep(id + 1, Swap(data, j), i, j)]
        + BubbleFrom(Swap(data, j), i, j + 1, id + 2)
    else [CompareStep(id, data, i, j)] + BubbleFrom(data, i, j + 1, id + 1)
  }

  /** The whole trace of `generateBubbleSortSteps(arr)`. */
  function BubbleTrace(arr: seq<int>): seq<Step> {
    [InitialStep(arr)] + BubbleFrom(arr, 0, 0, 1)
  }

  /** The array a step shows (empty for a non-array snapshot). */
  function Values(s: Step): seq<int> {
    if s.data.ArrayData? then s.data.values else []
  }

  /** The loop state (i, j) is one the loops can reach. */
  ghost predicate Reachable(n: nat, i: nat, j: nat) {
    i + 1 < n ==> i + j + 1 <= n
  }

  /** The working copy the nested loops leave, from state (i, j) on. */
  function SortFrom(data: seq<int>, i: nat, j: nat): seq<int>
    decreases |data| - i, |data| - i - j
  {
    if i + 1 >= |data| then data
    else if i + j + 1 >= |data| then SortFrom(data, i + 1, 0)
    else if data[j] > data[j + 1] then SortFrom(Swap(data, j), i, j + 1)
    else SortFrom(data, i, j + 1)
  }

  //
  // The array the loops leave: a permutation, sorted, with the tail of
  // finished passes untouched.
  //

  /** A swap of neighbours only permutes the working copy. */
  lemma SwapPermutes(data: seq<int>, j: nat)
    requires j + 1 < |data|
    ensures multiset(Swap(data, j)) == multiset(data)
  {
    var pre, post := data[..j], data[j + 2..];
    assert data == pre + [data[j], data[j + 1]] + post;
    assert Swap(data, j) == pre + [data[j + 1], data[j]] + post;
    assert multiset([data[j], data[j + 1]]) == multiset([data[j + 1], data[j]]);
  }

  lemma {:induction false} SortFromPermutes(data: seq<int>, i: nat, j: nat)
    ensures |SortFrom(data, i, j)| == |data|
    ensures multiset(SortFrom(data, i, j)) == multiset(data)
    decreases |data| - i, |data| - i - j
  {
    if i + 1 >= |data| {
    } else if i + j + 1 >= |data| {
      SortFromPermutes(data, i + 1, 0);
    } else if data[j] > data[j + 1] {
      SwapPermutes(data, j);
      SortFromPermutes(Swap(data, j), i, j + 1);
    } else {
      SortFromPermutes(data, i, j + 1);
    }
  }

  /** The last `i` entries, placed by finished passes, are never touched again. */
  lemma {:induction false} SortFromKeepsTail(data: seq<int>, i: nat, j: nat)
    ensures |SortFrom(data, i, j)| == |data|
    ensures forall x :: 0 <= x < |data| && |data| - i <= x ==> SortFrom(data, i, j)[x] == data[x]
    decreases |data| - i, |data| - i - j
  {
    if i + 1 >= |data| {
    } else if i + j + 1 >= |data| {
      SortFromKeepsTail(data, i + 1, 0);
    } else if data[j] > data[j + 1] {
      SortFromKeepsTail(Swap(data, j), i, j + 1);
    } else {
      SortFromKeepsTail(data, i, j + 1);
    }
  }

  /** The working copy after the comparison of (j, j+1). */
  function After(data: seq<int>, j: nat): (r: seq<int>)
    requires j + 1 < |data|
    ensures |r| == |data|
  {
    if data[j] > data[j + 1] then Swap(data, j) else data
  }

  /** The loop invariant of bubble sort at state (i, j): the last `i` entries
      are sorted and no smaller than any earlier entry, and `data[j]` is the
      largest of `data[0..j]`. */
  ghost predicate BubbleInv(data: seq<int>, i: nat, j: nat) {
    var n := |data|;
    && i <= n
    && Reachable(n, i, j)
    && (forall p, q :: n - i <= p < q < n ==> data[p] <= data[q])
    && (forall p, q :: 0 <= p < n - i <= q < n ==> data[p] <= data[q])
    && (j < n ==> forall p :: 0 <= p < j ==> data[p] <= data[j])
  }

  lemma BubbleInvStep(data: seq<int>, i: nat, j: nat)
    requires BubbleInv(data, i, j) && i + j + 1 < |data|
    ensures BubbleInv(After(data, j), i, j + 1)
  {
    var n := |data|;
    var s := After(data, j);
    assert forall p :: 0 <= p < n && p != j && p != j + 1 ==> s[p] == data[p];
    assert s[j + 1] >= data[j] && s[j + 1] >= data[j + 1];
    assert s[j] == data[j] || s[j] == data[j + 1];
    assert s[j + 1] == data[j] || s[j + 1] == data[j + 1];
  }

  lemma BubbleInvNextPass(data: seq<int>, i: nat, j: nat)
    requires BubbleInv(data, i, j) && i + 1 < |data| && i + j + 1 >= |data|
    ensures BubbleInv(data, i + 1, 0)
  {
    assert j == |data| - i - 1;
  }

  lemma BubbleInvDone(data: seq<int>, i: nat, j: nat)
    requires BubbleInv(data, i, j) && i + 1 >= |data|
    ensures Sorted(data)
  {
  }

  lemma {:induction false} SortFromSorts(data: seq<int>, i: nat, j: nat)
    requires BubbleInv(data, i, j)
    ensures Sorted(SortFrom(data, i, j))
    decreases |data| - i, |data| - i - j
  {
    if i + 1 >= |data| {
      BubbleInvDone(data, i, j);
    } else if i + j + 1 >= |data| {
      BubbleInvNextPass(data, i, j);
      SortFromSorts(data, i + 1, 0);
    } else {
      BubbleInvStep(data, i, j);
      if data[j] > data[j + 1] {
        SortFromSorts(Swap(data, j), i, j + 1);
      } else {
        SortFromSorts(data, i, j + 1);
      }
    }
  }

  //
  // Shape of the trace. Each property is a predicate of a step sequence: it
  // holds for the steps of one inner iteration and carries over to a
  // concatenation, so the recursion over the loop state only chains them.
  //

  /** The last step is the final one, shows `fin` and marks all `n` indices
      sorted. */
  ghost predicate EndsSorted(r: seq<Step>, n: nat, fin: seq<int>) {
    |r| > 0 && Last(r).note == SortDone && Last(r).sorted == Range(n) && Values(Last(r)) == fin
  }

  lemma EndsSortedConcat(e: seq<Step>, rest: seq<Step>, n: nat, fin: seq<int>)
    requires EndsSorted(rest, n, fin)
    ensures EndsSorted(e + rest, n, fin)
  {
    LastConcat(e, rest);
  }

  lemma {:induction false} BubbleFromLast(data: seq<int>, i: nat, j: nat, id: nat)
    ensures EndsSorted(BubbleFrom(data, i, j, id), |data|, SortFrom(data, i, j))
    decreases |data| - i, |data| - i - j
  {
    if i + 1 >= |data| {
    } else if i + j + 1 >= |data| {
      BubbleFromLast(data, i + 1, 0, id);
    } else if data[j] > data[j + 1] {
      var s := Swap(data, j);
      BubbleFromLast(s, i, j + 1, id + 2);
      EndsSortedConcat([CompareStep(id, data, i, j), SwapStep(id + 1, s, i, j)],
        BubbleFrom(s, i, j + 1, id + 2), |data|, SortFrom(s, i, j + 1));
    } else {
      BubbleFromLast(data, i, j + 1, id + 1);
      EndsSortedConcat([CompareStep(id, data, i, j)], BubbleFrom(data, i, j + 1, id + 1), |data|, SortFrom(data, i, j + 1));
    }
  }

  /** Every step shows an array snapshot of `n` values. */
  ghost predicate AllArrays(r: seq<Step>, n: nat) {
    forall k :: 0 <= k < |r| ==> r[k].data.ArrayData? && |Values(r[k])| == n
  }

  lemma AllArraysConcat(a: seq<Step>, b: seq<Step>, n: nat)
    requires AllArrays(a, n) && AllArrays(b, n)
    ensures AllArrays(a + b, n)
  {
    forall k | 0 <= k < |a + b| ensures (a + b)[k].data.ArrayData? && |Values((a + b)[k])| == n {
      if k < |a| { assert (a + b)[k] == a[k]; } else { assert (a + b)[k] == b[k - |a|]; }
    }
  }

  lemma {:induction false} BubbleFromArrays(data: seq<int>, i: nat, j: nat, id: nat)
    ensures AllArrays(BubbleFrom(data, i, j, id), |data|)
    decreases |data| - i, |data| - i - j
  {
    if i + 1 >= |data| {
    } else if i + j + 1 >= |data| {
      BubbleFromArrays(data, i + 1, 0, id);
    } else if data[j] > data[j + 1] {
      var s := Swap(data, j);
      var e := [CompareStep(id, data, i, j), SwapStep(id + 1, s, i, j)];
      BubbleFromArrays(s, i, j + 1, id + 2);
      assert AllArrays(e, |data|);
      AllArraysConcat(e, BubbleFrom(s, i, j + 1, id + 2), |data|);
    } else {
      BubbleFromArrays(data, i, j + 1, id + 1);
      assert AllArrays([CompareStep(id, data, i, j)], |data|);
      AllArraysConcat([CompareStep(id, data, i, j)], BubbleFrom(data, i, j + 1, id + 1), |data|);
    }
  }

  /** Every step is a comparison or a swap. */
  ghost predicate Moves(r: seq<Step>) {
    forall k :: 0 <= k < |r| ==> r[k].note == Comparing || r[k].note == Swapped
  }

  /** Before the last step there are only comparisons and swaps, and the
      first step is not a swap. */
  ghost predicate NotesInOrder(r: seq<Step>) {
    |r| > 0 && r[0].note != Swapped && Moves(r[..|r| - 1])
  }

  lemma NotesConcat(e: seq<Step>, rest: seq<Step>)
    requires |e| > 0 && e[0].note != Swapped && Moves(e) && NotesInOrder(rest)
    ensures NotesInOrder(e + rest)
  {
    var r := e + rest;
    var front := r[..|r| - 1];
    assert r[0] == e[0];
    assert front == e + rest[..|rest| - 1];
    forall k | 0 <= k < |front| ensures front[k].note == Comparing || front[k].note == Swapped {
      if k < |e| {
        assert front[k] == e[k];
      } else {
        assert front[k] == rest[..|rest| - 1][k - |e|];
      }
    }
  }

  lemma {:induction false} BubbleFromNotes(data: seq<int>, i: nat, j: nat, id: nat)
    ensures NotesInOrder(BubbleFrom(data, i, j, id))
    decreases |data| - i, |data| - i - j
  {
    if i + 1 >= |data| {
      assert BubbleFrom(data, i, j, id)[..0] == [];
    } else if i + j + 1 >= |data| {
      BubbleFromNotes(data, i + 1, 0, id);
    } else if data[j] > data[j + 1] {
      var s := Swap(data, j);
      var e := [CompareStep(id, data, i, j), SwapStep(id + 1, s, i, j)];
      BubbleFromNotes(s, i, j + 1, id + 2);
      assert Moves(e);
      NotesConcat(e, BubbleFrom(s, i, j + 1, id + 2));
    } else {
      BubbleFromNotes(data, i, j + 1, id + 1);
      assert Moves([CompareStep(id, data, i, j)]);
      NotesConcat([CompareStep(id, data, i, j)], BubbleFrom(data, i, j + 1, id + 1));
    }
  }

  /** Step k carries the id `step-<id + k>`. */
  lemma {:induction false} BubbleFromIds(data: seq<int>, i: nat, j: nat, id: nat)
    ensures NumberedFrom(BubbleFrom(data, i, j, id), id)
    decreases |data| - i, |data| - i - j
  {
    if i + 1 >= |data| {
    } else if i + j + 1 >= |data| {
      BubbleFromIds(data, i + 1, 0, id);
    } else if data[j] > data[j + 1] {
      var s := Swap(data, j);
      BubbleFromIds(s, i, j + 1, id + 2);
      NumberedConcat([CompareStep(id, data, i, j), SwapStep(id + 1, s, i, j)], BubbleFrom(s, i, j + 1, id + 2), id);
    } else {
      BubbleFromIds(data, i, j + 1, id + 1);
      NumberedConcat([CompareStep(id, data, i, j)], BubbleFrom(data, i, j + 1, id + 1), id);
    }
  }

  //
  // The indices a step lists as sorted already hold their final values.
  //

  ghost predicate SortedAreFinal(s: Step, fin: seq<int>) {
    forall t :: 0 <= t < |s.sorted| ==>
      0 <= s.sorted[t] < |Values(s)| && s.sorted[t] < |fin|
      && Values(s)[s.sorted[t]] == fin[s.sorted[t]]
  }

  ghost predicate AllSortedAreFinal(r: seq<Step>, fin: seq<int>) {
    forall k :: 0 <= k < |r| ==> SortedAreFinal(r[k], fin)
  }

  lemma AllSortedAreFinalConcat(a: seq<Step>, b: seq<Step>, fin: seq<int>)
    requires AllSortedAreFinal(a, fin) && AllSortedAreFinal(b, fin)
    ensures AllSortedAreFinal(a + b, fin)
  {
    forall k | 0 <= k < |a + b| ensures SortedAreFinal((a + b)[k], fin) {
      if k < |a| { assert (a + b)[k] == a[k]; } else { assert (a + b)[k] == b[k - |a|]; }
    }
  }

  /** The two snapshots of an inner iteration list as sorted only indices of
      the finished tail, where the working copy already agrees with `fin`. */
  lemma RoundSortedAreFinal(data: seq<int>, i: nat, j: nat, id: nat, fin: seq<int>)
    requires i + 1 < |data| && i + j + 1 < |data| && |fin| == |data|
    requires forall x :: |data| - i <= x < |data| ==> fin[x] == data[x]
    ensures SortedAreFinal(CompareStep(id, data, i, j), fin)
    ensures SortedAreFinal(SwapStep(id + 1, Swap(data, j), i, j), fin)
  {
    assert forall x :: |data| - i <= x < |data| ==> Swap(data, j)[x] == data[x];
  }

  lemma {:induction false} BubbleFromSortedAreFinal(data: seq<int>, i: nat, j: nat, id: nat)
    requires i <= |data|
    ensures AllSortedAreFinal(BubbleFrom(data, i, j, id), SortFrom(data, i, j))
    decreases |data| - i, |data| - i - j
  {
    if i + 1 >= |data| {
    } else if i + j + 1 >= |data| {
      BubbleFromSortedAreFinal(data, i + 1, 0, id);
    } else if data[j] > data[j + 1] {
      var s := Swap(data, j);
      var e := [CompareStep(id, data, i, j), SwapStep(id + 1, s, i, j)];
      var fin := SortFrom(s, i, j + 1);
      BubbleFromSortedAreFinal(s, i, j + 1, id + 2);
      SortFromKeepsTail(s, i, j + 1);
      RoundSortedAreFinal(data, i, j, id, fin);
      assert AllSortedAreFinal(e, fin);
      AllSortedAreFinalConcat(e, BubbleFrom(s, i, j + 1, id + 2), fin);
    } else {
      var fin := SortFrom(data, i, j + 1);
      BubbleFromSortedAreFinal(data, i, j + 1, id + 1);
      SortFromKeepsTail(data, i, j + 1);
      RoundSortedAreFinal(data, i, j, id, fin);
      assert AllSortedAreFinal([CompareStep(id, data, i, j)], fin);
      AllSortedAreFinalConcat([CompareStep(id, data, i, j)], BubbleFrom(data, i, j + 1, id + 1), fin);
    }
  }

  //
  // Comparisons: their number, their pairs, and the swaps that follow them.
  //

  /** Comparisons still to come from outer pass `i` on (inner index 0). */
  function PassesLeft(n: nat, i: nat): nat
    decreases n - i
  {
    if i + 1 < n then (n - 1 - i) + PassesLeft(n, i + 1) else 0
  }

  lemma {:induction false} PassesLeftClosedForm(n: nat, i: nat)
    requires i <= n
    ensures 2 * PassesLeft(n, i) == (n - 1 - i) * (n - i)
    decreases n - i
  {
    if i + 1 < n {
      PassesLeftClosedForm(n, i + 1);
      var m := n - 1 - i;
      assert 2 * PassesLeft(n, i) == 2 * m + (m - 1) * m;
    }
  }

  /** An inner iteration pushes exactly one comparing step. */
  lemma RoundComparesOnce(data: seq<int>, i: nat, j: nat, id: nat)
    requires j + 1 < |data|
    ensures CountNote([CompareStep(id, data, i, j)], Comparing) == 1
    ensures CountNote([CompareStep(id, data, i, j), SwapStep(id + 1, Swap(data, j), i, j)], Comparing) == 1
  {
    var e := [CompareStep(id, data, i, j), SwapStep(id + 1, Swap(data, j), i, j)];
    assert [CompareStep(id, data, i, j)][1..] == [];
    assert e[1..] == [e[1]] && e[1..][1..] == [];
    assert CountNote(e[1..], Comparing) == 0;
  }

  /** Comparisons still to come from loop state (i, j) on. */
  function ComparesLeft(n: nat, i: nat, j: nat): int {
    if i + 1 < n then (n - 1 - i - j) + PassesLeft(n, i + 1) else 0
  }

  lemma ComparesLeftRound(n: nat, i: nat, j: nat)
    requires i + 1 < n && i + j + 1 < n
    ensures ComparesLeft(n, i, j) == 1 + ComparesLeft(n, i, j + 1)
  {
  }

  lemma ComparesLeftPass(n: nat, i: nat, j: nat)
    requires i + 1 < n && i + j + 1 == n
    ensures ComparesLeft(n, i, j) == ComparesLeft(n, i + 1, 0)
  {
  }

  /** Before any pass there are n(n-1)/2 comparisons to come. */
  lemma ComparesLeftTotal(n: nat)
    ensures 2 * ComparesLeft(n, 0, 0) == n * (n - 1)
  {
    if n >= 2 {
      PassesLeftClosedForm(n, 1);
    }
  }

  lemma {:induction false} BubbleFromCompareCount(data: seq<int>, i: nat, j: nat, id: nat)
    requires Reachable(|data|, i, j)
    ensures CountNote(BubbleFrom(data, i, j, id), Comparing) == ComparesLeft(|data|, i, j)
    decreases |data| - i, |data| - i - j
  {
    if i + 1 >= |data| {
    } else if i + j + 1 >= |data| {
      BubbleFromCompareCount(data, i + 1, 0, id);
      ComparesLeftPass(|data|, i, j);
    } else if data[j] > data[j + 1] {
      var s := Swap(data, j);
      BubbleFromCompareCount(s, i, j + 1, id + 2);
      RoundComparesOnce(data, i, j, id);
      CountNoteAppend([CompareStep(id, data, i, j), SwapStep(id + 1, s, i, j)], BubbleFrom(s, i, j + 1, id + 2), Comparing);
      ComparesLeftRound(|data|, i, j);
    } else {
      BubbleFromCompareCount(data, i, j + 1, id + 1);
      RoundComparesOnce(data, i, j, id);
      CountNoteAppend([CompareStep(id, data, i, j)], BubbleFrom(data, i, j + 1, id + 1), Comparing);
      ComparesLeftRound(|data|, i, j);
    }
  }

  /** A comparing step names an adjacent pair (j, j+1) of its own snapshot. */
  ghost predicate AdjacentPair(s: Step) {
    |s.comparing| == 2 && 0 <= s.comparing[0] && s.comparing[1] == s.comparing[0] + 1
    && s.comparing[1] < |Values(s)|
  }

  /** Step k of `r` is well placed: a comparison is followed by a swap exactly
      when its pair is strictly out of order, and a swap exchanges the pair the
      comparison before it named. */
  ghost predicate WellPlaced(r: seq<Step>, k: nat)
    requires k < |r|
  {
    && (r[k].note == Comparing ==>
          AdjacentPair(r[k]) && k + 1 < |r|
          && (r[k + 1].note == Swapped <==>
                Values(r[k])[r[k].comparing[0]] > Values(r[k])[r[k].comparing[1]]))
    && (r[k].note == Swapped ==>
          k > 0 && r[k - 1].note == Comparing && AdjacentPair(r[k - 1])
          && r[k].highlights == r[k - 1].comparing
          && Values(r[k]) == Swap(Values(r[k - 1]), r[k - 1].comparing[0]))
  }

  ghost predicate AllWellPlaced(r: seq<Step>) {
    forall k :: 0 <= k < |r| ==> WellPlaced(r, k)
  }

  /** Well placement of all steps of `e + rest` from that of `rest`. */
  lemma WellPlacedShift(e: seq<Step>, rest: seq<Step>)
    requires |rest| > 0 && rest[0].note != Swapped
    requires forall k :: 0 <= k < |e| ==> WellPlaced(e + rest, k)
    requires AllWellPlaced(rest)
    ensures AllWellPlaced(e + rest)
  {
    var r := e + rest;
    forall k | |e| <= k < |r| ensures WellPlaced(r, k) {
      var m := k - |e|;
      assert r[k] == rest[m];
      assert WellPlaced(rest, m);
      if k + 1 < |r| { assert r[k + 1] == rest[m + 1]; }
      if m > 0 { assert r[k - 1] == rest[m - 1]; }
    }
  }

  /** A comparison and the swap after it are well placed whatever follows,
      provided it does not start with a swap. */
  lemma SwapRoundWellPlaced(data: seq<int>, i: nat, j: nat, id: nat, rest: seq<Step>)
    requires j + 1 < |data| && data[j] > data[j + 1]
    requires |rest| > 0 && rest[0].note != Swapped
    ensures var r := [CompareStep(id, data, i, j), SwapStep(id + 1, Swap(data, j), i, j)] + rest;
      WellPlaced(r, 0) && WellPlaced(r, 1)
  {
    var r := [CompareStep(id, data, i, j), SwapStep(id + 1, Swap(data, j), i, j)] + rest;
    assert r[0] == CompareStep(id, data, i, j);
    assert r[1] == SwapStep(id + 1, Swap(data, j), i, j);
  }

  /** A comparison with no swap after it is well placed when what follows
      does not start with a swap. */
  lemma CompareRoundWellPlaced(data: seq<int>, i: nat, j: nat, id: nat, rest: seq<Step>)
    requires j + 1 < |data| && data[j] <= data[j + 1]
    requires |rest| > 0 && rest[0].note != Swapped
    ensures WellPlaced([CompareStep(id, data, i, j)] + rest, 0)
  {
    var r := [CompareStep(id, data, i, j)] + rest;
    assert r[1] == rest[0];
  }

  lemma {:induction false} BubbleFromWellPlaced(data: seq<int>, i: nat, j: nat, id: nat)
    ensures AllWellPlaced(BubbleFrom(data, i, j, id))
    decreases |data| - i, |data| - i - j
  {
    if i + 1 >= |data| {
    } else if i + j + 1 >= |data| {
      BubbleFromWellPlaced(data, i + 1, 0, id);
    } else if data[j] > data[j + 1] {
      var s := Swap(data, j);
      var e := [CompareStep(id, data, i, j), SwapStep(id + 1, s, i, j)];
      var rest := BubbleFrom(s, i, j + 1, id + 2);
      BubbleFromWellPlaced(s, i, j + 1, id + 2);
      BubbleFromNotes(s, i, j + 1, id + 2);
      SwapRoundWellPlaced(data, i, j, id, rest);
      WellPlacedShift(e, rest);
    } else {
      var e := [CompareStep(id, data, i, j)];
      var rest := BubbleFrom(data, i, j + 1, id + 1);
      BubbleFromWellPlaced(data, i, j + 1, id + 1);
      BubbleFromNotes(data, i, j + 1, id + 1);
      CompareRoundWellPlaced(data, i, j, id, rest);
      WellPlacedShift(e, rest);
    }
  }

  //
  // Every index a step refers to is valid.
  //

  lemma RoundInBounds(data: seq<int>, i: nat, j: nat, id: nat)
    requires i <= |data| && j + 1 < |data|
    ensures AllInBounds([CompareStep(id, data, i, j)])
    ensures AllInBounds([CompareStep(id, data, i, j), SwapStep(id + 1, Swap(data, j), i, j)])
  {
    assert StepInBounds(CompareStep(id, data, i, j));
    assert StepInBounds(SwapStep(id + 1, Swap(data, j), i, j));
  }

  lemma {:induction false} BubbleFromInBounds(data: seq<int>, i: nat, j: nat, id: nat)
    requires i <= |data|
    ensures AllInBounds(BubbleFrom(data, i, j, id))
    decreases |data| - i, |data| - i - j
  {
    if i + 1 >= |data| {
      assert StepInBounds(DoneStep(id, data));
    } else if i + j + 1 >= |data| {
      BubbleFromInBounds(data, i + 1, 0, id);
    } else if data[j] > data[j + 1] {
      var s := Swap(data, j);
      BubbleFromInBounds(s, i, j + 1, id + 2);
      RoundInBounds(data, i, j, id);
      AllInBoundsConcat([CompareStep(id, data, i, j), SwapStep(id + 1, s, i, j)], BubbleFrom(s, i, j + 1, id + 2));
    } else {
      BubbleFromInBounds(data, i, j + 1, id + 1);
      RoundInBounds(data, i, j, id);
      AllInBoundsConcat([CompareStep(id, data, i, j)], BubbleFrom(data, i, j + 1, id + 1));
    }
  }

  //
  // The properties of the whole trace.
  //

  /** The first step shows the input and the last step shows an ascending
      permutation of it with every index marked sorted. */
  lemma BubbleTraceSorts(arr: seq<int>)
    ensures var r := BubbleTrace(arr);
      && |r| >= 2
      && r[0] == InitialStep(arr)
      && EndsSorted(r, |arr|, Values(Last(r)))
      && Sorted(Values(Last(r)))
      && multiset(Values(Last(r))) == multiset(arr)
  {
    BubbleFromLast(arr, 0, 0, 1);
    EndsSortedConcat([InitialStep(arr)], BubbleFrom(arr, 0, 0, 1), |arr|, SortFrom(arr, 0, 0));
    SortFromPermutes(arr, 0, 0);
    SortFromSorts(arr, 0, 0);
  }

  /** Every step shows an array snapshot of n values. */
  lemma BubbleTraceArrays(arr: seq<int>)
    ensures AllArrays(BubbleTrace(arr), |arr|)
  {
    BubbleFromArrays(arr, 0, 0, 1);
    AllArraysConcat([InitialStep(arr)], BubbleFrom(arr, 0, 0, 1), |arr|);
  }

  /** Step k carries the id `step-k`. */
  lemma BubbleTraceIds(arr: seq<int>)
    ensures NumberedFrom(BubbleTrace(arr), 0)
  {
    BubbleFromIds(arr, 0, 0, 1);
    NumberedConcat([InitialStep(arr)], BubbleFrom(arr, 0, 0, 1), 0);
  }

  /** Every index a step lists as sorted already holds the value it has in
      the final step. */
  lemma BubbleTraceSortedAreFinal(arr: seq<int>)
    ensures AllSortedAreFinal(BubbleTrace(arr), Values(Last(BubbleTrace(arr))))
  {
    var rest := BubbleFrom(arr, 0, 0, 1);
    BubbleFromLast(arr, 0, 0, 1);
    BubbleFromSortedAreFinal(arr, 0, 0, 1);
    LastConcat([InitialStep(arr)], rest);
    assert AllSortedAreFinal([InitialStep(arr)], SortFrom(arr, 0, 0));
    AllSortedAreFinalConcat([InitialStep(arr)], rest, SortFrom(arr, 0, 0));
  }

  /** Exactly n(n-1)/2 comparing steps. */
  lemma BubbleTraceCompareCount(arr: seq<int>)
    ensures CountNote(BubbleTrace(arr), Comparing) == |arr| * (|arr| - 1) / 2
  {
    var first := [InitialStep(arr)];
    var rest := BubbleFrom(arr, 0, 0, 1);
    BubbleFromCompareCount(arr, 0, 0, 1);
    CountNoteAppend(first, rest, Comparing);
    assert first[1..] == [];
    assert CountNote(first, Comparing) == 0;
    ComparesLeftTotal(|arr|);
  }

  /** Each comparison names an adjacent pair of the array, and a swapped step
      follows it exactly when the pair is strictly out of order. */
  lemma BubbleTraceWellPlaced(arr: seq<int>)
    ensures AllWellPlaced(BubbleTrace(arr))
  {
    var first := [InitialStep(arr)];
    var rest := BubbleFrom(arr, 0, 0, 1);
    BubbleFromWellPlaced(arr, 0, 0, 1);
    BubbleFromNotes(arr, 0, 0, 1);
    assert (first + rest)[0] == InitialStep(arr);
    WellPlacedShift(first, rest);
  }

  /** Empty or single-element input: just the initial and the final step. */
  lemma BubbleTraceSmall(arr: seq<int>)
    requires |arr| <= 1
    ensures BubbleTrace(arr) == [InitialStep(arr), DoneStep(1, arr)]
    ensures CountNote(BubbleTrace(arr), Comparing) == 0
  {
    assert BubbleFrom(arr, 0, 0, 1) == [DoneStep(1, arr)];
    var r := BubbleTrace(arr);
    assert r[1..] == [DoneStep(1, arr)] && r[1..][1..] == [];
    assert CountNote(r[1..][1..], Comparing) == 0;
    assert CountNote(r[1..], Comparing) == 0;
  }

  /** Every index any step refers to is valid for its snapshot. */
  lemma BubbleTraceInBounds(arr: seq<int>)
    ensures AllInBounds(BubbleTrace(arr))
  {
    BubbleFromInBounds(arr, 0, 0, 1);
    assert StepInBounds(InitialStep(arr));
    AllInBoundsConcat([InitialStep(arr)], BubbleFrom(arr, 0, 0, 1));
  }

  //
  // The imperative generator.
  //

  /** A round of the inner loop that swaps: the steps pushed so far, the
      comparison, the swap and the rest still make up the whole trace. */
  lemma SwapRound(whole: seq<Step>, steps0: seq<Step>, before: seq<int>, i: nat, j: nat, id: nat)
    requires i + 1 < |before| && i + j + 1 < |before| && before[j] > before[j + 1]
    requires steps0 + BubbleFrom(before, i, j, id) == whole
    ensures steps0 + [CompareStep(id, before, i, j)] + [SwapStep(id + 1, Swap(before, j), i, j)]
      + BubbleFrom(Swap(before, j), i, j + 1, id + 2) == whole
  {
    var c, w := CompareStep(id, before, i, j), SwapStep(id + 1, Swap(before, j), i, j);
    var rest := BubbleFrom(Swap(before, j), i, j + 1, id + 2);
    assert [c, w] == [c] + [w];
    assert steps0 + ([c] + [w] + rest) == steps0 + [c] + [w] + rest;
  }

  /** A round of the inner loop that does not swap. */
  lemma CompareRound(whole: seq<Step>, steps0: seq<Step>, before: seq<int>, i: nat, j: nat, id: nat)
    requires i + 1 < |before| && i + j + 1 < |before| && before[j] <= before[j + 1]
    requires steps0 + BubbleFrom(before, i, j, id) == whole
    ensures steps0 + [CompareStep(id, before, i, j)] + BubbleFrom(before, i, j + 1, id + 1) == whole
  {
    Assoc(steps0, [CompareStep(id, before, i, j)], BubbleFrom(before, i, j + 1, id + 1));
  }

  /** The inner loop has run out: the next pass starts. */
  lemma PassEnds(data: seq<int>, i: nat, j: nat, id: nat)
    requires i + 1 < |data| && i + j + 1 >= |data|
    ensures BubbleFrom(data, i, j, id) == BubbleFrom(data, i + 1, 0, id)
  {
  }

  /** The outer loop has run out: only the final step is left. */
  lemma LoopsEnd(data: seq<int>, i: nat, id: nat)
    requires i + 1 >= |data|
    ensures BubbleFrom(data, i, 0, id) == [DoneStep(id, data)]
  {
  }

  /** `generateBubbleSortSteps`: the nested loops swap adjacent entries of a
      working copy in place and push a snapshot per comparison and per swap. */
  method BubbleSortSteps(arr: seq<int>) returns (steps: seq<Step>)
    ensures steps == BubbleTrace(arr)
  {
    var data := new int[|arr|](k requires 0 <= k < |arr| => arr[k]);
    var n := data.Length;
    var stepId := 0;
    assert data[..] == arr;
    steps := [Step(Num(stepId), Initial, ArrayData(data[..]), [], [], [], None)];
    stepId := stepId + 1;
    var i := 0;
    while i < n - 1
      invariant 0 <= i && (n > 0 ==> i <= n - 1)
      invariant n == |arr| && stepId == |steps|
      invariant steps + BubbleFrom(data[..], i, 0, stepId) == BubbleTrace(arr)
    {
      var j := 0;
      while j < n - i - 1
        invariant 0 <= j <= n - i - 1
        invariant stepId == |steps|
        invariant steps + BubbleFrom(data[..], i, j, stepId) == BubbleTrace(arr)
      {
        ghost var before := data[..];
        ghost var steps0 := steps;
        steps := steps + [CompareStep(stepId, data[..], i, j)];
        stepId := stepId + 1;
        if data[j] > data[j + 1] {
          SwapRound(BubbleTrace(arr), steps0, before, i, j, stepId - 1);
          data[j], data[j + 1] := data[j + 1], data[j];
          assert data[..] == Swap(before, j);
          steps := steps + [SwapStep(stepId, data[..], i, j)];
          stepId := stepId + 1;
        } else {
          CompareRound(BubbleTrace(arr), steps0, before, i, j, stepId - 1);
        }
        j := j + 1;
      }
      PassEnds(data[..], i, j, stepId);
      i := i + 1;
    }
    LoopsEnd(data[..], i, stepId);
    steps := steps + [DoneStep(stepId, data[..])];
  }
}
