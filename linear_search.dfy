/** Linear-search step traces. The editor's parser
    (src/utils/pythonParser.ts:246-287) and the built-in table
    (src/data/algorithms.ts:111-150) check the indices from the left until
    the target turns up; they differ in the shape of their steps and in how
    they decide to add the not-found step. */
module LinearSearch {
  import opened StepModel

  /** No index in [lo, hi) holds `t`. */
  ghost predicate Misses(arr: seq<int>, t: int, lo: int, hi: int) {
    forall j :: lo <= j < hi && 0 <= j < |arr| ==> arr[j] != t
  }

  /** The first index holding `t` at or after `i`, if any. */
  function FirstFrom(arr: seq<int>, t: int, i: nat): (r: Option<nat>)
    requires i <= |arr|
    ensures r.Some? ==> i <= r.value < |arr| && arr[r.value] == t
    ensures r.Some? ==> forall j :: i <= j < r.value ==> arr[j] != t
    ensures r.None? ==> forall j :: i <= j < |arr| ==> arr[j] != t
    decreases |arr| - i
  {
    if i == |arr| then None
    else if arr[i] == t then Some(i)
    else FirstFrom(arr, t, i + 1)
  }

  /** The first index holding `t`: `arr.indexOf(t)` when it is not -1. */
  function FirstIndex(arr: seq<int>, t: int): (r: Option<nat>)
    ensures r.Some? <==> t in arr
  {
    FirstFrom(arr, t, 0)
  }

  /** How many indices the loop checks: up to and including the first
      occurrence, or all of them. */
  function Checked(arr: seq<int>, t: int): (k: nat)
    ensures k <= |arr|
  {
    match FirstIndex(arr, t)
    case Some(i) => i + 1
    case None => |arr|
  }

  function InitialStep(arr: seq<int>): Step {
    Step(Num(0), Initial, ArrayData(arr), [], [], [], None)
  }

  /** The step that checks index i; the table also sets `currentIndex`. */
  function CheckStep(g: Generator, arr: seq<int>, i: int, id: nat): Step {
    match g
    case FromParser => Step(Num(id), Checking, ArrayData(arr), [i], [], [], None)
    case FromTable => Step(Num(id), Checking, ArrayData(arr), [i], [], [], Some(i))
  }

  /** The step that reports the target at index i; the parser also marks it
      sorted. */
  function FoundStep(g: Generator, arr: seq<int>, i: int, id: nat): Step {
    match g
    case FromParser => Step(Num(id), Found, ArrayData(arr), [i], [], [i], None)
    case FromTable => Step(Num(id), Found, ArrayData(arr), [i], [], [], None)
  }

  function NotFoundStep(arr: seq<int>, id: nat): Step {
    Step(Num(id), NotFound, ArrayData(arr), [], [], [], None)
  }

  /** The checking steps of indices 0 .. k-1, numbered from `step-1`. */
  function Checks(g: Generator, arr: seq<int>, k: nat): (r: seq<Step>)
    ensures |r| == k
  {
    seq(k, j requires 0 <= j < k => CheckStep(g, arr, j, j + 1))
  }

  /** The whole trace of `generateLinearSearchSteps(arr, target)`. */
  function LinearTrace(g: Generator, arr: seq<int>, t: int): seq<Step> {
    var k := Checked(arr, t);
    [InitialStep(arr)] + Checks(g, arr, k)
      + [match FirstIndex(arr, t)
         case Some(i) => FoundStep(g, arr, i, k + 1)
         case None => NotFoundStep(arr, k + 1)]
  }

  /** Whether some step's description mentions `Found`: of the descriptions
      the generator writes, only the found step's does (the not-found step
      says `not found`, in lower case). */
  function MentionsFound(steps: seq<Step>): (b: bool)
    ensures b <==> exists k :: 0 <= k < |steps| && steps[k].note == Found
  {
    if |steps| == 0 then false
    else
      var b := steps[0].note == Found || MentionsFound(steps[1..]);
      assert b ==> exists k :: 0 <= k < |steps| && steps[k].note == Found by {
        if b && steps[0].note != Found {
          var k :| 0 <= k < |steps| - 1 && steps[1..][k].note == Found;
          assert steps[k + 1].note == Found;
        }
      }
      assert (exists k :: 0 <= k < |steps| && steps[k].note == Found) ==> b by {
        if exists k :: 0 <= k < |steps| && steps[k].note == Found {
          var k :| 0 <= k < |steps| && steps[k].note == Found;
          if k > 0 { assert steps[1..][k - 1].note == Found; }
        }
      }
      b
  }

  //
  // Properties of the trace.
  //

  /** The trace has one checking step per checked index, between the
      initial step and a final found or not-found step; a found step names
      the first index holding the target, and the search ends not found
      exactly when the target is absent. Unlike binary search, no order of
      the array is needed. */
  lemma LinearTraceOutcome(g: Generator, arr: seq<int>, t: int)
    ensures var r := LinearTrace(g, arr, t);
      && |r| == Checked(arr, t) + 2
      && r[0] == InitialStep(arr)
      && (Last(r).note == Found <==> t in arr)
      && (Last(r).note == NotFound <==> t !in arr)
      && (Last(r).note == Found ==>
            |Last(r).highlights| == 1 && 0 <= Last(r).highlights[0] < |arr|
            && arr[Last(r).highlights[0]] == t
            && Misses(arr, t, 0, Last(r).highlights[0]))
  {
  }

  /** Checking step k+1 checks index k, and every checked index but the
      last one misses the target; each step carries the id of its position. */
  lemma LinearTraceChecks(g: Generator, arr: seq<int>, t: int)
    ensures var r := LinearTrace(g, arr, t);
      && NumberedFrom(r, 0)
      && (forall k :: 1 <= k <= Checked(arr, t) ==> r[k].note == Checking && r[k].highlights == [k - 1])
      && Misses(arr, t, 0, Checked(arr, t) - 1)
      && (g == FromTable ==> forall k :: 1 <= k <= Checked(arr, t) ==> r[k].current == Some(k - 1))
  {
    var r := LinearTrace(g, arr, t);
    var n := Checked(arr, t);
    forall k | 0 <= k < |r| ensures r[k].id == Num(k) {
      if 1 <= k <= n {
        assert r[k] == Checks(g, arr, n)[k - 1];
      }
    }
    forall k | 1 <= k <= n ensures r[k] == CheckStep(g, arr, k - 1, k) {
      assert r[k] == Checks(g, arr, n)[k - 1];
    }
  }

  lemma {:induction false} ChecksCount(g: Generator, arr: seq<int>, k: nat)
    ensures CountNote(Checks(g, arr, k), Checking) == k
    ensures !MentionsFound(Checks(g, arr, k))
  {
    if k > 0 {
      ChecksCount(g, arr, k - 1);
      var c := Checks(g, arr, k);
      assert c == Checks(g, arr, k - 1) + [CheckStep(g, arr, k - 1, k)];
      CountNoteAppend(Checks(g, arr, k - 1), [CheckStep(g, arr, k - 1, k)], Checking);
      assert [CheckStep(g, arr, k - 1, k)][1..] == [];
    }
  }

  /** The number of checking steps: the position of the first occurrence
      plus one, or the length of the array. */
  lemma {:induction false} LinearTraceCheckCount(g: Generator, arr: seq<int>, t: int)
    ensures CountNote(LinearTrace(g, arr, t), Checking)
      == match FirstIndex(arr, t) case Some(i) => i + 1 case None => |arr|
  {
    var n := Checked(arr, t);
    var first := [InitialStep(arr)];
    var last := [Last(LinearTrace(g, arr, t))];
    ChecksCount(g, arr, n);
    assert LinearTrace(g, arr, t) == first + Checks(g, arr, n) + last;
    CountNoteAppend(first + Checks(g, arr, n), last, Checking);
    CountNoteAppend(first, Checks(g, arr, n), Checking);
    assert first[1..] == [] && last[1..] == [];
  }

  //
  // The imperative generators.
  //

  lemma ChecksSnoc(g: Generator, arr: seq<int>, k: nat)
    ensures Checks(g, arr, k + 1) == Checks(g, arr, k) + [CheckStep(g, arr, k, k + 1)]
  {
  }

  /** `generateLinearSearchSteps` of the editor's parser: the loop leaves by
      `break` after a found step, and the not-found step is added when no
      step so far mentions `Found`. */
  method ParserLinearSteps(arr: seq<int>, target: int) returns (steps: seq<Step>)
    ensures steps == LinearTrace(FromParser, arr, target)
  {
    var stepId := 0;
    steps := [InitialStep(arr)];
    stepId := stepId + 1;
    ghost var found := false;
    var i := 0;
    while i < |arr|
      invariant 0 <= i <= |arr|
      invariant stepId == |steps|
      invariant forall j :: 0 <= j < i ==> arr[j] != target
      invariant !found ==> steps == [InitialStep(arr)] + Checks(FromParser, arr, i)
      invariant found ==> steps == LinearTrace(FromParser, arr, target)
      decreases |arr| - i
    {
      ChecksSnoc(FromParser, arr, i);
      steps := steps + [CheckStep(FromParser, arr, i, stepId)];
      stepId := stepId + 1;
      if arr[i] == target {
        assert FirstFrom(arr, target, 0) == Some(i) by { FirstIsLeast(arr, target, i); }
        steps := steps + [FoundStep(FromParser, arr, i, stepId)];
        stepId := stepId + 1;
        found := true;
        break;
      }
      i := i + 1;
    }
    if !found {
      assert FirstIndex(arr, target) == None;
      ChecksCount(FromParser, arr, i);
      assert !MentionsFound(steps) by {
        assert forall k :: 1 <= k < |steps| ==> steps[k] == Checks(FromParser, arr, i)[k - 1];
      }
    } else {
      assert MentionsFound(steps) by { assert Last(steps).note == Found; }
    }
    if !MentionsFound(steps) {
      steps := steps + [NotFoundStep(arr, stepId)];
    }
  }

  /** An index holding the target before which no index does is the first
      one. */
  lemma FirstIsLeast(arr: seq<int>, t: int, i: nat)
    requires i < |arr| && arr[i] == t
    requires forall j :: 0 <= j < i ==> arr[j] != t
    ensures FirstFrom(arr, t, 0) == Some(i)
  {
  }

  /** `generateLinearSearchSteps` of the built-in table: the loop returns
      right after a found step, and the not-found step follows the loop. */
  method TableLinearSteps(arr: seq<int>, target: int) returns (steps: seq<Step>)
    ensures steps == LinearTrace(FromTable, arr, target)
  {
    var stepId := 0;
    steps := [InitialStep(arr)];
    stepId := stepId + 1;
    var i := 0;
    while i < |arr|
      invariant 0 <= i <= |arr|
      invariant stepId == |steps|
      invariant forall j :: 0 <= j < i ==> arr[j] != target
      invariant steps == [InitialStep(arr)] + Checks(FromTable, arr, i)
      decreases |arr| - i
    {
      ChecksSnoc(FromTable, arr, i);
      steps := steps + [CheckStep(FromTable, arr, i, stepId)];
      stepId := stepId + 1;
      if arr[i] == target {
        FirstIsLeast(arr, target, i);
        steps := steps + [FoundStep(FromTable, arr, i, stepId)];
        return;
      }
      i := i + 1;
    }
    assert FirstIndex(arr, target) == None;
    steps := steps + [NotFoundStep(arr, stepId)];
  }
}
