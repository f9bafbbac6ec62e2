/** Binary-search step traces. Two generators run the same search with
    differently shaped steps: the editor's parser
    (src/utils/pythonParser.ts:182-244) shows the window as a comparing pair,
    the built-in table (src/data/algorithms.ts:48-109) shows the probed index
    as `currentIndex` and each remaining half as a highlighted interval.
    The search itself is described once, as a sequence of events; each
    generator renders every event as one step. */
module BinarySearch {
  import opened StepModel

  /** What one pushed step reports about the search. */
  datatype Event =
    | ProbeAt(left: int, right: int, mid: int)  // the middle of [left, right] is checked
    | GoRight(mid: int, right: int)             // arr[mid] < target: go on in [mid + 1, right]
    | GoLeft(left: int, mid: int)               // arr[mid] > target: go on in [left, mid - 1]
    | FoundAt(mid: int)                         // arr[mid] == target
    | Missing                                   // the window became empty

  /** Half of `x`, rounded down, by repeated subtraction; `HalfIsDivision`
      shows it is `x / 2`. Keeping the division out of the definition keeps
      it out of every proof that unfolds the search. */
  function Half(x: nat): (h: nat)
    ensures 2 * h <= x < 2 * h + 2
  {
    if x < 2 then 0 else 1 + Half(x - 2)
  }

  lemma {:induction false} HalfIsDivision(x: nat)
    ensures Half(x) == x / 2
  {
    if x >= 2 {
      HalfIsDivision(x - 2);
    }
  }

  /** `Math.floor((left + right) / 2)` for a non-empty window, where
      `left + right >= 0`: an index of the window. */
  function Mid(left: int, right: int): (mid: int)
    requires 0 <= left <= right
    ensures left <= mid <= right
  {
    Half(left + right)
  }

  /** The probed index is the floor of the window's midpoint. */
  lemma MidIsFloor(left: int, right: int)
    requires 0 <= left <= right
    ensures Mid(left, right) == (left + right) / 2
  {
    HalfIsDivision(left + right);
  }

  /** The events of the loop from window [left, right] on. */
  function EventsFrom(arr: seq<int>, t: int, left: int, right: int): (r: seq<Event>)
    requires 0 <= left && right < |arr|
    ensures |r| >= 1
    decreases right - left
  {
    if left > right then [Missing]
    else
      var mid := Mid(left, right);
      if arr[mid] == t then [ProbeAt(left, right, mid), FoundAt(mid)]
      else if arr[mid] < t then [ProbeAt(left, right, mid), GoRight(mid, right)] + EventsFrom(arr, t, mid + 1, right)
      else [ProbeAt(left, right, mid), GoLeft(left, mid)] + EventsFrom(arr, t, left, mid - 1)
  }

  /** The events of a whole search, starting from the full array. */
  function Events(arr: seq<int>, t: int): seq<Event> {
    EventsFrom(arr, t, 0, |arr| - 1)
  }

  //
  // How each generator renders an event.
  //

  function ProbeStep(g: Generator, arr: seq<int>, left: int, right: int, mid: int, id: nat): Step {
    match g
    case FromParser => Step(Num(id), Probe, ArrayData(arr), [mid], [left, right], [], None)
    case FromTable => Step(Num(id), Probe, ArrayData(arr), [mid], [], [], Some(mid))
  }

  function FoundStep(g: Generator, arr: seq<int>, mid: int, id: nat): Step {
    match g
    case FromParser => Step(Num(id), Found, ArrayData(arr), [mid], [], [mid], None)
    case FromTable => Step(Num(id), Found, ArrayData(arr), [mid], [], [], None)
  }

  function RightStep(g: Generator, arr: seq<int>, mid: int, right: int, id: nat): Step {
    match g
    case FromParser => Step(Num(id), SearchRight, ArrayData(arr), [], [mid + 1, right], [], None)
    case FromTable => Step(Num(id), SearchRight, ArrayData(arr), Interval(mid + 1, right + 1), [], [], None)
  }

  function LeftStep(g: Generator, arr: seq<int>, left: int, mid: int, id: nat): Step {
    match g
    case FromParser => Step(Num(id), SearchLeft, ArrayData(arr), [], [left, mid - 1], [], None)
    case FromTable => Step(Num(id), SearchLeft, ArrayData(arr), Interval(left, mid), [], [], None)
  }

  function NotFoundStep(arr: seq<int>, id: nat): Step {
    Step(Num(id), NotFound, ArrayData(arr), [], [], [], None)
  }

  function InitialStep(arr: seq<int>): Step {
    Step(Num(0), Initial, ArrayData(arr), [], [], [], None)
  }

  function StepOf(g: Generator, arr: seq<int>, e: Event, id: nat): Step {
    match e
    case ProbeAt(l, r, m) => ProbeStep(g, arr, l, r, m, id)
    case GoRight(m, r) => RightStep(g, arr, m, r, id)
    case GoLeft(l, m) => LeftStep(g, arr, l, m, id)
    case FoundAt(m) => FoundStep(g, arr, m, id)
    case Missing => NotFoundStep(arr, id)
  }

  /** The steps of a list of events, numbered from `step-1` on. */
  function Render(g: Generator, arr: seq<int>, evs: seq<Event>): (r: seq<Step>)
    ensures |r| == |evs|
  {
    seq(|evs|, k requires 0 <= k < |evs| => StepOf(g, arr, evs[k], k + 1))
  }

  lemma RenderSnoc(g: Generator, arr: seq<int>, evs: seq<Event>, e: Event)
    ensures Render(g, arr, evs + [e]) == Render(g, arr, evs) + [StepOf(g, arr, e, |evs| + 1)]
  {
    var a := Render(g, arr, evs + [e]);
    var b := Render(g, arr, evs) + [StepOf(g, arr, e, |evs| + 1)];
    forall k | 0 <= k < |a| ensures a[k] == b[k] {
      if k < |evs| { assert (evs + [e])[k] == evs[k]; }
    }
  }

  /** The whole trace of `generateBinarySearchSteps(arr, target)`. */
  function SearchTrace(g: Generator, arr: seq<int>, t: int): seq<Step> {
    [InitialStep(arr)] + Render(g, arr, Events(arr, t))
  }

  //
  // The search: its outcome and its number of probes.
  //

  /** The target occurs in window [left, right]. */
  ghost predicate InWindow(arr: seq<int>, t: int, left: int, right: int) {
    exists k :: 0 <= left <= k <= right < |arr| && arr[k] == t
  }

  /** After a probe below the target the search ends as its right half's
      does. */
  lemma LastGoesRight(arr: seq<int>, t: int, left: int, right: int)
    requires 0 <= left <= right < |arr| && arr[Mid(left, right)] < t
    ensures Last(EventsFrom(arr, t, left, right)) == Last(EventsFrom(arr, t, Mid(left, right) + 1, right))
  {
    var mid := Mid(left, right);
    var rest := EventsFrom(arr, t, mid + 1, right);
    assert EventsFrom(arr, t, left, right) == [ProbeAt(left, right, mid), GoRight(mid, right)] + rest;
    LastConcat([ProbeAt(left, right, mid), GoRight(mid, right)], rest);
  }

  /** After a probe above the target the search ends as its left half's
      does. */
  lemma LastGoesLeft(arr: seq<int>, t: int, left: int, right: int)
    requires 0 <= left <= right < |arr| && arr[Mid(left, right)] > t
    ensures Last(EventsFrom(arr, t, left, right)) == Last(EventsFrom(arr, t, left, Mid(left, right) - 1))
  {
    var mid := Mid(left, right);
    var rest := EventsFrom(arr, t, left, mid - 1);
    assert EventsFrom(arr, t, left, right) == [ProbeAt(left, right, mid), GoLeft(left, mid)] + rest;
    LastConcat([ProbeAt(left, right, mid), GoLeft(left, mid)], rest);
  }

  /** Event `e` ends a search: a find at an index holding the target, or
      an empty window. */
  ghost predicate Concludes(arr: seq<int>, t: int, e: Event) {
    e == Missing || (e.FoundAt? && 0 <= e.mid < |arr| && arr[e.mid] == t)
  }

  /** The search ends when it finds an index holding the target or when the
      window becomes empty. */
  lemma {:induction false} EventsFromLast(arr: seq<int>, t: int, left: int, right: int)
    requires 0 <= left && right < |arr|
    ensures Concludes(arr, t, Last(EventsFrom(arr, t, left, right)))
    decreases right - left
  {
    if left <= right {
      var mid := Mid(left, right);
      if arr[mid] == t {
        assert Last(EventsFrom(arr, t, left, right)) == FoundAt(mid);
      } else if arr[mid] < t {
        EventsFromLast(arr, t, mid + 1, right);
        LastGoesRight(arr, t, left, right);
      } else {
        EventsFromLast(arr, t, left, mid - 1);
        LastGoesLeft(arr, t, left, right);
      }
    }
  }

  /** On a sorted array, a probe that misses the target keeps it in the half
      the search goes on with, if it was in the window at all. */
  lemma WindowNarrows(arr: seq<int>, t: int, left: int, right: int)
    requires Sorted(arr)
    requires 0 <= left <= right < |arr| && arr[Mid(left, right)] != t
    ensures var mid := Mid(left, right);
      if arr[mid] < t then InWindow(arr, t, left, right) <==> InWindow(arr, t, mid + 1, right)
      else InWindow(arr, t, left, right) <==> InWindow(arr, t, left, mid - 1)
  {
    var mid := Mid(left, right);
    if InWindow(arr, t, left, right) {
      var k :| 0 <= left <= k <= right < |arr| && arr[k] == t;
      if arr[mid] < t {
        assert mid + 1 <= k;
      } else {
        assert k <= mid - 1;
      }
    }
  }

  /** On a sorted array the search finds the target exactly when it occurs
      in the window. */
  lemma {:induction false} EventsFromFoundIff(arr: seq<int>, t: int, left: int, right: int)
    requires Sorted(arr)
    requires 0 <= left && right < |arr|
    ensures Last(EventsFrom(arr, t, left, right)).FoundAt? <==> InWindow(arr, t, left, right)
    decreases right - left
  {
    if left <= right {
      var mid := Mid(left, right);
      if arr[mid] == t {
        assert InWindow(arr, t, left, right) by { assert arr[mid] == t; }
      } else if arr[mid] < t {
        WindowNarrows(arr, t, left, right);
        EventsFromFoundIff(arr, t, mid + 1, right);
        LastGoesRight(arr, t, left, right);
      } else {
        WindowNarrows(arr, t, left, right);
        EventsFromFoundIff(arr, t, left, mid - 1);
        LastGoesLeft(arr, t, left, right);
      }
    }
  }


  /** The number of probe events. */
  function Probes(evs: seq<Event>): nat {
    if |evs| == 0 then 0 else (if evs[0].ProbeAt? then 1 else 0) + Probes(evs[1..])
  }

  /** The number of probes a window of `size` elements can take at most:
      the bit length of `size`. */
  function Bits(size: nat): nat {
    if size == 0 then 0 else 1 + Bits(Half(size))
  }

  lemma {:induction false} BitsMonotone(a: nat, b: nat)
    requires a <= b
    ensures Bits(a) <= Bits(b)
  {
    if a > 0 {
      HalfIsDivision(a);
      HalfIsDivision(b);
      BitsMonotone(Half(a), Half(b));
    }
  }

  /** Both halves left after a probe hold at most half of the window. */
  lemma HalvesShrink(left: int, right: int)
    requires 0 <= left <= right
    ensures right - Mid(left, right) <= Half(right - left + 1)
    ensures Mid(left, right) - left <= Half(right - left + 1)
  {
    HalfIsDivision(left + right);
    HalfIsDivision(right - left + 1);
  }

  /** A window of `size` elements takes at most `Bits(size)` probes. */
  lemma {:induction false} EventsFromProbes(arr: seq<int>, t: int, left: int, right: int)
    requires 0 <= left && right < |arr|
    ensures Probes(EventsFrom(arr, t, left, right)) <= Bits(if left <= right then right - left + 1 else 0)
    decreases right - left
  {
    var r := EventsFrom(arr, t, left, right);
    if left > right {
      assert r[1..] == [];
    } else {
      var mid := Mid(left, right);
      HalvesShrink(left, right);
      assert r[1..][1..] == r[2..];
      assert Probes(r) == 1 + Probes(r[1..]);
      assert Probes(r[1..]) == Probes(r[2..]);
      if arr[mid] == t {
        assert r[2..] == [];
      } else {
        var nl := if arr[mid] < t then mid + 1 else left;
        var nr := if arr[mid] < t then right else mid - 1;
        EventsFromProbes(arr, t, nl, nr);
        assert r[2..] == EventsFrom(arr, t, nl, nr);
        BitsMonotone(if nl <= nr then nr - nl + 1 else 0, Half(right - left + 1));
      }
    }
  }

  //
  // Each probe decides correctly, and each halving step opens the next window.
  //

  /** Event `e` starts the search of window [l, r]: a probe of it when it is
      non-empty, the end of the search otherwise. */
  ghost predicate Opens(e: Event, l: int, r: int) {
    if l <= r then e.ProbeAt? && e.left == l && e.right == r else e == Missing
  }

  /** A probe at position k checks the middle of a window of valid indices
      and is followed by the event its comparison calls for; a halving event
      is followed by the start of the half it names. */
  ghost predicate WellOrdered(arr: seq<int>, t: int, evs: seq<Event>, k: nat)
    requires k < |evs|
  {
    && (evs[k].ProbeAt? ==>
          var l, r, m := evs[k].left, evs[k].right, evs[k].mid;
          && 0 <= l <= r < |arr| && m == Mid(l, r)
          && k + 1 < |evs|
          && evs[k + 1] == (if arr[m] == t then FoundAt(m) else if arr[m] < t then GoRight(m, r) else GoLeft(l, m)))
    && (evs[k].GoRight? ==> k + 1 < |evs| && Opens(evs[k + 1], evs[k].mid + 1, evs[k].right))
    && (evs[k].GoLeft? ==> k + 1 < |evs| && Opens(evs[k + 1], evs[k].left, evs[k].mid - 1))
  }

  lemma EventsFromFirst(arr: seq<int>, t: int, left: int, right: int)
    requires 0 <= left && right < |arr|
    ensures Opens(EventsFrom(arr, t, left, right)[0], left, right)
  {
  }

  ghost predicate AllWellOrdered(arr: seq<int>, t: int, evs: seq<Event>) {
    forall k :: 0 <= k < |evs| ==> WellOrdered(arr, t, evs, k)
  }

  /** The events after a probe and its decision are well ordered when the
      two are and the rest of the search is. */
  lemma WellOrderedCons(arr: seq<int>, t: int, a: Event, b: Event, rest: seq<Event>)
    requires AllWellOrdered(arr, t, rest)
    requires WellOrdered(arr, t, [a, b] + rest, 0) && WellOrdered(arr, t, [a, b] + rest, 1)
    ensures AllWellOrdered(arr, t, [a, b] + rest)
  {
    var r := [a, b] + rest;
    forall k | 2 <= k < |r| ensures WellOrdered(arr, t, r, k) {
      assert r[k] == rest[k - 2];
      assert WellOrdered(arr, t, rest, k - 2);
      if k + 1 < |r| { assert r[k + 1] == rest[k - 1]; }
    }
  }

  /** A probe below the target, then a well-ordered search of the right
      half. */
  lemma WellOrderedRight(arr: seq<int>, t: int, left: int, right: int)
    requires 0 <= left <= right < |arr| && arr[Mid(left, right)] < t
    requires AllWellOrdered(arr, t, EventsFrom(arr, t, Mid(left, right) + 1, right))
    ensures AllWellOrdered(arr, t, EventsFrom(arr, t, left, right))
  {
    var mid := Mid(left, right);
    var rest := EventsFrom(arr, t, mid + 1, right);
    var r := [ProbeAt(left, right, mid), GoRight(mid, right)] + rest;
    assert EventsFrom(arr, t, left, right) == r;
    EventsFromFirst(arr, t, mid + 1, right);
    assert r[2] == rest[0];
    assert WellOrdered(arr, t, r, 0);
    assert WellOrdered(arr, t, r, 1);
    WellOrderedCons(arr, t, ProbeAt(left, right, mid), GoRight(mid, right), rest);
  }

  /** A probe above the target, then a well-ordered search of the left
      half. */
  lemma WellOrderedLeft(arr: seq<int>, t: int, left: int, right: int)
    requires 0 <= left <= right < |arr| && arr[Mid(left, right)] > t
    requires AllWellOrdered(arr, t, EventsFrom(arr, t, left, Mid(left, right) - 1))
    ensures AllWellOrdered(arr, t, EventsFrom(arr, t, left, right))
  {
    var mid := Mid(left, right);
    var rest := EventsFrom(arr, t, left, mid - 1);
    var r := [ProbeAt(left, right, mid), GoLeft(left, mid)] + rest;
    assert EventsFrom(arr, t, left, right) == r;
    EventsFromFirst(arr, t, left, mid - 1);
    assert r[2] == rest[0];
    assert WellOrdered(arr, t, r, 0);
    assert WellOrdered(arr, t, r, 1);
    WellOrderedCons(arr, t, ProbeAt(left, right, mid), GoLeft(left, mid), rest);
  }

  /** A probe that hits the target, then the find. */
  lemma WellOrderedFound(arr: seq<int>, t: int, left: int, right: int)
    requires 0 <= left <= right < |arr| && arr[Mid(left, right)] == t
    ensures AllWellOrdered(arr, t, EventsFrom(arr, t, left, right))
  {
    var mid := Mid(left, right);
    var r := [ProbeAt(left, right, mid), FoundAt(mid)];
    assert EventsFrom(arr, t, left, right) == r;
    assert WellOrdered(arr, t, r, 0);
    assert WellOrdered(arr, t, r, 1);
  }

  lemma {:induction false} EventsFromWellOrdered(arr: seq<int>, t: int, left: int, right: int)
    requires 0 <= left && right < |arr|
    ensures AllWellOrdered(arr, t, EventsFrom(arr, t, left, right))
    decreases right - left
  {
    if left <= right {
      var mid := Mid(left, right);
      if arr[mid] == t {
        WellOrderedFound(arr, t, left, right);
      } else if arr[mid] < t {
        EventsFromWellOrdered(arr, t, mid + 1, right);
        WellOrderedRight(arr, t, left, right);
      } else {
        EventsFromWellOrdered(arr, t, left, mid - 1);
        WellOrderedLeft(arr, t, left, right);
      }
    }
  }


  //
  // Properties of the whole trace, as the steps show them.
  //

  /** The trace starts with the initial step and ends with a found or a
      not-found step; a found step names an index holding the target whether
      or not the array is sorted, and on a sorted array the search ends with
      a found step exactly when the target occurs in the array. */
  lemma SearchTraceOutcome(g: Generator, arr: seq<int>, t: int)
    ensures var r := SearchTrace(g, arr, t);
      && |r| >= 2
      && r[0] == InitialStep(arr)
      && (Last(r).note == Found || Last(r).note == NotFound)
      && (Last(r).note == Found ==>
            |Last(r).highlights| == 1 && 0 <= Last(r).highlights[0] < |arr| && arr[Last(r).highlights[0]] == t)
      && (Sorted(arr) ==> (Last(r).note == Found <==> t in arr))
  {
    var evs := Events(arr, t);
    EventsFromLast(arr, t, 0, |arr| - 1);
    SearchTraceEnds(g, arr, t);
    if Sorted(arr) {
      EventsFromFoundIff(arr, t, 0, |arr| - 1);
      WholeWindow(arr, t);
    }
  }

  /** An event after which the search goes on. */
  predicate Ongoing(e: Event) {
    e.ProbeAt? || e.GoRight? || e.GoLeft?
  }

  /** Every event but the last lets the search go on. */
  ghost predicate EndsOnce(evs: seq<Event>) {
    forall k :: 0 <= k < |evs| - 1 ==> Ongoing(evs[k])
  }

  lemma EndsOnceCons(a: Event, b: Event, rest: seq<Event>)
    requires Ongoing(a) && Ongoing(b) && |rest| > 0 && EndsOnce(rest)
    ensures EndsOnce([a, b] + rest)
  {
    var evs := [a, b] + rest;
    forall k | 2 <= k < |evs| - 1 ensures Ongoing(evs[k]) {
      assert evs[k] == rest[k - 2];
    }
  }

  /** Only the last event ends the search. */
  lemma {:induction false} EventsFromEndsOnce(arr: seq<int>, t: int, left: int, right: int)
    requires 0 <= left && right < |arr|
    ensures EndsOnce(EventsFrom(arr, t, left, right))
    decreases right - left
  {
    if left <= right {
      var mid := Mid(left, right);
      if arr[mid] < t {
        EventsFromEndsOnce(arr, t, mid + 1, right);
        EndsOnceCons(ProbeAt(left, right, mid), GoRight(mid, right), EventsFrom(arr, t, mid + 1, right));
      } else if arr[mid] > t {
        EventsFromEndsOnce(arr, t, left, mid - 1);
        EndsOnceCons(ProbeAt(left, right, mid), GoLeft(left, mid), EventsFrom(arr, t, left, mid - 1));
      }
    }
  }

  /** An event's step reports an outcome exactly when the event ends the
      search. */
  lemma OutcomeNote(g: Generator, arr: seq<int>, e: Event, id: nat)
    ensures var n := StepOf(g, arr, e, id).note;
      (n == Found || n == NotFound) <==> !Ongoing(e)
  {
  }

  /** The found or not-found step is the last step, and no earlier step is
      either: nothing follows a found step, and a not-found step comes only
      after the window has become empty. */
  lemma SearchTraceEndsOnce(g: Generator, arr: seq<int>, t: int)
    ensures var r := SearchTrace(g, arr, t);
      forall k :: 0 <= k < |r| - 1 ==> r[k].note != Found && r[k].note != NotFound
  {
    var r := SearchTrace(g, arr, t);
    var evs := Events(arr, t);
    EventsFromEndsOnce(arr, t, 0, |arr| - 1);
    forall k | 1 <= k < |r| - 1 ensures r[k].note != Found && r[k].note != NotFound {
      assert r[k] == StepOf(g, arr, evs[k - 1], k);
      OutcomeNote(g, arr, evs[k - 1], k);
    }
  }

  /** The trace is the initial step followed by one step per event. */
  lemma SearchTraceEnds(g: Generator, arr: seq<int>, t: int)
    ensures var r := SearchTrace(g, arr, t);
      |r| >= 2 && r[0] == InitialStep(arr)
      && Last(r) == StepOf(g, arr, Last(Events(arr, t)), |Events(arr, t)|)
  {
  }

  /** The first window is the whole array. */
  lemma WholeWindow(arr: seq<int>, t: int)
    ensures InWindow(arr, t, 0, |arr| - 1) <==> t in arr
  {
    if t in arr {
      var k :| 0 <= k < |arr| && arr[k] == t;
    }
  }

  lemma {:induction false} ProbesSnoc(evs: seq<Event>, e: Event)
    ensures Probes(evs + [e]) == Probes(evs) + (if e.ProbeAt? then 1 else 0)
    decreases |evs|
  {
    if |evs| == 0 {
      assert (evs + [e])[1..] == [];
    } else {
      assert (evs + [e])[1..] == evs[1..] + [e];
      ProbesSnoc(evs[1..], e);
    }
  }

  lemma {:induction false} CountRenderedProbes(g: Generator, arr: seq<int>, evs: seq<Event>)
    ensures CountNote(Render(g, arr, evs), Probe) == Probes(evs)
    decreases |evs|
  {
    if |evs| > 0 {
      var init := evs[..|evs| - 1];
      var e := evs[|evs| - 1];
      assert evs == init + [e];
      RenderSnoc(g, arr, init, e);
      CountRenderedProbes(g, arr, init);
      CountNoteAppend(Render(g, arr, init), [StepOf(g, arr, e, |init| + 1)], Probe);
      ProbesSnoc(init, e);
      assert [StepOf(g, arr, e, |init| + 1)][1..] == [];
    }
  }

  /** A search over n elements takes at most Bits(n), about log2(n) + 1,
      probes. */
  lemma SearchTraceProbes(g: Generator, arr: seq<int>, t: int)
    ensures CountNote(SearchTrace(g, arr, t), Probe) <= Bits(|arr|)
  {
    var first := [InitialStep(arr)];
    var rest := Render(g, arr, Events(arr, t));
    EventsFromProbes(arr, t, 0, |arr| - 1);
    CountRenderedProbes(g, arr, Events(arr, t));
    CountNoteAppend(first, rest, Probe);
    assert CountNote(first, Probe) == 0 by { assert first[1..] == []; }
  }

  /** Step k carries the id `step-<k>`. */
  lemma SearchTraceIds(g: Generator, arr: seq<int>, t: int)
    ensures NumberedFrom(SearchTrace(g, arr, t), 0)
  {
    var r := SearchTrace(g, arr, t);
    var evs := Events(arr, t);
    forall k | 0 <= k < |r| ensures r[k].id == Num(k) {
      if k > 0 {
        assert r[k] == StepOf(g, arr, evs[k - 1], k);
      }
    }
  }

  /** A probe step at position k checks the floor midpoint of a window of
      valid indices and is followed by the step its comparison calls for. The
      parser's probe shows that window as its comparing pair and its found
      step marks the index sorted; the table's probe shows the index as
      `currentIndex`, and its halving step highlights only indices on the
      side the search goes on with. */
  ghost predicate Decided(g: Generator, arr: seq<int>, t: int, r: seq<Step>, k: nat)
    requires k < |r|
  {
    r[k].note == Probe ==>
      && k + 1 < |r|
      && |r[k].highlights| == 1
      && var m, next := r[k].highlights[0], r[k + 1];
      && 0 <= m < |arr|
      && (next.note == Found <==> arr[m] == t)
      && (next.note == SearchRight <==> arr[m] < t)
      && (next.note == SearchLeft <==> arr[m] > t)
      && (g == FromParser ==>
            |r[k].comparing| == 2
            && 0 <= r[k].comparing[0] <= m <= r[k].comparing[1] < |arr|
            && m == (r[k].comparing[0] + r[k].comparing[1]) / 2
            && (next.note == Found ==> next.sorted == [m])
            && (next.note == SearchRight ==> next.comparing == [m + 1, r[k].comparing[1]])
            && (next.note == SearchLeft ==> next.comparing == [r[k].comparing[0], m - 1]))
      && (g == FromTable ==>
            r[k].current == Some(m)
            && (next.note == SearchRight ==>
                  forall p :: 0 <= p < |next.highlights| ==> m < next.highlights[p] < |arr|)
            && (next.note == SearchLeft ==>
                  forall p :: 0 <= p < |next.highlights| ==> 0 <= next.highlights[p] < m))
  }

  /** A halving step at position k is followed by the probe of the window it
      announces, or by the not-found step when that window is empty. */
  ghost predicate Narrowed(g: Generator, r: seq<Step>, k: nat)
    requires k < |r|
  {
    (r[k].note == SearchRight || r[k].note == SearchLeft) ==>
      && k + 1 < |r|
      && (r[k + 1].note == Probe || r[k + 1].note == NotFound)
      && (g == FromParser ==>
            |r[k].comparing| == 2
            && (r[k + 1].note == Probe ==> r[k + 1].comparing == r[k].comparing)
            && (r[k + 1].note == NotFound ==> r[k].comparing[0] > r[k].comparing[1]))
      && (g == FromTable ==>
            (r[k + 1].note == Probe ==> |r[k + 1].highlights| == 1 && r[k + 1].highlights[0] in r[k].highlights)
            && (r[k + 1].note == NotFound ==> r[k].highlights == []))
  }

  /** A step shows what its event says. */
  lemma RenderedDecided(g: Generator, arr: seq<int>, t: int, evs: seq<Event>, k: nat)
    requires k < |evs| && WellOrdered(arr, t, evs, k)
    ensures Decided(g, arr, t, [InitialStep(arr)] + Render(g, arr, evs), k + 1)
  {
    var r := [InitialStep(arr)] + Render(g, arr, evs);
    assert r[k + 1] == StepOf(g, arr, evs[k], k + 1);
    if evs[k].ProbeAt? {
      assert r[k + 2] == StepOf(g, arr, evs[k + 1], k + 2);
      MidIsFloor(evs[k].left, evs[k].right);
    }
  }

  lemma IntervalHas(lo: int, hi: int, x: int)
    requires lo <= x < hi
    ensures x in Interval(lo, hi)
  {
    assert Interval(lo, hi)[x - lo] == x;
  }

  lemma RenderedNarrowed(g: Generator, arr: seq<int>, t: int, evs: seq<Event>, k: nat)
    requires k < |evs| && WellOrdered(arr, t, evs, k)
    requires k + 1 < |evs| ==> WellOrdered(arr, t, evs, k + 1)
    ensures Narrowed(g, [InitialStep(arr)] + Render(g, arr, evs), k + 1)
  {
    var r := [InitialStep(arr)] + Render(g, arr, evs);
    assert r[k + 1] == StepOf(g, arr, evs[k], k + 1);
    if evs[k].GoRight? || evs[k].GoLeft? {
      var e := evs[k + 1];
      assert r[k + 2] == StepOf(g, arr, e, k + 2);
      if e.ProbeAt? && g == FromTable {
        if evs[k].GoRight? {
          IntervalHas(evs[k].mid + 1, evs[k].right + 1, e.mid);
        } else {
          IntervalHas(evs[k].left, evs[k].mid, e.mid);
        }
      }
    }
  }

  /** Every probe checks a valid index and is followed by the step its
      comparison calls for, and every halving step announces the window the
      next probe examines. */
  lemma SearchTraceSteps(g: Generator, arr: seq<int>, t: int)
    ensures var r := SearchTrace(g, arr, t);
      forall k :: 0 <= k < |r| ==> Decided(g, arr, t, r, k) && Narrowed(g, r, k)
  {
    var evs := Events(arr, t);
    var r := SearchTrace(g, arr, t);
    EventsFromWellOrdered(arr, t, 0, |arr| - 1);
    forall k | 1 <= k < |r| ensures Decided(g, arr, t, r, k) && Narrowed(g, r, k) {
      if k < |evs| { assert WellOrdered(arr, t, evs, k); }
      RenderedDecided(g, arr, t, evs, k - 1);
      RenderedNarrowed(g, arr, t, evs, k - 1);
    }
  }

  /** The two generators render an event with the same note, and the
      table's halving step highlights every index of the window the
      parser's halving step names as its comparing pair. */
  lemma StepsAgree(arr: seq<int>, e: Event, id: nat)
    ensures var p, q := StepOf(FromParser, arr, e, id), StepOf(FromTable, arr, e, id);
      && q.note == p.note && q.id == p.id && q.data == p.data
      && (p.note == Probe ==> q.highlights == p.highlights)
      && ((p.note == SearchRight || p.note == SearchLeft) ==>
            |p.comparing| == 2 && q.highlights == Interval(p.comparing[0], p.comparing[1] + 1))
  {
  }

  /** The table's trace has the parser's steps, note for note, and probes
      the same indices; where the parser names the new window [lo, hi] of a
      halving step, the table highlights exactly the indices lo, ..., hi.
      With `SearchTraceSteps` on the parser's trace, which gives that window
      as [mid+1, right] or [left, mid-1], the table's halving steps
      highlight `mid+1..right` and `left..mid-1`. */
  lemma TableHalvingHighlights(arr: seq<int>, t: int)
    ensures var p, q := SearchTrace(FromParser, arr, t), SearchTrace(FromTable, arr, t);
      && |q| == |p|
      && forall k :: 0 <= k < |p| ==>
           && q[k].note == p[k].note
           && (p[k].note == Probe ==> q[k].highlights == p[k].highlights)
           && ((p[k].note == SearchRight || p[k].note == SearchLeft) ==>
                 |p[k].comparing| == 2 && q[k].highlights == Interval(p[k].comparing[0], p[k].comparing[1] + 1))
  {
    var evs := Events(arr, t);
    var p, q := SearchTrace(FromParser, arr, t), SearchTrace(FromTable, arr, t);
    forall k | 1 <= k < |p|
      ensures q[k].note == p[k].note
      ensures p[k].note == Probe ==> q[k].highlights == p[k].highlights
      ensures (p[k].note == SearchRight || p[k].note == SearchLeft) ==>
                |p[k].comparing| == 2 && q[k].highlights == Interval(p[k].comparing[0], p[k].comparing[1] + 1)
    {
      assert p[k] == StepOf(FromParser, arr, evs[k - 1], k);
      assert q[k] == StepOf(FromTable, arr, evs[k - 1], k);
      StepsAgree(arr, evs[k - 1], k);
    }
  }

  /** The parser's halving step announces the new window even when it is
      empty, so its comparing pair need not be valid indices: on [5] with
      target 3 the pair is (0, -1). */
  lemma ParserPairOutOfRange()
    ensures SearchTrace(FromParser, [5], 3)[2].comparing == [0, -1]
  {
    assert Mid(0, 0) == 0;
    assert EventsFrom([5], 3, 0, -1) == [Missing];
    assert Events([5], 3) == [ProbeAt(0, 0, 0), GoLeft(0, 0)] + [Missing];
    assert SearchTrace(FromParser, [5], 3)[2] == LeftStep(FromParser, [5], 0, 0, 2);
  }

  //
  // The imperative generators.
  //

  /** Pushing the step of one more event extends the rendered trace. */
  lemma Pushed(g: Generator, arr: seq<int>, evs: seq<Event>, e: Event)
    ensures [InitialStep(arr)] + Render(g, arr, evs) + [StepOf(g, arr, e, |evs| + 1)]
         == [InitialStep(arr)] + Render(g, arr, evs + [e])
  {
    RenderSnoc(g, arr, evs, e);
  }

  /** The loop state of a generator at window [left, right]: `steps` are the
      steps of the events `evs` so far, and the events still to come are
      those of the window. */
  ghost predicate Progress(g: Generator, arr: seq<int>, t: int, evs: seq<Event>, steps: seq<Step>,
                           left: int, right: int)
  {
    && 0 <= left && right < |arr|
    && |steps| == |evs| + 1
    && evs + EventsFrom(arr, t, left, right) == Events(arr, t)
    && steps == [InitialStep(arr)] + Render(g, arr, evs)
  }

  lemma ProgressStart(g: Generator, arr: seq<int>, t: int)
    ensures Progress(g, arr, t, [], [InitialStep(arr)], 0, |arr| - 1)
  {
    assert [InitialStep(arr)] + Render(g, arr, []) == [InitialStep(arr)];
  }

  /** A probe that finds the target completes the trace. */
  lemma RoundFound(g: Generator, arr: seq<int>, t: int, evs: seq<Event>, steps: seq<Step>,
                   left: int, right: int)
    requires Progress(g, arr, t, evs, steps, left, right) && left <= right
    requires arr[Mid(left, right)] == t
    ensures var mid := Mid(left, right);
      steps + [ProbeStep(g, arr, left, right, mid, |steps|)] + [FoundStep(g, arr, mid, |steps| + 1)]
      == SearchTrace(g, arr, t)
  {
    var mid := Mid(left, right);
    var p := ProbeAt(left, right, mid);
    assert EventsFrom(arr, t, left, right) == [p, FoundAt(mid)];
    Pushed(g, arr, evs, p);
    Pushed(g, arr, evs + [p], FoundAt(mid));
    assert evs + [p] + [FoundAt(mid)] == Events(arr, t);
  }

  /** A probe that sends the search right leaves the loop state of the
      right half. */
  lemma RoundRight(g: Generator, arr: seq<int>, t: int, evs: seq<Event>, steps: seq<Step>,
                   left: int, right: int)
    requires Progress(g, arr, t, evs, steps, left, right) && left <= right
    requires arr[Mid(left, right)] < t
    ensures var mid := Mid(left, right);
      Progress(g, arr, t, evs + [ProbeAt(left, right, mid), GoRight(mid, right)],
               steps + [ProbeStep(g, arr, left, right, mid, |steps|)] + [RightStep(g, arr, mid, right, |steps| + 1)],
               mid + 1, right)
  {
    var mid := Mid(left, right);
    var p, h := ProbeAt(left, right, mid), GoRight(mid, right);
    var evs' := evs + [p, h];
    calc {
      evs' + EventsFrom(arr, t, mid + 1, right);
      evs + ([p, h] + EventsFrom(arr, t, mid + 1, right));
      { assert EventsFrom(arr, t, left, right) == [p, h] + EventsFrom(arr, t, mid + 1, right); }
      evs + EventsFrom(arr, t, left, right);
    }
    Pushed(g, arr, evs, p);
    Pushed(g, arr, evs + [p], h);
    assert evs + [p] + [h] == evs';
    assert StepOf(g, arr, p, |evs| + 1) == ProbeStep(g, arr, left, right, mid, |steps|);
    assert StepOf(g, arr, h, |evs| + 2) == RightStep(g, arr, mid, right, |steps| + 1);
  }

  /** A probe that sends the search left leaves the loop state of the left
      half. */
  lemma RoundLeft(g: Generator, arr: seq<int>, t: int, evs: seq<Event>, steps: seq<Step>,
                  left: int, right: int)
    requires Progress(g, arr, t, evs, steps, left, right) && left <= right
    requires arr[Mid(left, right)] > t
    ensures var mid := Mid(left, right);
      Progress(g, arr, t, evs + [ProbeAt(left, right, mid), GoLeft(left, mid)],
               steps + [ProbeStep(g, arr, left, right, mid, |steps|)] + [LeftStep(g, arr, left, mid, |steps| + 1)],
               left, mid - 1)
  {
    var mid := Mid(left, right);
    var p, h := ProbeAt(left, right, mid), GoLeft(left, mid);
    var evs' := evs + [p, h];
    calc {
      evs' + EventsFrom(arr, t, left, mid - 1);
      evs + ([p, h] + EventsFrom(arr, t, left, mid - 1));
      { assert EventsFrom(arr, t, left, right) == [p, h] + EventsFrom(arr, t, left, mid - 1); }
      evs + EventsFrom(arr, t, left, right);
    }
    Pushed(g, arr, evs, p);
    Pushed(g, arr, evs + [p], h);
    assert evs + [p] + [h] == evs';
    assert StepOf(g, arr, p, |evs| + 1) == ProbeStep(g, arr, left, right, mid, |steps|);
    assert StepOf(g, arr, h, |evs| + 2) == LeftStep(g, arr, left, mid, |steps| + 1);
  }

  /** An empty window completes the trace with the not-found step. */
  lemma RoundMissing(g: Generator, arr: seq<int>, t: int, evs: seq<Event>, steps: seq<Step>,
                     left: int, right: int)
    requires Progress(g, arr, t, evs, steps, left, right) && left > right
    ensures steps + [NotFoundStep(arr, |steps|)] == SearchTrace(g, arr, t)
  {
    Pushed(g, arr, evs, Missing);
  }

  /** `generateBinarySearchSteps` of the editor's parser: the loop leaves by
      `break` after a found step, and the not-found step is pushed only when
      the window has become empty. */
  method ParserSearchSteps(arr: seq<int>, target: int) returns (steps: seq<Step>)
    ensures steps == SearchTrace(FromParser, arr, target)
  {
    ghost var evs: seq<Event> := [];
    var left := 0;
    var right := |arr| - 1;
    var stepId := 0;
    steps := [InitialStep(arr)];
    stepId := stepId + 1;
    ProgressStart(FromParser, arr, target);
    ghost var done := false;
    while left <= right
      invariant stepId == |steps|
      invariant !done ==> Progress(FromParser, arr, target, evs, steps, left, right)
      invariant done ==> steps == SearchTrace(FromParser, arr, target)
      decreases right - left
    {
      var mid := (left + right) / 2;
      MidIsFloor(left, right);
      ghost var steps0, left0, right0 := steps, left, right;
      steps := steps + [ProbeStep(FromParser, arr, left, right, mid, stepId)];
      stepId := stepId + 1;
      if arr[mid] == target {
        steps := steps + [FoundStep(FromParser, arr, mid, stepId)];
        stepId := stepId + 1;
        RoundFound(FromParser, arr, target, evs, steps0, left0, right0);
        done := true;
        break;
      } else if arr[mid] < target {
        steps := steps + [RightStep(FromParser, arr, mid, right, stepId)];
        stepId := stepId + 1;
        left := mid + 1;
        RoundRight(FromParser, arr, target, evs, steps0, left0, right0);
        evs := evs + [ProbeAt(left0, right0, mid), GoRight(mid, right0)];
      } else {
        steps := steps + [LeftStep(FromParser, arr, left, mid, stepId)];
        stepId := stepId + 1;
        right := mid - 1;
        RoundLeft(FromParser, arr, target, evs, steps0, left0, right0);
        evs := evs + [ProbeAt(left0, right0, mid), GoLeft(left0, mid)];
      }
    }
    if left > right {
      RoundMissing(FromParser, arr, target, evs, steps, left, right);
      steps := steps + [NotFoundStep(arr, stepId)];
    }
  }

  /** `generateBinarySearchSteps` of the built-in table: the loop returns
      right after a found step, and the not-found step follows the loop. */
  method TableSearchSteps(arr: seq<int>, target: int) returns (steps: seq<Step>)
    ensures steps == SearchTrace(FromTable, arr, target)
  {
    ghost var evs: seq<Event> := [];
    var left := 0;
    var right := |arr| - 1;
    var stepId := 0;
    steps := [InitialStep(arr)];
    stepId := stepId + 1;
    ProgressStart(FromTable, arr, target);
    while left <= right
      invariant stepId == |steps|
      invariant Progress(FromTable, arr, target, evs, steps, left, right)
      decreases right - left
    {
      var mid := (left + right) / 2;
      MidIsFloor(left, right);
      ghost var steps0, left0, right0 := steps, left, right;
      steps := steps + [ProbeStep(FromTable, arr, left, right, mid, stepId)];
      stepId := stepId + 1;
      if arr[mid] == target {
        steps := steps + [FoundStep(FromTable, arr, mid, stepId)];
        RoundFound(FromTable, arr, target, evs, steps0, left0, right0);
        return;
      }
      if arr[mid] < target {
        steps := steps + [RightStep(FromTable, arr, mid, right, stepId)];
        stepId := stepId + 1;
        left := mid + 1;
        RoundRight(FromTable, arr, target, evs, steps0, left0, right0);
        evs := evs + [ProbeAt(left0, right0, mid), GoRight(mid, right0)];
      } else {
        steps := steps + [LeftStep(FromTable, arr, left, mid, stepId)];
        stepId := stepId + 1;
        right := mid - 1;
        RoundLeft(FromTable, arr, target, evs, steps0, left0, right0);
        evs := evs + [ProbeAt(left0, right0, mid), GoLeft(left0, mid)];
      }
    }
    RoundMissing(FromTable, arr, target, evs, steps, left, right);
    steps := steps + [NotFoundStep(arr, stepId)];
  }
}
