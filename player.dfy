/** The playback state of the visualiser (src/App.tsx:12-61): the selected
    algorithm, a cursor into its steps, whether playback runs, and the
    interval between automatic advances. The handlers are stated once as
    transitions of a state value, and the class `Player` performs them on
    its fields. */
module Playback {
  import opened StepModel

  /** The speed the player starts with, in milliseconds per step. */
  const InitialSpeed: int := 1000

  datatype PlayerState = PlayerState(algorithm: Algorithm, cursor: int, playing: bool, speed: int)
  {
    /** The index of the last step. */
    function LastIndex(): int {
      |algorithm.steps| - 1
    }
  }

  /** The cursor names a step: `steps[currentStepIndex]` is defined. */
  ghost predicate Inv(s: PlayerState) {
    0 <= s.cursor < |s.algorithm.steps|
  }

  //
  // The transitions.
  //

  /** `handleStepForward`. */
  function Forwarded(s: PlayerState): PlayerState {
    if s.cursor < s.LastIndex() then s.(cursor := s.cursor + 1) else s
  }

  /** `handleStepBackward`. */
  function Backwarded(s: PlayerState): PlayerState {
    if s.cursor > 0 then s.(cursor := s.cursor - 1) else s
  }

  /** `handleReset`. */
  function Rewound(s: PlayerState): PlayerState {
    s.(cursor := 0, playing := false)
  }

  /** `handleAlgorithmChange(a)`. */
  function Changed(s: PlayerState, a: Algorithm): PlayerState {
    s.(algorithm := a, cursor := 0, playing := false)
  }

  /** `onPlay` and `onPause`. */
  function Played(s: PlayerState): PlayerState {
    s.(playing := true)
  }

  function Paused(s: PlayerState): PlayerState {
    s.(playing := false)
  }

  /** `onSpeedChange`. */
  function SpeedSet(s: PlayerState, speed: int): PlayerState {
    s.(speed := speed)
  }

  /** The effect sets an interval only while playing below the last step. */
  predicate Armed(s: PlayerState) {
    s.playing && s.cursor < s.LastIndex()
  }

  /** The interval callback: at or past the last step it stops playback
      and keeps the cursor, otherwise it advances the cursor. */
  function Ticked(s: PlayerState): PlayerState {
    if s.cursor >= s.LastIndex() then s.(playing := false) else s.(cursor := s.cursor + 1)
  }

  /** The state after `n` timer ticks. */
  function TickedTimes(s: PlayerState, n: nat): PlayerState
    decreases n
  {
    if n == 0 then s else TickedTimes(Ticked(s), n - 1)
  }

  /** The state after `n` calls of `handleStepForward` or of
      `handleStepBackward`. */
  function ForwardedTimes(s: PlayerState, n: nat): PlayerState
    decreases n
  {
    if n == 0 then s else ForwardedTimes(Forwarded(s), n - 1)
  }

  function BackwardedTimes(s: PlayerState, n: nat): PlayerState
    decreases n
  {
    if n == 0 then s else BackwardedTimes(Backwarded(s), n - 1)
  }

  //
  // Properties of the transitions.
  //

  /** Every handler keeps the cursor on a step; a new algorithm must have
      at least one step. */
  lemma InvPreserved(s: PlayerState, a: Algorithm, speed: int)
    requires Inv(s)
    ensures Inv(Forwarded(s)) && Inv(Backwarded(s)) && Inv(Rewound(s))
    ensures Inv(Played(s)) && Inv(Paused(s)) && Inv(SpeedSet(s, speed)) && Inv(Ticked(s))
    ensures |a.steps| > 0 ==> Inv(Changed(s, a))
  {
  }

  /** Stepping forward adds one to the cursor unless it is on the last step,
      where it does nothing; nothing but the cursor changes. */
  lemma ForwardedSpec(s: PlayerState)
    requires Inv(s)
    ensures Forwarded(s) == s <==> s.cursor == s.LastIndex()
    ensures s.cursor < s.LastIndex() ==> Forwarded(s) == s.(cursor := s.cursor + 1)
  {
  }

  /** Stepping backward subtracts one unless the cursor is on the first
      step, where it does nothing. */
  lemma BackwardedSpec(s: PlayerState)
    requires Inv(s)
    ensures Backwarded(s) == s <==> s.cursor == 0
    ensures s.cursor > 0 ==> Backwarded(s) == s.(cursor := s.cursor - 1)
  {
  }

  /** A step back undoes a step forward that moved, and the other way
      round. */
  lemma StepsInverse(s: PlayerState)
    requires Inv(s)
    ensures s.cursor < s.LastIndex() ==> Backwarded(Forwarded(s)) == s
    ensures s.cursor > 0 ==> Forwarded(Backwarded(s)) == s
  {
  }

  /** Reset and a change of algorithm rewind to the first step and stop
      playback whatever the state before; a reset keeps the algorithm and
      a change keeps the speed. Both are idempotent. */
  lemma RewindsSpec(s: PlayerState, a: Algorithm)
    ensures var r := Rewound(s);
      r.cursor == 0 && !r.playing && r.algorithm == s.algorithm && r.speed == s.speed
      && Rewound(r) == r
    ensures var c := Changed(s, a);
      c.cursor == 0 && !c.playing && c.algorithm == a && c.speed == s.speed
      && Changed(c, a) == c
  {
  }

  /** Play and pause change only the flag. */
  lemma PlayPauseOnlyFlag(s: PlayerState)
    ensures Played(s).playing && Played(s) == s.(playing := true)
    ensures !Paused(s).playing && Paused(s) == s.(playing := false)
    ensures Paused(Played(s)) == Paused(s) && Played(Paused(s)) == Played(s)
  {
  }

  /** While the timer is armed, a tick is a step forward; a tick on the last
      step stops playback and leaves the cursor where it is. */
  lemma TickSpec(s: PlayerState)
    requires Inv(s)
    ensures Armed(s) ==> Ticked(s) == Forwarded(s) && Ticked(s).playing
    ensures s.cursor == s.LastIndex() ==> Ticked(s) == s.(playing := false)
  {
  }

  /** From an armed state, ticking as many times as there are steps left
      brings the cursor to the last step with playback still on, and the
      timer is then no longer armed. No later tick fires, so the flag stays
      set: the tick that would clear it runs only if the timer is armed. */
  lemma {:induction false} PlaybackReachesEnd(s: PlayerState)
    requires Inv(s) && s.playing
    ensures var e := TickedTimes(s, s.LastIndex() - s.cursor);
      && e.cursor == s.LastIndex()
      && e.playing
      && e.algorithm == s.algorithm && e.speed == s.speed
      && !Armed(e)
    decreases s.LastIndex() - s.cursor
  {
    if s.cursor < s.LastIndex() {
      var t := Ticked(s);
      assert t == s.(cursor := s.cursor + 1);
      PlaybackReachesEnd(t);
      assert TickedTimes(s, s.LastIndex() - s.cursor) == TickedTimes(t, t.LastIndex() - t.cursor);
    }
  }

  /** `n` steps forward move the cursor by n, stopping at the last step. */
  lemma {:induction false} ForwardedTimesClamps(s: PlayerState, n: nat)
    requires Inv(s)
    ensures ForwardedTimes(s, n) == s.(cursor := if s.cursor + n < s.LastIndex() then s.cursor + n else s.LastIndex())
    decreases n
  {
    if n > 0 {
      ForwardedTimesClamps(Forwarded(s), n - 1);
    }
  }

  /** `n` steps backward move the cursor by n, stopping at the first step. */
  lemma {:induction false} BackwardedTimesClamps(s: PlayerState, n: nat)
    requires Inv(s)
    ensures BackwardedTimes(s, n) == s.(cursor := if s.cursor - n > 0 then s.cursor - n else 0)
    decreases n
  {
    if n > 0 {
      BackwardedTimesClamps(Backwarded(s), n - 1);
    }
  }

  lemma {:induction false} ForwardedTimesSnoc(s: PlayerState, n: nat)
    ensures ForwardedTimes(s, n + 1) == Forwarded(ForwardedTimes(s, n))
    decreases n
  {
    if n > 0 {
      ForwardedTimesSnoc(Forwarded(s), n - 1);
    }
  }

  lemma {:induction false} BackwardedTimesSnoc(s: PlayerState, n: nat)
    ensures BackwardedTimes(s, n + 1) == Backwarded(BackwardedTimes(s, n))
    decreases n
  {
    if n > 0 {
      BackwardedTimesSnoc(Backwarded(s), n - 1);
    }
  }

  //
  // The component's state.
  //

  /** The state hooks of `App`, updated by its handlers. */
  class Player {
    var algorithm: Algorithm
    var cursor: int
    var playing: bool
    var speed: int

    ghost function State(): PlayerState
      reads this
    {
      PlayerState(algorithm, cursor, playing, speed)
    }

    ghost predicate Valid()
      reads this
    {
      Inv(State())
    }

    /** The initial state: the given algorithm (the first entry of the
        table), its first step, paused, one step per second. */
    constructor(initial: Algorithm)
      requires |initial.steps| > 0
      ensures State() == PlayerState(initial, 0, false, InitialSpeed)
      ensures Valid()
      ensures CurrentStep() == initial.steps[0]
    {
      algorithm := initial;
      cursor := 0;
      playing := false;
      speed := InitialSpeed;
    }

    /** `currentStep`: the step the visualiser and the description show,
        always one of the selected algorithm's steps. */
    function CurrentStep(): (s: Step)
      reads this
      requires Valid()
      ensures s in algorithm.steps
      ensures s == algorithm.steps[cursor]
    {
      algorithm.steps[cursor]
    }

    method ChangeAlgorithm(a: Algorithm)
      requires |a.steps| > 0
      modifies this
      ensures State() == Changed(old(State()), a)
      ensures Valid()
      ensures CurrentStep() == a.steps[0]
    {
      algorithm := a;
      cursor := 0;
      playing := false;
    }

    method Reset()
      requires Valid()
      modifies this
      ensures State() == Rewound(old(State()))
      ensures Valid()
      ensures CurrentStep() == algorithm.steps[0]
    {
      cursor := 0;
      playing := false;
    }

    method StepForward()
      requires Valid()
      modifies this
      ensures State() == Forwarded(old(State()))
      ensures Valid()
    {
      if cursor < |algorithm.steps| - 1 {
        cursor := cursor + 1;
      }
    }

    method StepBackward()
      requires Valid()
      modifies this
      ensures State() == Backwarded(old(State()))
      ensures Valid()
    {
      if cursor > 0 {
        cursor := cursor - 1;
      }
    }

    method Play()
      requires Valid()
      modifies this
      ensures State() == Played(old(State()))
      ensures Valid()
    {
      playing := true;
    }

    method Pause()
      requires Valid()
      modifies this
      ensures State() == Paused(old(State()))
      ensures Valid()
    {
      playing := false;
    }

    method SetSpeed(v: int)
      requires Valid()
      modifies this
      ensures State() == SpeedSet(old(State()), v)
      ensures Valid()
    {
      speed := v;
    }

    /** One run of the interval callback. */
    method Tick()
      requires Valid()
      modifies this
      ensures State() == Ticked(old(State()))
      ensures Valid()
    {
      if cursor >= |algorithm.steps| - 1 {
        playing := false;
      } else {
        cursor := cursor + 1;
      }
    }
  }
}
