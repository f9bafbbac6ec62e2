/** The playback controls (src/components/AnimationControls.tsx): the
    enable guards of the step buttons, the play/pause toggle, the position
    label, the slider's range and the slider's seek loop, which repeatedly
    calls the player's step handlers. */
module Controls {
  import opened StepModel
  import opened Playback

  /** The previous-step button is disabled on the first step. */
  predicate BackDisabled(currentStep: int) {
    currentStep == 0
  }

  /** The next-step button is disabled on the last step. */
  predicate ForwardDisabled(currentStep: int, totalSteps: int) {
    currentStep == totalSteps - 1
  }

  /** What the play/pause button calls. */
  datatype Action = OnPlay | OnPause

  function Toggle(isPlaying: bool): Action {
    if isPlaying then OnPause else OnPlay
  }

  /** The player transition an action performs. */
  function Perform(a: Action, s: PlayerState): PlayerState {
    match a
    case OnPlay => Played(s)
    case OnPause => Paused(s)
  }

  /** `Step {currentStep + 1} / {totalSteps}`: the two numbers shown. */
  datatype Label = Label(position: int, total: int)

  function PositionLabel(currentStep: int, totalSteps: int): Label {
    Label(currentStep + 1, totalSteps)
  }

  /** The slider's `min` and `max`. */
  const SliderMin: int := 0

  function SliderMax(totalSteps: int): int {
    totalSteps - 1
  }

  /** The speeds the selector offers, in milliseconds per step (0.5x, 1x,
      2x, 4x). */
  const SpeedOptions: seq<int> := [2000, 1000, 500, 250]

  //
  // Agreement with the player.
  //

  /** Each step button is disabled exactly when its handler would do
      nothing. */
  lemma GuardsMatchNoOps(s: PlayerState)
    requires Inv(s)
    ensures BackDisabled(s.cursor) <==> Backwarded(s) == s
    ensures ForwardDisabled(s.cursor, |s.algorithm.steps|) <==> Forwarded(s) == s
  {
    BackwardedSpec(s);
    ForwardedSpec(s);
  }

  /** The slider's range is exactly the set of cursors the player allows. */
  lemma SliderMatchesInv(s: PlayerState)
    ensures Inv(s) <==> SliderMin <= s.cursor <= SliderMax(|s.algorithm.steps|)
  {
  }

  /** The toggle flips the flag and touches nothing else. */
  lemma ToggleFlips(s: PlayerState)
    ensures var t := Perform(Toggle(s.playing), s);
      t.playing == !s.playing && t == s.(playing := !s.playing)
  {
  }

  /** The label counts from 1: it shows 1 on the first step and the total
      on the last, and the position never exceeds the total. */
  lemma LabelOneBased(s: PlayerState)
    requires Inv(s)
    ensures var l := PositionLabel(s.cursor, |s.algorithm.steps|);
      && 1 <= l.position <= l.total
      && (l.position == 1 <==> s.cursor == 0)
      && (l.position == l.total <==> s.cursor == s.LastIndex())
  {
  }

  /** The speed the player starts with is one of the selector's options. */
  lemma InitialSpeedOffered()
    ensures InitialSpeed in SpeedOptions
  {
  }

  //
  // Seeking.
  //

  /** The slider's `onChange` with the new position `step`: it calls the
      forward handler `step - currentStep` times when `step` is larger,
      and otherwise the backward handler `currentStep - step` times. The
      handlers here read the live cursor; see README on React's captured
      value. */
  method Seek(p: Player, step: int) returns (forwards: nat, backwards: nat)
    requires p.Valid()
    modifies p
    ensures p.Valid()
    ensures step > old(p.cursor) ==> forwards == step - old(p.cursor) && backwards == 0
    ensures step <= old(p.cursor) ==> backwards == old(p.cursor) - step && forwards == 0
    ensures p.State() == BackwardedTimes(ForwardedTimes(old(p.State()), forwards), backwards)
  {
    var currentStep := p.cursor;
    ghost var s0 := p.State();
    forwards, backwards := 0, 0;
    if step > currentStep {
      var i := currentStep;
      while i < step
        invariant currentStep <= i <= step
        invariant forwards == i - currentStep && backwards == 0
        invariant p.Valid()
        invariant p.State() == ForwardedTimes(s0, forwards)
      {
        ForwardedTimesSnoc(s0, forwards);
        p.StepForward();
        forwards := forwards + 1;
        i := i + 1;
      }
    } else {
      var i := currentStep;
      while i > step
        invariant step <= i <= currentStep
        invariant backwards == currentStep - i && forwards == 0
        invariant p.Valid()
        invariant p.State() == BackwardedTimes(s0, backwards)
      {
        BackwardedTimesSnoc(s0, backwards);
        p.StepBackward();
        backwards := backwards + 1;
        i := i - 1;
      }
    }
  }

  /** Where a seek leaves the cursor: at the requested position when it is
      on the slider, else at the nearer end; nothing else changes. */
  lemma SeekLands(s: PlayerState, step: int)
    requires Inv(s)
    ensures var forwards := if step > s.cursor then step - s.cursor else 0;
      var backwards := if step > s.cursor then 0 else s.cursor - step;
      BackwardedTimes(ForwardedTimes(s, forwards), backwards)
        == s.(cursor := if step < 0 then 0 else if step > s.LastIndex() then s.LastIndex() else step)
  {
    if step > s.cursor {
      SeekForwardLands(s, step);
    } else {
      SeekBackwardLands(s, step);
    }
  }

  lemma SeekForwardLands(s: PlayerState, step: int)
    requires Inv(s) && step > s.cursor
    ensures BackwardedTimes(ForwardedTimes(s, step - s.cursor), 0)
      == s.(cursor := if step > s.LastIndex() then s.LastIndex() else step)
  {
    ForwardedTimesClamps(s, step - s.cursor);
  }

  lemma SeekBackwardLands(s: PlayerState, step: int)
    requires Inv(s) && step <= s.cursor
    ensures BackwardedTimes(ForwardedTimes(s, 0), s.cursor - step) == s.(cursor := if step < 0 then 0 else step)
  {
    assert ForwardedTimes(s, 0) == s;
    BackwardedTimesClamps(s, s.cursor - step);
  }
}
