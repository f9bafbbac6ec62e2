/** The fallback trace the editor's parser builds for array code it does
    not recognise (`generateGenericSteps`, src/utils/pythonParser.ts:289-321):
    an initial step, one step per element when the code has a loop, and a
    closing step marking every index. */
module GenericSteps {
  import opened StepModel
  import opened Text

  /** The code has a loop: it mentions `for` or `while` anywhere, even
      inside a word or a comment. */
  predicate HasLoops(code: string) {
    Contains(code, "for") || Contains(code, "while")
  }

  function ProcessStep(arr: seq<int>, index: nat): Step {
    Step(Num(index + 1), Processing, ArrayData(arr), [index], [], [], None)
  }

  function CompletedStep(arr: seq<int>): Step {
    Step(FinalId, Completed, ArrayData(arr), [], [], Range(|arr|), None)
  }

  function Processes(arr: seq<int>, k: nat): (r: seq<Step>)
    requires k <= |arr|
    ensures |r| == k
  {
    seq(k, i requires 0 <= i < k => ProcessStep(arr, i))
  }

  /** The whole trace of `generateGenericSteps(arr, code)`. */
  function GenericTrace(arr: seq<int>, code: string): seq<Step> {
    [Step(Num(0), Initial, ArrayData(arr), [], [], [], None)]
      + (if HasLoops(code) then Processes(arr, |arr|) else [])
      + [CompletedStep(arr)]
  }

  /** `generateGenericSteps`: the `forEach` over the array runs only when
      the code has a loop. */
  method GenericStepsOf(arr: seq<int>, code: string) returns (steps: seq<Step>)
    ensures steps == GenericTrace(arr, code)
  {
    var first := Step(Num(0), Initial, ArrayData(arr), [], [], [], None);
    steps := [first];
    var hasLoops := HasLoops(code);
    if hasLoops {
      var index := 0;
      while index < |arr|
        invariant 0 <= index <= |arr|
        invariant steps == [first] + Processes(arr, index)
      {
        assert Processes(arr, index + 1) == Processes(arr, index) + [ProcessStep(arr, index)];
        steps := steps + [Step(Num(index + 1), Processing, ArrayData(arr), [index], [], [], None)];
        index := index + 1;
      }
    }
    steps := steps + [Step(FinalId, Completed, ArrayData(arr), [], [], Range(|arr|), None)];
  }

  /** Code with a loop gets one step per element, each highlighting that
      element and numbered after it; code without one gets only the first
      and the last step. Every step but the last is numbered by its position,
      and the last one, `step-final`, marks every index as sorted. */
  lemma GenericTraceShape(arr: seq<int>, code: string)
    ensures var r := GenericTrace(arr, code);
      && |r| == (if HasLoops(code) then |arr| else 0) + 2
      && r[0].note == Initial && r[0].id == Num(0)
      && NumberedFrom(r[..|r| - 1], 0)
      && (forall k :: 1 <= k < |r| - 1 ==> r[k].note == Processing && r[k].highlights == [k - 1])
      && Last(r).id == FinalId && Last(r).note == Completed && Last(r).sorted == Range(|arr|)
  {
    var r := GenericTrace(arr, code);
    if HasLoops(code) {
      forall k | 1 <= k < |r| - 1 ensures r[k] == ProcessStep(arr, k - 1) {
        assert r[k] == Processes(arr, |arr|)[k - 1];
      }
    }
  }

  /** The closing step's id differs from every other step's, so the ids of
      a generic trace are pairwise distinct. */
  lemma GenericTraceIdsDistinct(arr: seq<int>, code: string)
    ensures var r := GenericTrace(arr, code);
      forall p, q :: 0 <= p < q < |r| ==> r[p].id != r[q].id
  {
    var r := GenericTrace(arr, code);
    GenericTraceShape(arr, code);
    forall p, q | 0 <= p < q < |r| ensures r[p].id != r[q].id {
      if q < |r| - 1 {
        assert r[..|r| - 1][p] == r[p] && r[..|r| - 1][q] == r[q];
      } else {
        assert r[..|r| - 1][p] == r[p];
      }
    }
  }
}
