/** The four-step sequencer. Each step's component receives an `onComplete`
    callback fixed when it is mounted: for steps 1 to 3 it sets the step to
    the next one, for step 4 it invokes the flow's own completion callback,
    which makes the page replace the flow with the gallery. */
module Flow {

  type StepNo = n: int | 1 <= n <= 4 witness 1

  /** What a step's completion callback does. */
  datatype Signal = SetStep(step: StepNo) | FlowComplete

  /** The flow as the page sees it: running at some step, or handed off to
      the gallery after the flow's completion callback. */
  datatype FlowState = Running(step: StepNo) | GalleryShown

  const Start: FlowState := Running(1)

  /** What a step's handler reports back to the flow: the step stays mounted
      with new local state, or it calls its `onComplete` callback and is
      replaced. Every step with a completion timer shares this shape. */
  datatype Outcome<S> = Continue(state: S) | Completed

  /** The callback given to the component of step `owner`. */
  function OnComplete(owner: StepNo): (s: Signal)
    ensures s == FlowComplete <==> owner == 4
    ensures s.SetStep? ==> s.step == owner + 1
  {
    if owner < 4 then SetStep(owner + 1) else FlowComplete
  }

  /** Applying a callback's effect: set the step, or show the gallery. Once
      the gallery is shown the flow is gone and callbacks change nothing. */
  function Apply(f: FlowState, s: Signal): (r: FlowState)
    ensures f == GalleryShown ==> r == GalleryShown
    ensures f.Running? ==> (r == GalleryShown <==> s == FlowComplete)
    ensures f.Running? && s.SetStep? ==> r.step == s.step
  {
    match f
    case GalleryShown => GalleryShown
    case Running(_) =>
      match s
      case SetStep(n) => Running(n)
      case FlowComplete => GalleryShown
  }

  /** Position in the sequence: steps 1..4, then 5 for the gallery. */
  function Rank(f: FlowState): nat
  {
    match f
    case Running(n) => n
    case GalleryShown => 5
  }

  /** The step currently shown reports completion. */
  function Advance(f: FlowState): (r: FlowState)
    ensures f.Running? ==> Rank(r) == Rank(f) + 1
    ensures f == GalleryShown ==> r == f
  {
    match f
    case GalleryShown => f
    case Running(n) => Apply(f, OnComplete(n))
  }

  /** The flow after `n` completions. */
  function AdvanceN(f: FlowState, n: nat): FlowState
  {
    if n == 0 then f else Advance(AdvanceN(f, n - 1))
  }

  /** The steps are visited in order 1, 2, 3, 4 and the fourth completion
      shows the gallery; none is skipped and none revisited. */
  lemma {:induction false} VisitsInOrder(n: nat)
    ensures n < 4 ==> AdvanceN(Start, n) == Running(n + 1)
    ensures n >= 4 ==> AdvanceN(Start, n) == GalleryShown
  {
    if n > 0 {
      VisitsInOrder(n - 1);
    }
  }

  /** A callback only ever sets a constant, so invoking the same one twice is
      the same as invoking it once. */
  lemma CallbackIdempotent(f: FlowState, owner: StepNo)
    ensures Apply(Apply(f, OnComplete(owner)), OnComplete(owner)) == Apply(f, OnComplete(owner))
  {
  }
}
