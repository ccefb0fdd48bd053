/** The whole interaction: exactly one step is mounted at a time, with its own
    local state; events reach only the mounted step, and a step's completion
    mounts the next step afresh (or shows the gallery after step 4). */
module Interaction {
  import opened Board
  import TicTacToe
  import LoveMeter
  import Typewriter
  import Flow

  /** The mounted step with its local state, or the gallery. */
  datatype Stage =
    | LoveMode
    | Game(game: TicTacToe.Game)
    | Meter(meter: LoveMeter.Meter)
    | Typing(typer: Typewriter.Typewriter)
    | Gallery

  /** Everything that can happen: a user action or a timer firing. */
  datatype Event =
    | LoveModeDone                           // step 1's timeout after the switch is turned on
    | Square(i: Index)                       // a click on a board square
    | GameTimer(rand: TicTacToe.Random)      // the game's pending timeout
    | MeterInterval                          // the meter's interval
    | MeterTimeout                           // the meter's completion timeout
    | TypeTimer                              // the typewriter's pending timeout

  /** A freshly mounted component for step `n`. */
  function Mount(n: Flow.StepNo): (s: Stage)
    ensures Position(s) == Flow.Running(n)
  {
    match n
    case 1 => LoveMode
    case 2 => Game(TicTacToe.Initial)
    case 3 => Meter(LoveMeter.Initial)
    case 4 => Typing(Typewriter.Initial)
  }

  /** Where the flow stands. */
  function Position(s: Stage): Flow.FlowState
  {
    match s
    case LoveMode => Flow.Running(1)
    case Game(_) => Flow.Running(2)
    case Meter(_) => Flow.Running(3)
    case Typing(_) => Flow.Running(4)
    case Gallery => Flow.GalleryShown
  }

  /** The mounted step calls its completion callback. */
  function Completes(s: Stage): (r: Stage)
    ensures Position(r) == Flow.Advance(Position(s))
  {
    match Flow.Advance(Position(s))
    case Running(n) => Mount(n)
    case GalleryShown => Gallery
  }

  /** The event belongs to the step that is mounted in `s`. */
  predicate Handles(s: Stage, e: Event)
  {
    match e
    case LoveModeDone => s.LoveMode?
    case Square(_) => s.Game?
    case GameTimer(_) => s.Game?
    case MeterInterval => s.Meter?
    case MeterTimeout => s.Meter?
    case TypeTimer => s.Typing?
  }

  /** One event. Events for a step that is not mounted find no handler and
      no timer, and change nothing; an event the mounted step handles either
      keeps that step mounted or completes it. */
  function Step(s: Stage, e: Event): (r: Stage)
    ensures !Handles(s, e) ==> r == s
    ensures Position(r) == Position(s) || r == Completes(s)
  {
    match (s, e)
    case (LoveMode, LoveModeDone) => Completes(s)
    case (Game(g), Square(i)) => Game(TicTacToe.Click(g, i))
    case (Game(g), GameTimer(rand)) =>
      (match TicTacToe.Fire(g, rand)
       case Completed => Completes(s)
       case Continue(g') => Game(g'))
    case (Meter(m), MeterInterval) => Meter(LoveMeter.IntervalTick(m))
    case (Meter(m), MeterTimeout) =>
      (match LoveMeter.CompleteTimeout(m)
       case Completed => Completes(s)
       case Continue(m') => Meter(m'))
    case (Typing(t), TypeTimer) =>
      var t' := Typewriter.Tick(t);
      if Typewriter.Scheduled(t') == Typewriter.Finish then Completes(s) else Typing(t')
    case _ => s
  }

  /** Each mounted step's own invariant; a mounted typewriter still has work
      scheduled (its finishing state completes the step at once). */
  predicate Inv(s: Stage)
  {
    match s
    case Game(g) => TicTacToe.Inv(g)
    case Meter(m) => LoveMeter.Inv(m)
    case Typing(t) => Typewriter.Inv(t) && Typewriter.Scheduled(t) != Typewriter.Finish
    case _ => true
  }

  lemma MountInv(n: Flow.StepNo)
    ensures Inv(Mount(n))
  {
    TicTacToe.InitialInv();
  }

  /** Every event keeps the invariant, and either leaves the flow at the same
      step or moves it one step on with the next step freshly mounted. */
  lemma StepSpec(s: Stage, e: Event)
    requires Inv(s)
    ensures Inv(Step(s, e))
    ensures var r := Step(s, e);
      || Position(r) == Position(s)
      || (Position(r) == Flow.Advance(Position(s)) && r == Completes(s))
  {
    match (s, e)
    case (Game(g), Square(i)) => TicTacToe.ClickInv(g, i);
    case (Game(g), GameTimer(rand)) =>
      TicTacToe.FireInv(g, rand);
      MountInv(3);
    case (Meter(m), MeterTimeout) => MountInv(4);
    case (LoveMode, LoveModeDone) => MountInv(2);
    case _ =>
  }

  /** The stage after a sequence of events. */
  function Run(s: Stage, events: seq<Event>): Stage
    decreases |events|
  {
    if |events| == 0 then s else Run(Step(s, events[0]), events[1..])
  }

  /** Along any run from the start the invariant holds and the flow never
      moves backwards. */
  lemma {:induction false} RunSpec(s: Stage, events: seq<Event>)
    requires Inv(s)
    ensures Inv(Run(s, events))
    ensures Flow.Rank(Position(Run(s, events))) >= Flow.Rank(Position(s))
    decreases |events|
  {
    if |events| > 0 {
      StepSpec(s, events[0]);
      RunSpec(Step(s, events[0]), events[1..]);
    }
  }

  lemma ReachableInv(events: seq<Event>)
    ensures Inv(Run(LoveMode, events))
  {
    RunSpec(LoveMode, events);
  }
}
