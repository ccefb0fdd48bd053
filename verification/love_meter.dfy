/** The love-meter step: a counter driven by an interval, capped at 100, after
    which the interval stops and a timeout reports completion. */
module LoveMeter {
  import opened Flow

  const Max: int := 100

  /** `Counting` while the interval runs; `CompletePending` once it has been
      cleared and the completion timeout is scheduled. */
  datatype Phase = Counting | CompletePending

  datatype Meter = Meter(progress: int, phase: Phase)

  const Initial: Meter := Meter(0, Counting)

  /** Progress within 0..100, and the interval stops only at 100. */
  predicate Inv(m: Meter)
  {
    0 <= m.progress <= Max && (m.phase == CompletePending ==> m.progress == Max)
  }

  /** One firing of the interval. Below the cap the progress rises by one; at
      the cap the interval is cleared and the completion timeout scheduled.
      Once cleared, the interval no longer fires. */
  function IntervalTick(m: Meter): (r: Meter)
    ensures Inv(m) ==> Inv(r)
    ensures Inv(m) ==> r.progress >= m.progress
    ensures m.phase == Counting && 0 <= m.progress < Max ==> r.progress == m.progress + 1 && r.phase == Counting
    ensures m.phase == Counting && m.progress >= Max ==> r.progress == Max && r.phase == CompletePending
    ensures m.phase == CompletePending ==> r == m
  {
    match m.phase
    case CompletePending => m
    case Counting =>
      if m.progress >= Max then Meter(Max, CompletePending)
      else Meter(m.progress + 1, Counting)
  }

  /** Result of the completion timeout: no timeout is pending, or the step
      reports completion. */
  type MeterStep = Outcome<Meter>

  /** The completion timeout fires. It exists only once the interval has been
      cleared at 100; otherwise nothing is pending and nothing changes. */
  function CompleteTimeout(m: Meter): (r: MeterStep)
    ensures r == Completed <==> m.phase == CompletePending
    ensures Inv(m) && r == Completed ==> m.progress == Max
    ensures r.Continue? ==> r.state == m
  {
    match m.phase
    case CompletePending => Completed
    case Counting => Continue(m)
  }

  /** The meter after `n` interval firings. */
  function Ticks(m: Meter, n: nat): Meter
  {
    if n == 0 then m else IntervalTick(Ticks(m, n - 1))
  }

  /** From a fresh meter, `n` firings show `n` percent while `n <= 100`, and
      the completion timeout is not yet armed. */
  lemma {:induction false} CountsUp(n: nat)
    requires n <= Max
    ensures Ticks(Initial, n) == Meter(n, Counting)
    ensures CompleteTimeout(Ticks(Initial, n)).Continue?
  {
    if n > 0 {
      CountsUp(n - 1);
    }
  }

  /** The 101st firing clears the interval at 100 and arms the completion
      timeout; later firings change nothing. */
  lemma {:induction false} StopsAtCap(n: nat)
    requires n > Max
    ensures Ticks(Initial, n) == Meter(Max, CompletePending)
    ensures CompleteTimeout(Ticks(Initial, n)) == Completed
  {
    if n == Max + 1 {
      CountsUp(Max);
    } else {
      StopsAtCap(n - 1);
    }
  }

  /** Every state the interval reaches keeps the invariant. */
  lemma {:induction false} TicksInv(m: Meter, n: nat)
    requires Inv(m)
    ensures Inv(Ticks(m, n))
  {
    if n > 0 {
      TicksInv(m, n - 1);
    }
  }
}
