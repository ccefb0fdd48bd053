/** The typewriter step: a prefix of a fixed message grows one character per
    timer, pauses, shrinks back one character per timer, and at the empty
    string the step completes. */
module Typewriter {

  const Text: string := "Happy Valentine!!!!"

  datatype Typewriter = Typewriter(shown: string, deleting: bool)

  const Initial: Typewriter := Typewriter("", false)

  /** `s.slice(0, end)`: a negative `end` counts from the back, and the result
      is clamped to the string. */
  function Slice(s: string, end: int): (r: string)
    ensures r <= s
    ensures 0 <= end <= |s| ==> |r| == end
    ensures end > |s| ==> r == s
    ensures end < 0 ==> |r| == (if |s| + end < 0 then 0 else |s| + end)
  {
    if end < 0 then (if |s| + end < 0 then [] else s[..|s| + end])
    else if end > |s| then s
    else s[..end]
  }

  /** What the effect arranges in state `t`. */
  datatype Action =
    | Grow           // a timer that shows one more character
    | StartDeleting  // a timer that turns to deleting
    | Shrink         // a timer that shows one character fewer
    | Finish         // no timer: completion is reported at once

  function Scheduled(t: Typewriter): (a: Action)
    ensures a == Finish <==> t.deleting && t.shown == ""
    ensures a == StartDeleting <==> !t.deleting && t.shown == Text
    ensures Inv(t) && a == Grow ==> |t.shown| < |Text|
    ensures a == Shrink ==> |t.shown| > 0
  {
    if !t.deleting && t.shown != Text then Grow
    else if !t.deleting && t.shown == Text then StartDeleting
    else if t.deleting && t.shown != "" then Shrink
    else Finish
  }

  /** The shown text is always a prefix of the message. */
  predicate Inv(t: Typewriter)
  {
    t.shown <= Text
  }

  /** The timer scheduled in state `t` fires. In the `Finish` state there is
      no timer, so nothing changes. */
  function Tick(t: Typewriter): (r: Typewriter)
    ensures Inv(r)
    ensures Inv(t) && Scheduled(t) == Grow ==> |r.shown| == |t.shown| + 1 && !r.deleting
    ensures Inv(t) && Scheduled(t) == Shrink ==> |r.shown| == |t.shown| - 1 && r.deleting
    ensures Scheduled(t) == StartDeleting ==> r.shown == t.shown && r.deleting
    ensures Scheduled(t) == Finish ==> r == t
  {
    match Scheduled(t)
    case Grow => Typewriter(Slice(Text, |t.shown| + 1), t.deleting)
    case StartDeleting => t.(deleting := true)
    case Shrink => Typewriter(Slice(Text, |t.shown| - 1), t.deleting)
    case Finish => t
  }

  /** The typewriter after `n` timers from `t`. */
  function Ticks(t: Typewriter, n: nat): Typewriter
  {
    if n == 0 then t else Tick(Ticks(t, n - 1))
  }

  /** The first `|Text|` timers type the message one character at a time. */
  lemma {:induction false} Typing(n: nat)
    requires n <= |Text|
    ensures Ticks(Initial, n) == Typewriter(Text[..n], false)
  {
    if n > 0 {
      Typing(n - 1);
    }
  }

  /** The next timer starts deleting, and each following one removes one
      character. */
  lemma {:induction false} Deleting(n: nat)
    requires n <= |Text|
    ensures Ticks(Initial, |Text| + 1 + n) == Typewriter(Text[..|Text| - n], true)
  {
    if n == 0 {
      Typing(|Text|);
      assert Text[..|Text|] == Text;
    } else {
      Deleting(n - 1);
    }
  }

  /** Completion is reported after exactly `2 * |Text| + 1` timers, and not
      before. */
  lemma FinishesOnce(n: nat)
    ensures Scheduled(Ticks(Initial, n)) == Finish <==> n >= 2 * |Text| + 1
  {
    if n <= |Text| {
      Typing(n);
    } else if n <= 2 * |Text| + 1 {
      Deleting(n - |Text| - 1);
    } else {
      FinishStays(n);
    }
  }

  lemma {:induction false} FinishStays(n: nat)
    requires n >= 2 * |Text| + 1
    ensures Ticks(Initial, n) == Typewriter("", true)
  {
    if n == 2 * |Text| + 1 {
      Deleting(|Text|);
    } else {
      FinishStays(n - 1);
    }
  }
}
