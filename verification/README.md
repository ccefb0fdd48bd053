# Valentine interaction flow: a Dafny model

This project models the behaviour of `InteractionFlow`, the component behind
the greeting page. The component runs four steps in a fixed order: a
"love mode" switch, a tic-tac-toe game against a deliberately weak scripted
opponent, a love meter that counts to 100, and a typewriter that types and
then erases "Happy Valentine!!!!". After the last step the page shows its
gallery.

The model is functional. Each component's local state is an immutable
record, and each user click or timer firing is an explicit event handled by
a transition function. Timers are not modelled as time. A pending
`setTimeout` is a value in the state, and firing it is an event.
`Math.random()` is a parameter of the opponent's move: an exact real in
[0, 1).

Modules (one per component):

- `Board` (`board.dfy`): the nine cells, the eight lines and the win check
  `checkWinner`, plus the lists of empty cells the opponent picks from.
- `TicTacToe` (`tictactoe.dfy`): `handleSquareClick`, `makeAIMove` and the
  winner effect of `TicTacToeStep`. The game keeps one timer slot that holds
  the opponent's move, the reset or the completion. The opponent's timer
  keeps the board it was scheduled with, as the source's closure does.
- `LoveMeter` (`love_meter.dfy`): the interval that raises `progress`, and
  the completion timeout.
- `Typewriter` (`typewriter.dfy`): the effect of `TypewriterStep`.
- `Flow` (`flow.dfy`): the `step` state of `InteractionFlow` and the
  `onComplete` callback each step receives.
- `Interaction` (`interaction.dfy`): the composition. Exactly one step is
  mounted, events reach only that step, and a step's completion mounts the
  next step fresh.

Three behaviours of the code that the model follows as written:

- Timers are never cancelled. The timeouts at
  `components/InteractionFlow.tsx` lines 182, 189, 192 and 264 are not
  cleared, and the model does not cancel them either. The game keeps a
  single timer slot. An accepted click schedules only into an empty slot
  (`TicTacToe.NoTimerLost`), and a firing replaces only the timer that fired
  (`TicTacToe.Fire`). When the game completes, the pending timer is the
  completion itself, so nothing is left to fire after the step is gone.
- The completion callbacks at lines 397-406 are `() => setStep(2)`,
  `() => setStep(3)`, `() => setStep(4)` and `() => onFlowComplete()`. The
  first three set a constant and do not increment, so calling one twice
  equals calling it once. The step-4 callback has no guard and calls
  `onFlowComplete` every time. That callback only sets `showGallery` to
  true, so repeated calls change nothing further.
- After the user wins or draws, `isUserTurn` stays `true`. Clicks are
  blocked by the `winner` guard instead. After an opponent win it stays
  `false`.

## Model

| member | source | states |
|---|---|---|
| Board.ScanFrom | Valentine-Days-main/components/InteractionFlow.tsx:140-145 | the scan from line `l` reports the mark of the first complete line at or after `l`; it reports no win iff none of those lines is complete; it reports a draw iff none is complete and the board is full |
| Board.CheckWinner | Valentine-Days-main/components/InteractionFlow.tsx:134-146 | `'draw'` iff no line is complete and no cell is empty; `null` iff no line is complete and some cell is empty |
| Board.CheckWinnerIsFirstLine | Valentine-Days-main/components/InteractionFlow.tsx:135-143 | the check returns mark `m` iff some line is held by `m` and no earlier line (rows, then columns, then diagonals) is complete |
| Board.WinBeforeDraw | Valentine-Days-main/components/InteractionFlow.tsx:140-145 | a board with a complete line is a win even when it is full |
| Board.TopRowExample | Valentine-Days-main/components/InteractionFlow.tsx:134-146 | `[X,X,X,O,O,_,_,_,_]` is won by X |
| Board.FullBoardDrawExample | Valentine-Days-main/components/InteractionFlow.tsx:134-146 | `[X,O,X,O,X,O,O,X,O]` is a draw |
| Board.PlaceCannotWinForOther | Valentine-Days-main/components/InteractionFlow.tsx:173-177 | on a board with no complete line, placing one mark cannot complete a line of the other mark |
| Board.PlaceRaisesOccupied | Valentine-Days-main/components/InteractionFlow.tsx:158-159 | writing a mark into an empty cell raises the occupied count by exactly one |
| Board.EmptyIndices | Valentine-Days-main/components/InteractionFlow.tsx:149 | the list holds exactly the empty cells, in ascending order without repeats; it is empty iff the board is full |
| Board.NonCenterEmpties | Valentine-Days-main/components/InteractionFlow.tsx:153 | the list holds exactly the empty cells other than index 4, in ascending order |
| Board.OnlyCenterLeft | Valentine-Days-main/components/InteractionFlow.tsx:153-156 | no non-center cell is empty on a non-full board iff the center is the only empty cell |
| TicTacToe.Pick | Valentine-Days-main/components/InteractionFlow.tsx:155 | `Math.floor(Math.random() * n)` is a valid position in a list of length `n` |
| TicTacToe.PickReachesEvery | Valentine-Days-main/components/InteractionFlow.tsx:155 | every position of the list is produced by some random value |
| TicTacToe.AITarget | Valentine-Days-main/components/InteractionFlow.tsx:153-156 | the opponent's target is an empty cell, and it is the center only when every other cell is occupied |
| TicTacToe.AITargetChoices | Valentine-Days-main/components/InteractionFlow.tsx:149-156 | the cells some random value selects are exactly the empty cells, with the center excluded while another cell is empty |
| TicTacToe.Click | Valentine-Days-main/components/InteractionFlow.tsx:170-184 | a guarded click changes nothing; otherwise it writes X at the clicked index only, records the board's verdict, and when there is no result it passes the turn and schedules the opponent's move on the new board |
| TicTacToe.ClickGuard | Valentine-Days-main/components/InteractionFlow.tsx:171 | a click leaves the game unchanged iff the cell is taken, a winner is set, or it is not the user's turn |
| TicTacToe.AIMove | Valentine-Days-main/components/InteractionFlow.tsx:148-168 | on a full board nothing happens; otherwise O goes into one empty cell of the captured board, the center only when it is the last empty cell, and the turn returns to the user iff the new board gives no result, while a result is recorded as the winner |
| TicTacToe.WinnerEffect | Valentine-Days-main/components/InteractionFlow.tsx:186-197 | no timer iff there is no result, completion iff the user won, a reset otherwise, and never an opponent's move; what each timer then does is stated by `TicTacToe.RoundEnd` and `TicTacToe.FireInv` |
| TicTacToe.Fire | Valentine-Days-main/components/InteractionFlow.tsx:182-196 | completion is reported iff the completion timer is pending; with no timer nothing changes; the reset yields a fresh game; the timer that fires is consumed and no firing schedules another opponent's move; `TicTacToe.RoundEnd` and `TicTacToe.FireInv` state the rest |
| TicTacToe.InitialInv | Valentine-Days-main/components/InteractionFlow.tsx:129-131 | a fresh game (empty board, user to move, no winner) satisfies the invariant |
| TicTacToe.ClickInv | Valentine-Days-main/components/InteractionFlow.tsx:170-184 | a click keeps the invariant: winner equals the board's verdict, the right timer is pending, and marks alternate starting with X |
| TicTacToe.FireInv | Valentine-Days-main/components/InteractionFlow.tsx:186-197 | firing the pending timer (opponent's move or reset) keeps the invariant |
| TicTacToe.NoTimerLost | Valentine-Days-main/components/InteractionFlow.tsx:182 | an accepted click finds no timer pending, so scheduling never overlaps another timer |
| TicTacToe.AIMoveFindsEmptyCell | Valentine-Days-main/components/InteractionFlow.tsx:150 | in a reachable game the opponent's move never meets a full board |
| TicTacToe.DrawOnlyOnUserMove | Valentine-Days-main/components/InteractionFlow.tsx:145 | a reachable draw has five X and four O and arises on the user's move |
| TicTacToe.ClickNeverOverwrites | Valentine-Days-main/components/InteractionFlow.tsx:171-175 | a guarded click changes nothing; an accepted click never changes an occupied cell and raises the occupied count by exactly one |
| TicTacToe.TimerNeverOverwrites | Valentine-Days-main/components/InteractionFlow.tsx:158-196 | per pending timer: the opponent's move never changes an occupied cell and raises the occupied count by exactly one; the reset leaves an empty board; completion ends the game; with no timer nothing changes |
| TicTacToe.OpponentFillsOneCell | Valentine-Days-main/components/InteractionFlow.tsx:158-160 | the opponent's move on a non-full captured board fills exactly one empty cell and keeps every occupied one |
| TicTacToe.AIMoveHandsBackTurn | Valentine-Days-main/components/InteractionFlow.tsx:162-167 | after the opponent's move the user has the turn iff the board gives no result |
| TicTacToe.RoundEnd | Valentine-Days-main/components/InteractionFlow.tsx:186-197 | once a round has a result, the next timer completes the step on a user win, and otherwise yields an empty board, no winner and the user to move |
| TicTacToe.NoClickAfterResult | Valentine-Days-main/components/InteractionFlow.tsx:171 | while a winner is set every click is ignored |
| TicTacToe.ReachableInv | Valentine-Days-main/components/InteractionFlow.tsx:128-198 | every game reached from a fresh one by clicks and timer firings satisfies the invariant |
| LoveMeter.IntervalTick | Valentine-Days-main/components/InteractionFlow.tsx:260-268 | progress stays within 0..100, never falls, and rises by exactly one below 100; at 100 the interval stops and completion is scheduled; a stopped interval changes nothing |
| LoveMeter.CompleteTimeout | Valentine-Days-main/components/InteractionFlow.tsx:264 | the timeout reports completion iff the interval has been cleared, which under the invariant happens only at 100; otherwise nothing changes; `LoveMeter.StopsAtCap` and `LoveMeter.CountsUp` say when it is armed |
| LoveMeter.CountsUp | Valentine-Days-main/components/InteractionFlow.tsx:257-268 | from 0, `n` firings (for `n` up to 100) show exactly `n`, and completion is not yet scheduled |
| LoveMeter.StopsAtCap | Valentine-Days-main/components/InteractionFlow.tsx:262-266 | from the 101st firing on the meter stays at 100 and its timeout reports completion |
| LoveMeter.TicksInv | Valentine-Days-main/components/InteractionFlow.tsx:260-268 | any number of firings keeps progress within 0..100 |
| Typewriter.Slice | Valentine-Days-main/components/InteractionFlow.tsx:351-356 | `text.slice(0, n)` is a prefix of the text, of length `n` when `n` is within the text, the whole text past its end, and `n` characters short of the end (at least empty) when `n` is negative |
| Typewriter.Scheduled | Valentine-Days-main/components/InteractionFlow.tsx:349-361 | the step finishes iff it is deleting and nothing is shown; it starts deleting iff it is typing and the whole text is shown; it grows only while the text is incomplete and shrinks only while something is shown; `Typewriter.FinishesOnce` says when that is |
| Typewriter.Tick | Valentine-Days-main/components/InteractionFlow.tsx:347-363 | after any firing the shown text is a prefix of "Happy Valentine!!!!"; a firing grows it by one character while typing, shrinks it by one while deleting, and switches to deleting once the text is complete |
| Typewriter.Typing | Valentine-Days-main/components/InteractionFlow.tsx:349-352 | from empty, the first `n` firings show the first `n` characters |
| Typewriter.Deleting | Valentine-Days-main/components/InteractionFlow.tsx:353-358 | the next firing starts deleting, and each later one removes the last character |
| Typewriter.FinishesOnce | Valentine-Days-main/components/InteractionFlow.tsx:359-361 | completion is reached after exactly `2 * 19 + 1` firings and not before |
| Flow.Advance | Valentine-Days-main/components/InteractionFlow.tsx:396-407 | the mounted step's completion moves the flow exactly one position on; after the gallery is shown nothing changes |
| Flow.OnComplete | Valentine-Days-main/components/InteractionFlow.tsx:397-406 | the callback of steps 1 to 3 sets the next step, and only step 4's reports the flow's completion; `Flow.VisitsInOrder` and `Flow.CallbackIdempotent` state what repeated calls do |
| Flow.Apply | Valentine-Days-main/app/page.tsx:31 | once the gallery is shown every callback leaves it shown; while the flow runs, the gallery appears iff the flow's completion is reported, and otherwise the step becomes the one the callback sets |
| Flow.VisitsInOrder | Valentine-Days-main/components/InteractionFlow.tsx:385-407 | from step 1, completions visit steps 2, 3, 4 in order, and the fourth shows the gallery |
| Flow.CallbackIdempotent | Valentine-Days-main/components/InteractionFlow.tsx:397-406 | invoking the same step callback twice is the same as invoking it once |
| Interaction.Mount | Valentine-Days-main/components/InteractionFlow.tsx:395-408 | mounting step `n` puts the flow at step `n` |
| Interaction.Completes | Valentine-Days-main/components/InteractionFlow.tsx:396-407 | a step's completion leaves the composed state exactly where the flow's own advance puts it |
| Interaction.Step | Valentine-Days-main/components/InteractionFlow.tsx:395-408 | an event that the mounted step does not handle changes nothing, and every event either keeps the flow's position or completes the mounted step; `Interaction.StepSpec` adds the invariants |
| Interaction.StepSpec | Valentine-Days-main/components/InteractionFlow.tsx:395-408 | every event keeps each step's invariant and leaves the flow where it is or moves it one step on with the next step freshly mounted |
| Interaction.RunSpec | Valentine-Days-main/components/InteractionFlow.tsx:384-408 | along any sequence of events the invariants hold and the flow never moves back |
| Interaction.ReachableInv | Valentine-Days-main/components/InteractionFlow.tsx:384-408 | every state reached from the first step satisfies the invariants |

## Left out

- Rendering is not modelled: JSX, framer-motion animations, icons, CSS and the `message` texts, which are display only.
- `BackgroundHearts` is not modelled. It is a random decorative layout with no behaviour.
- The love-mode switch (`LoveModeStep`) is not modelled. It is a boolean that arms a 3000 ms timeout. The model keeps only its completion, as the event `LoveModeDone`.
- Timer durations are not modelled. Each timer is an event, and the model assumes nothing about when it fires.
- The distribution of `Math.random()` is not modelled, only the set of cells it can select. The random value is an exact real, so floating-point rounding of `Math.random() * n` is not modelled either.
- The SVG gauge arithmetic (`circumference`, `dashOffset`) is not modelled. It is floating point over `Math.PI` and only affects drawing.
- The page (`app/page.tsx`) is not modelled: the image list, the audio element and `DomeGallery`. Only its reaction to `onFlowComplete`, showing the gallery, appears, as `Flow.GalleryShown`. `DomeGallery` is not part of this model.
- React scheduling details are not modelled (batching, effects running twice in development mode). Each setter call and the effect it triggers form one atomic transition.
