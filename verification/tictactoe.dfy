/** The tic-tac-toe step: the user's click, the opponent's delayed move and
    the end-of-round handling, as transitions over an immutable game record.
    Every `setTimeout` becomes a timer slot in the state and an explicit
    event that fires it. */
module TicTacToe {
  import opened Board
  import opened Flow

  /** A value of `Math.random()`: a number in [0, 1). */
  type Random = r: real | 0.0 <= r < 1.0

  /** `Math.floor(rand * n)`: a position in a list of length `n`. */
  function Pick(n: nat, rand: Random): (k: nat)
    requires n > 0
    ensures k < n
  {
    var x := rand * n as real;
    assert x < n as real by {
      assert rand * n as real < 1.0 * n as real;
    }
    x.Floor
  }

  /** Every position of a list of length `n` is drawn by some random value. */
  lemma PickReachesEvery(n: nat, k: nat) returns (rand: Random)
    requires k < n
    ensures Pick(n, rand) == k
  {
    var x := k as real / n as real;
    assert x * n as real == k as real;
    assert x < 1.0 by {
      assert x * n as real < 1.0 * n as real;
    }
    rand := x;
  }

  /** The opponent's target on board `b`: a random non-center empty cell, or
      the center when it is the only empty cell. */
  function AITarget(b: Board, rand: Random): (t: Index)
    requires !Full(b)
    ensures b[t] == Empty
    ensures t == Center ==> forall j :: 0 <= j < 9 && j != Center ==> b[j].Filled?
  {
    var candidates := NonCenterEmpties(b);
    if |candidates| > 0 then
      assert candidates[Pick(|candidates|, rand)] in candidates;
      candidates[Pick(|candidates|, rand)]
    else
      OnlyCenterLeft(b);
      Center
  }

  /** Every allowed cell is chosen by some random value. */
  lemma AITargetReaches(b: Board, t: Index) returns (rand: Random)
    requires b[t] == Empty
    requires t == Center ==> forall j :: 0 <= j < 9 && j != Center ==> b[j].Filled?
    ensures !Full(b) && AITarget(b, rand) == t
  {
    var candidates := NonCenterEmpties(b);
    if t == Center {
      OnlyCenterLeft(b);
      rand := 0.0;
    } else {
      assert t in candidates;
      var k :| 0 <= k < |candidates| && candidates[k] == t;
      rand := PickReachesEvery(|candidates|, k);
    }
  }

  /** The cells the opponent can choose are exactly the empty ones, minus the
      center while any other cell is empty. */
  lemma AITargetChoices(b: Board, t: Index)
    requires !Full(b)
    ensures (exists rand: Random :: AITarget(b, rand) == t) <==>
            b[t] == Empty && (t == Center ==> forall j :: 0 <= j < 9 && j != Center ==> b[j].Filled?)
  {
    if b[t] == Empty && (t == Center ==> forall j :: 0 <= j < 9 && j != Center ==> b[j].Filled?) {
      var rand := AITargetReaches(b, t);
    }
  }

  /** The delayed work a game can have outstanding. */
  datatype Timer =
    | Idle
      /** The opponent's move, closed over the board it was scheduled with. */
    | AIMoveDue(snapshot: Board)
      /** Clearing the board after an opponent win or a draw. */
    | ResetDue
      /** Handing control back to the flow after a user win. */
    | CompleteDue

  datatype Game = Game(board: Board, userTurn: bool, winner: Verdict, timer: Timer)

  /** A freshly mounted game: empty board, user to move. */
  const Initial: Game := Game(EmptyBoard, true, Open, Idle)

  /** The winner effect, run when `winner` changes: a user win schedules
      completion, an opponent win or a draw schedules a reset. */
  function WinnerEffect(v: Verdict): (t: Timer)
    ensures t == Idle <==> v == Open
    ensures t == CompleteDue <==> v == Win(X)
    ensures !t.AIMoveDue?
  {
    match v
    case Win(X) => CompleteDue
    case Win(O) => ResetDue
    case Draw => ResetDue
    case Open => Idle
  }

  /** The click guard: the cell is taken, the round is over or it is the
      opponent's turn. */
  predicate ClickIgnored(g: Game, i: Index)
  {
    g.board[i] != Empty || g.winner != Open || !g.userTurn
  }

  /** The user clicks square `i`. */
  function Click(g: Game, i: Index): (r: Game)
    ensures ClickIgnored(g, i) ==> r == g
    ensures !ClickIgnored(g, i) ==>
      && r.board[i] == Filled(X)
      && (forall j :: 0 <= j < 9 && j != i ==> r.board[j] == g.board[j])
      && r.winner == CheckWinner(r.board)
      && (r.winner == Open <==> !r.userTurn)
      && (r.winner == Open ==> r.timer == AIMoveDue(r.board))
  {
    if ClickIgnored(g, i) then g
    else
      var next := g.board[i := Filled(X)];
      var v := CheckWinner(next);
      if v != Open then Game(next, g.userTurn, v, WinnerEffect(v))
      else Game(next, false, g.winner, AIMoveDue(next))
  }

  /** The opponent's move, run on the board captured when it was scheduled.
      On a full board nothing happens. */
  function AIMove(g: Game, snapshot: Board, rand: Random): (r: Game)
    ensures Full(snapshot) ==> r.board == g.board && r.winner == g.winner && r.userTurn == g.userTurn
    ensures !Full(snapshot) ==>
      && (exists t :: 0 <= t < 9 && snapshot[t] == Empty && r.board == snapshot[t := Filled(O)]
            && (t == Center ==> forall j :: 0 <= j < 9 && j != Center ==> snapshot[j].Filled?))
      && (CheckWinner(r.board) == Open ==> r.userTurn && r.winner == g.winner)
      && (CheckWinner(r.board) != Open ==> r.winner == CheckWinner(r.board) && r.userTurn == g.userTurn)
  {
    if Full(snapshot) then g.(timer := Idle)
    else
      var t := AITarget(snapshot, rand);
      var next := snapshot[t := Filled(O)];
      var v := CheckWinner(next);
      if v != Open then Game(next, g.userTurn, v, WinnerEffect(v))
      else Game(next, true, g.winner, Idle)
  }

  /** Outcome of firing the pending timer: the game goes on, or it reports
      completion to the flow (and is unmounted). */
  type GameStep = Outcome<Game>

  /** The pending timer fires; `rand` is the value `Math.random()` would
      return, used only by the opponent's move. The timer that fires is
      consumed, and a firing never schedules another opponent's move. */
  function Fire(g: Game, rand: Random): (r: GameStep)
    ensures r == Completed <==> g.timer == CompleteDue
    ensures g.timer == Idle ==> r == Continue(g)
    ensures g.timer == ResetDue ==> r == Continue(Initial)
    ensures r.Continue? && g.timer != Idle ==> r.state.timer != g.timer
    ensures r.Continue? ==> !r.state.timer.AIMoveDue?
  {
    match g.timer
    case Idle => Continue(g)
    case AIMoveDue(snapshot) => Continue(AIMove(g, snapshot, rand))
    case ResetDue => Continue(Initial)
    case CompleteDue => Completed
  }

  // ----- reachable states -----

  /** The user placed the most recent mark of the round. */
  predicate UserMovedLast(g: Game)
  {
    match g.winner
    case Open => !g.userTurn
    case Win(m) => m == X
    case Draw => true
  }

  /** What every reachable game satisfies: the recorded winner is the board's
      verdict, exactly the timer the state calls for is pending (the opponent's
      one captured the current board), the user keeps the turn on a result
      they made and loses it on the opponent's, and marks alternate starting
      with X. */
  predicate Inv(g: Game)
  {
    && g.winner == CheckWinner(g.board)
    && (g.winner == Open ==> g.timer == (if g.userTurn then Idle else AIMoveDue(g.board)))
    && (g.winner != Open ==> g.timer == WinnerEffect(g.winner) && g.userTurn == UserMovedLast(g))
    && Count(g.board, Filled(X)) == Count(g.board, Filled(O)) + (if UserMovedLast(g) then 1 else 0)
  }

  lemma InitialInv()
    ensures Inv(Initial)
  {
    assert !Full(EmptyBoard) by {
      assert EmptyBoard[0] == Empty;
    }
  }

  lemma {:induction false} ClickInv(g: Game, i: Index)
    requires Inv(g)
    ensures Inv(Click(g, i))
  {
    if !ClickIgnored(g, i) {
      var next := g.board[i := Filled(X)];
      assert Click(g, i).board == next;
      CountUpdate(g.board, i, Filled(X), Filled(X));
      CountUpdate(g.board, i, Filled(X), Filled(O));
      PlaceCannotWinForOther(g.board, i, X, O);
    }
  }

  /** A board with as many X as O has an even number of marks, so it is never full. */
  lemma BalancedNotFull(b: Board)
    requires Count(b, Filled(X)) == Count(b, Filled(O))
    ensures !Full(b)
  {
    OccupiedBounds(b);
  }

  lemma {:induction false} FireInv(g: Game, rand: Random)
    requires Inv(g)
    ensures Fire(g, rand).Continue? ==> Inv(Fire(g, rand).state)
  {
    match g.timer
    case Idle =>
    case CompleteDue =>
    case ResetDue => InitialInv();
    case AIMoveDue(snapshot) =>
      assert snapshot == g.board && !g.userTurn && g.winner == Open;
      var t := AITarget(snapshot, rand);
      var next := snapshot[t := Filled(O)];
      CountUpdate(snapshot, t, Filled(O), Filled(X));
      CountUpdate(snapshot, t, Filled(O), Filled(O));
      BalancedNotFull(next);
      PlaceCannotWinForOther(snapshot, t, O, X);
      assert Fire(g, rand).state.board == next;
  }

  // ----- properties of reachable states -----

  /** In a reachable game the opponent's move always finds an empty cell: the
      early return for a full board is never taken. */
  lemma AIMoveFindsEmptyCell(g: Game)
    requires Inv(g) && g.timer.AIMoveDue?
    ensures !Full(g.timer.snapshot)
  {
  }

  /** Only the user's move can end a round in a draw. */
  lemma DrawOnlyOnUserMove(g: Game)
    requires Inv(g) && g.winner == Draw
    ensures g.userTurn
    ensures Count(g.board, Filled(X)) == 5 && Count(g.board, Filled(O)) == 4
  {
    CountPartition(g.board);
    CountAbsent(g.board, Empty);
    assert Empty !in g.board by {
      assert Full(g.board);
    }
  }

  /** `after` keeps every occupied cell of `before` and fills exactly one more. */
  predicate FillsOneCell(before: Board, after: Board)
  {
    && (forall j :: 0 <= j < 9 && before[j] != Empty ==> after[j] == before[j])
    && Occupied(after) == Occupied(before) + 1
  }

  /** An accepted click fills exactly one empty cell and overwrites nothing. */
  lemma ClickNeverOverwrites(g: Game, i: Index)
    ensures ClickIgnored(g, i) ==> Click(g, i) == g
    ensures !ClickIgnored(g, i) ==> FillsOneCell(g.board, Click(g, i).board)
  {
    if !ClickIgnored(g, i) {
      PlaceRaisesOccupied(g.board, i, X);
      assert Click(g, i).board == g.board[i := Filled(X)];
    }
  }

  /** The opponent's move fills exactly one empty cell and overwrites
      nothing; the reset clears the board for a new round; completion ends
      the game; with no timer pending nothing happens. */
  lemma TimerNeverOverwrites(g: Game, rand: Random)
    requires Inv(g)
    ensures g.timer.AIMoveDue? ==>
      Fire(g, rand).Continue? && FillsOneCell(g.board, Fire(g, rand).state.board)
    ensures g.timer == ResetDue ==> Fire(g, rand).Continue? && Fire(g, rand).state.board == EmptyBoard
    ensures g.timer == CompleteDue ==> Fire(g, rand) == Completed
    ensures g.timer == Idle ==> Fire(g, rand) == Continue(g)
  {
    if g.timer.AIMoveDue? {
      AIMoveFindsEmptyCell(g);
      OpponentFillsOneCell(g, rand);
    }
  }

  lemma OpponentFillsOneCell(g: Game, rand: Random)
    requires g.timer == AIMoveDue(g.board) && !Full(g.board)
    ensures Fire(g, rand).Continue? && FillsOneCell(g.board, Fire(g, rand).state.board)
  {
    var t := AITarget(g.board, rand);
    PlaceRaisesOccupied(g.board, t, O);
    assert Fire(g, rand).state.board == g.board[t := Filled(O)];
  }

  /** After the opponent's move the user has the turn exactly when the board
      gives no result. */
  lemma AIMoveHandsBackTurn(g: Game, rand: Random)
    requires Inv(g) && g.timer.AIMoveDue?
    ensures Fire(g, rand).Continue?
    ensures var r := Fire(g, rand).state; r.userTurn <==> CheckWinner(r.board) == Open
  {
    FireInv(g, rand);
  }

  /** A round that ends in an opponent win or a draw comes back as a fresh
      round on the next timer; a user win hands control to the flow. */
  lemma RoundEnd(g: Game, rand: Random)
    requires Inv(g) && g.winner != Open
    ensures g.winner == Win(X) ==> Fire(g, rand) == Completed
    ensures g.winner != Win(X) ==> Fire(g, rand) == Continue(Initial)
  {
  }

  /** A click changes the game exactly when the guard lets it through. */
  lemma ClickGuard(g: Game, i: Index)
    ensures Click(g, i) == g <==> ClickIgnored(g, i)
  {
    if !ClickIgnored(g, i) {
      assert Click(g, i).board[i] != g.board[i];
    }
  }

  /** An accepted click schedules the opponent's move or the winner effect
      only when no timer is pending, and a firing timer is consumed before
      anything new is scheduled; so a single timer slot loses nothing. */
  lemma NoTimerLost(g: Game, i: Index)
    requires Inv(g) && !ClickIgnored(g, i)
    ensures g.timer == Idle
  {
  }

  /** While a round is over no click is accepted. */
  lemma NoClickAfterResult(g: Game, i: Index)
    requires g.winner != Open
    ensures Click(g, i) == g
  {
  }

  // ----- runs -----

  // The game on its own, as long as it stays mounted. `Interaction.Run`
  // drives the game through the same `Click` and `Fire` and relies only on
  // `ClickInv` and `FireInv`; this run states the game's invariant without
  // the other steps around it.

  datatype GameEvent = Square(i: Index) | TimerFires(rand: Random)

  /** Applies a sequence of events; `Completed` absorbs the rest. */
  function Run(s: GameStep, events: seq<GameEvent>): GameStep
    decreases |events|
  {
    if |events| == 0 || s == Completed then s
    else
      var next := match events[0]
        case Square(i) => Continue(Click(s.state, i))
        case TimerFires(rand) => Fire(s.state, rand);
      Run(next, events[1..])
  }

  /** Every game reachable from a fresh one satisfies the invariant. */
  lemma {:induction false} RunInv(s: GameStep, events: seq<GameEvent>)
    requires s.Continue? ==> Inv(s.state)
    ensures Run(s, events).Continue? ==> Inv(Run(s, events).state)
    decreases |events|
  {
    if |events| > 0 && s != Completed {
      match events[0]
      case Square(i) => ClickInv(s.state, i);
        RunInv(Continue(Click(s.state, i)), events[1..]);
      case TimerFires(rand) => FireInv(s.state, rand);
        RunInv(Fire(s.state, rand), events[1..]);
    }
  }

  lemma ReachableInv(events: seq<GameEvent>)
    ensures Run(Continue(Initial), events).Continue? ==> Inv(Run(Continue(Initial), events).state)
  {
    InitialInv();
    RunInv(Continue(Initial), events);
  }
}
