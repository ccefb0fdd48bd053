/** The tic-tac-toe board: cells, the eight lines, win/draw detection and the
    lists of empty cells the scripted opponent chooses from. */
module Board {

  /** The two marks: the user plays X, the scripted opponent plays O. */
  datatype Mark = X | O

  /** One square; `Empty` is the source's `null`. */
  datatype Cell = Empty | Filled(mark: Mark)

  /** Nine cells in row-major order. */
  type Board = b: seq<Cell> | |b| == 9
    witness [Empty, Empty, Empty, Empty, Empty, Empty, Empty, Empty, Empty]

  type Index = i: int | 0 <= i < 9

  /** The middle square, which the opponent avoids. */
  const Center: Index := 4

  const EmptyBoard: Board := [Empty, Empty, Empty, Empty, Empty, Empty, Empty, Empty, Empty]

  /** What a win check reports: no result yet, the mark of a complete line, or a draw. */
  datatype Verdict = Open | Win(mark: Mark) | Draw

  datatype Line = Line(first: Index, second: Index, third: Index)

  /** The lines in the order they are scanned: rows, then columns, then diagonals. */
  const Lines: seq<Line> := [
    Line(0, 1, 2), Line(3, 4, 5), Line(6, 7, 8),
    Line(0, 3, 6), Line(1, 4, 7), Line(2, 5, 8),
    Line(0, 4, 8), Line(2, 4, 6)
  ]

  /** Mark `m` occupies all three cells of line `l`. */
  predicate WonBy(b: Board, l: nat, m: Mark)
    requires l < |Lines|
  {
    var ln := Lines[l];
    b[ln.first] == Filled(m) && b[ln.second] == Filled(m) && b[ln.third] == Filled(m)
  }

  /** Line `l` holds three equal marks. */
  predicate Complete(b: Board, l: nat)
    requires l < |Lines|
  {
    WonBy(b, l, X) || WonBy(b, l, O)
  }

  /** No line with index in [lo, hi) is complete. */
  predicate NoneComplete(b: Board, lo: nat, hi: nat)
    requires lo <= hi <= |Lines|
  {
    forall j :: lo <= j < hi ==> !Complete(b, j)
  }

  /** Every cell is occupied. */
  predicate Full(b: Board)
  {
    forall i :: 0 <= i < |b| ==> b[i].Filled?
  }

  /** The scan of lines `l`, `l + 1`, ...: the first line whose first cell is
      occupied and equal to the other two decides; past the last line the
      board is a draw when no cell is empty. */
  function ScanFrom(b: Board, l: nat): (r: Verdict)
    requires l <= |Lines|
    decreases |Lines| - l
    ensures r.Win? ==> exists k :: l <= k < |Lines| && WonBy(b, k, r.mark) && NoneComplete(b, l, k)
    ensures !r.Win? <==> NoneComplete(b, l, |Lines|)
    ensures r.Draw? <==> NoneComplete(b, l, |Lines|) && Full(b)
  {
    if l == |Lines| then
      (if Empty in b then Open else Draw)
    else
      var ln := Lines[l];
      if b[ln.first] != Empty && b[ln.first] == b[ln.second] && b[ln.first] == b[ln.third] then
        assert WonBy(b, l, b[ln.first].mark) && NoneComplete(b, l, l);
        WonByCompletes(b, l, b[ln.first].mark);
        Win(b[ln.first].mark)
      else
        ScanFrom(b, l + 1)
  }

  /** The win check run after every move. */
  function CheckWinner(b: Board): (r: Verdict)
    ensures r == Draw <==> NoneComplete(b, 0, |Lines|) && Full(b)
    ensures r == Open <==> NoneComplete(b, 0, |Lines|) && !Full(b)
  {
    ScanFrom(b, 0)
  }

  lemma WonByCompletes(b: Board, l: nat, m: Mark)
    requires l < |Lines| && WonBy(b, l, m)
    ensures Complete(b, l)
  {
    if m == X {
      assert WonBy(b, l, X);
    } else {
      assert WonBy(b, l, O);
    }
  }

  /** A line cannot be held by both marks at once. */
  lemma WonByUnique(b: Board, l: nat, m: Mark, m': Mark)
    requires l < |Lines|
    requires WonBy(b, l, m) && WonBy(b, l, m')
    ensures m == m'
  {
  }

  /** The check reports mark `m` exactly when some line is held by `m` and no
      earlier line in scan order is complete. */
  lemma {:induction false} CheckWinnerIsFirstLine(b: Board, m: Mark)
    ensures CheckWinner(b) == Win(m) <==>
            exists k :: 0 <= k < |Lines| && WonBy(b, k, m) && NoneComplete(b, 0, k)
  {
    var r := CheckWinner(b);
    if k :| 0 <= k < |Lines| && WonBy(b, k, m) && NoneComplete(b, 0, k) {
      assert Complete(b, k);
      assert r.Win?;
      var k' :| 0 <= k' < |Lines| && WonBy(b, k', r.mark) && NoneComplete(b, 0, k');
      assert Complete(b, k');
      assert k == k';
      WonByUnique(b, k, m, r.mark);
    }
  }

  /** A full board with a complete line is a win, never a draw: lines are
      checked before fullness. */
  lemma WinBeforeDraw(b: Board, l: nat)
    requires l < |Lines| && Complete(b, l)
    ensures CheckWinner(b).Win?
  {
  }

  /** `[X,X,X,O,O,_,_,_,_]` is won by X. */
  lemma TopRowExample()
    ensures CheckWinner([Filled(X), Filled(X), Filled(X), Filled(O), Filled(O), Empty, Empty, Empty, Empty]) == Win(X)
  {
  }

  /** `[X,O,X,O,X,O,O,X,O]` is full with no line: a draw. */
  lemma FullBoardDrawExample()
    ensures CheckWinner([Filled(X), Filled(O), Filled(X), Filled(O), Filled(X), Filled(O), Filled(O), Filled(X), Filled(O)]) == Draw
  {
  }

  /** On a board with no complete line, placing mark `m` cannot produce a
      line of the other mark. */
  lemma PlaceCannotWinForOther(b: Board, i: Index, m: Mark, other: Mark)
    requires NoneComplete(b, 0, |Lines|) && m != other
    ensures CheckWinner(b[i := Filled(m)]) != Win(other)
  {
    var next := b[i := Filled(m)];
    CheckWinnerIsFirstLine(next, other);
    if CheckWinner(next) == Win(other) {
      var k :| 0 <= k < |Lines| && WonBy(next, k, other) && NoneComplete(next, 0, k);
      assert WonBy(b, k, other);
      WonByCompletes(b, k, other);
    }
  }

  // ----- counting cells -----

  /** Number of cells of `s` equal to `c`. */
  function Count(s: seq<Cell>, c: Cell): nat
  {
    if |s| == 0 then 0 else (if s[0] == c then 1 else 0) + Count(s[1..], c)
  }

  lemma {:induction false} CountAbsent(s: seq<Cell>, c: Cell)
    ensures Count(s, c) == 0 <==> c !in s
  {
    if |s| > 0 {
      CountAbsent(s[1..], c);
      assert s == [s[0]] + s[1..];
    }
  }

  /** Overwriting one cell moves one unit of count from the old value to the new. */
  lemma {:induction false} CountUpdate(s: seq<Cell>, i: nat, v: Cell, c: Cell)
    requires i < |s|
    ensures Count(s[i := v], c) == Count(s, c) - (if s[i] == c then 1 else 0) + (if v == c then 1 else 0)
  {
    if i > 0 {
      assert s[i := v][1..] == s[1..][i - 1 := v];
      CountUpdate(s[1..], i - 1, v, c);
    } else {
      assert s[i := v][1..] == s[1..];
    }
  }

  /** Every cell is empty, an X or an O. */
  lemma {:induction false} CountPartition(s: seq<Cell>)
    ensures Count(s, Empty) + Count(s, Filled(X)) + Count(s, Filled(O)) == |s|
  {
    if |s| > 0 {
      CountPartition(s[1..]);
      match s[0]
      case Empty =>
      case Filled(m) => assert m == X || m == O;
    }
  }

  /** Number of occupied cells. */
  function Occupied(b: Board): (n: nat)
    ensures n <= 9
    ensures n == 9 <==> Full(b)
    ensures n == 0 <==> b == EmptyBoard
  {
    OccupiedBounds(b);
    Count(b, Filled(X)) + Count(b, Filled(O))
  }

  lemma OccupiedBounds(b: Board)
    ensures Count(b, Filled(X)) + Count(b, Filled(O)) <= 9
    ensures Count(b, Filled(X)) + Count(b, Filled(O)) == 9 <==> Full(b)
    ensures Count(b, Filled(X)) + Count(b, Filled(O)) == 0 <==> b == EmptyBoard
  {
    CountPartition(b);
    CountAbsent(b, Empty);
    CountAbsent(b, Filled(X));
    CountAbsent(b, Filled(O));
    if Full(b) {
      assert Empty !in b;
    }
    if Empty !in b {
      forall i | 0 <= i < 9 ensures b[i].Filled? {
        assert b[i] in b;
      }
    }
    if b != EmptyBoard {
      var i :| 0 <= i < 9 && b[i] != Empty;
      assert b[i] in b;
      if b[i].mark == X {
        assert Filled(X) in b;
      } else {
        assert Filled(O) in b;
      }
    } else {
      assert Filled(X) !in b && Filled(O) !in b;
    }
  }

  /** Placing a mark on an empty cell raises the occupied count by exactly one. */
  lemma PlaceRaisesOccupied(b: Board, i: Index, m: Mark)
    requires b[i] == Empty
    ensures Occupied(b[i := Filled(m)]) == Occupied(b) + 1
  {
    CountUpdate(b, i, Filled(m), Filled(X));
    CountUpdate(b, i, Filled(m), Filled(O));
  }

  // ----- empty cells, as the opponent lists them -----

  /** Every element is smaller than the next (ascending, no repeats). */
  predicate Increasing(s: seq<Index>)
  {
    forall p, q :: 0 <= p < q < |s| ==> s[p] < s[q]
  }

  /** Indices `i`, `i + 1`, ..., 8 of empty cells, in ascending order. */
  function EmptyFrom(b: Board, i: nat): (r: seq<Index>)
    requires i <= 9
    decreases 9 - i
    ensures forall j :: j in r <==> i <= j < 9 && b[j] == Empty
    ensures Increasing(r)
  {
    if i == 9 then []
    else if b[i] == Empty then
      var rest := EmptyFrom(b, i + 1);
      assert forall p :: 0 <= p < |rest| ==> rest[p] in rest;
      [i as Index] + rest
    else EmptyFrom(b, i + 1)
  }

  /** All empty cells of the board, ascending. */
  function EmptyIndices(b: Board): (r: seq<Index>)
    ensures forall j :: j in r <==> 0 <= j < 9 && b[j] == Empty
    ensures Increasing(r)
    ensures |r| == 0 <==> Full(b)
  {
    EmptyFromFull(b);
    EmptyFrom(b, 0)
  }

  lemma EmptyFromFull(b: Board)
    ensures |EmptyFrom(b, 0)| == 0 <==> Full(b)
  {
    var r := EmptyFrom(b, 0);
    if |r| > 0 {
      assert r[0] in r;
    } else {
      forall j | 0 <= j < 9 ensures b[j].Filled? {
        assert j !in r;
      }
    }
  }

  /** The list with the center index removed, order kept. */
  function WithoutCenter(s: seq<Index>): (r: seq<Index>)
    ensures forall j :: j in r <==> j in s && j != Center
    ensures Increasing(s) ==> Increasing(r)
  {
    if |s| == 0 then []
    else
      var rest := WithoutCenter(s[1..]);
      assert forall j :: j in s[1..] ==> j in s;
      assert Increasing(s) ==> forall j :: j in rest ==> s[0] < j by {
        if Increasing(s) {
          forall j | j in rest ensures s[0] < j {
            var p :| 0 <= p < |s[1..]| && s[1..][p] == j;
            assert s[p + 1] == j;
          }
        }
      }
      assert forall p :: 0 <= p < |rest| ==> rest[p] in rest;
      if s[0] == Center then rest else [s[0]] + rest
  }

  /** Empty cells other than the center, ascending: the opponent's preferred targets. */
  function NonCenterEmpties(b: Board): (r: seq<Index>)
    ensures forall j :: j in r <==> 0 <= j < 9 && j != Center && b[j] == Empty
    ensures Increasing(r)
  {
    WithoutCenter(EmptyIndices(b))
  }

  /** The center is the one empty cell exactly when no other cell is empty and the board is not full. */
  lemma OnlyCenterLeft(b: Board)
    ensures |NonCenterEmpties(b)| == 0 && !Full(b) <==>
            b[Center] == Empty && forall j :: 0 <= j < 9 && j != Center ==> b[j].Filled?
  {
    var r := NonCenterEmpties(b);
    if |r| > 0 {
      assert r[0] in r;
    }
    if |r| == 0 && !Full(b) {
      var i :| 0 <= i < 9 && b[i] == Empty;
      assert i !in r;
      forall j | 0 <= j < 9 && j != Center ensures b[j].Filled? {
        assert j !in r;
      }
    }
  }
}
