/** The tic-tac-toe position: a 9-cell board, its legal moves, writing and
    clearing one cell, the winner test over the eight fixed lines, and the
    static evaluation that maps the winner to +1, -1 or 0.
 */
module TicTacToe {

  /** The source's `None`: the move of a leaf of the search. */
  datatype Option<+T> = None | Some(value: T)

  /** A cell holds `" "`, `"X"` (the maximizing player) or `"O"` (the minimizing player). */
  datatype Cell = Empty | X | O

  /** Cells are numbered 0..8 row by row. */
  type Board = b: seq<Cell> | |b| == 9 witness [Empty, Empty, Empty, Empty, Empty, Empty, Empty, Empty, Empty]

  /** Number of empty cells; every move of the search lowers it by one. */
  function EmptyCount(b: Board): nat
  {
    multiset(b)[Empty]
  }

  /** True when no cell of the board is empty. */
  predicate Full(b: Board)
  {
    forall i :: 0 <= i < 9 ==> b[i] != Empty
  }

  /** The empty cells of `b` below index `n`, in increasing order. */
  function EmptyBelow(b: Board, n: nat): seq<int>
    requires n <= 9
  {
    if n == 0 then []
    else if b[n - 1] == Empty then EmptyBelow(b, n - 1) + [n - 1]
    else EmptyBelow(b, n - 1)
  }

  lemma {:induction false} EmptyBelowSpec(b: Board, n: nat)
    requires n <= 9
    ensures var ms := EmptyBelow(b, n);
            && (forall i :: 0 <= i < |ms| ==> 0 <= ms[i] < n && b[ms[i]] == Empty)
            && (forall i :: 0 <= i < n && b[i] == Empty ==> i in ms)
            && (forall i, j :: 0 <= i < j < |ms| ==> ms[i] < ms[j])
  {
    if n > 0 {
      EmptyBelowSpec(b, n - 1);
    }
  }

  /** There are as many empty cells below `n` as there are cells of `b[..n]` that are empty. */
  lemma {:induction false} EmptyBelowCount(b: Board, n: nat)
    requires n <= 9
    ensures |EmptyBelow(b, n)| == multiset(b[..n])[Empty]
  {
    if n > 0 {
      EmptyBelowCount(b, n - 1);
      assert b[..n] == b[..n - 1] + [b[n - 1]];
    }
  }

  /** The legal moves, in the order the search tries them. */
  function AvailableMoves(b: Board): seq<int>
  {
    EmptyBelow(b, |b|)
  }

  /** There is one legal move per empty cell. */
  lemma AvailableMovesCount(b: Board)
    ensures |AvailableMoves(b)| == EmptyCount(b)
  {
    EmptyBelowCount(b, 9);
    assert b[..9] == b;
  }

  /** The legal moves are exactly the empty cells, strictly increasing (so
      without duplicates); there are none exactly when the board is full. */
  lemma AvailableMovesSpec(b: Board)
    ensures var ms := AvailableMoves(b);
            && (forall i :: 0 <= i < |ms| ==> 0 <= ms[i] < 9 && b[ms[i]] == Empty)
            && (forall i :: 0 <= i < 9 ==> (b[i] == Empty <==> i in ms))
            && (forall i, j :: 0 <= i < j < |ms| ==> ms[i] < ms[j])
            && (|ms| == 0 <==> Full(b))
  {
    var ms := AvailableMoves(b);
    EmptyBelowSpec(b, 9);
    assert !Full(b) ==> exists i :: 0 <= i < 9 && i in ms;
    assert |ms| > 0 ==> b[ms[0]] == Empty;
  }

  /** Writes `p` into cell `i`. No emptiness check: an occupied cell is overwritten. */
  function MakeMove(b: Board, i: int, p: Cell): (r: Board)
    requires 0 <= i < 9
    ensures r[i] == p
  {
    b[i := p]
  }

  /** A move changes no cell but its own. */
  lemma MakeMoveOnlyCell(b: Board, i: int, p: Cell)
    requires 0 <= i < 9
    ensures forall j :: 0 <= j < 9 && j != i ==> MakeMove(b, i, p)[j] == b[j]
  {
  }

  /** Clears cell `i`. */
  function UndoMove(b: Board, i: int): (r: Board)
    requires 0 <= i < 9
    ensures r[i] == Empty
    ensures forall j :: 0 <= j < 9 && j != i ==> r[j] == b[j]
  {
    b[i := Empty]
  }

  /** Undoing a move restores the board exactly when the cell was empty before it. */
  lemma UndoMakeRestores(b: Board, i: int, p: Cell)
    requires 0 <= i < 9
    ensures UndoMove(MakeMove(b, i, p), i) == b <==> b[i] == Empty
  {
    if b[i] == Empty {
      assert UndoMove(MakeMove(b, i, p), i) == b;
    } else {
      assert UndoMove(MakeMove(b, i, p), i)[i] != b[i];
    }
  }

  /** Placing a mark on an empty cell leaves one empty cell fewer. */
  lemma MakeMoveFillsOne(b: Board, i: int, p: Cell)
    requires 0 <= i < 9 && b[i] == Empty && p != Empty
    ensures EmptyCount(MakeMove(b, i, p)) == EmptyCount(b) - 1
  {
    assert multiset(b[i := p]) == multiset(b) - multiset{Empty} + multiset{p};
  }

  /** A line is three cell indices. */
  type Line = t: (int, int, int) | 0 <= t.0 < 9 && 0 <= t.1 < 9 && 0 <= t.2 < 9 witness (0, 0, 0)

  /** The three rows, three columns and two diagonals, in the order `winner` checks them. */
  const WinLines: seq<Line> := [(0, 1, 2), (3, 4, 5), (6, 7, 8), (0, 3, 6), (1, 4, 7), (2, 5, 8), (0, 4, 8), (2, 4, 6)]

  /** The three cells of `l` hold the same non-empty mark. */
  predicate Complete(b: Board, l: Line)
  {
    b[l.0] == b[l.1] && b[l.1] == b[l.2] && b[l.2] != Empty
  }

  /** Some winning line is complete. */
  predicate HasLine(b: Board)
  {
    exists k :: 0 <= k < |WinLines| && Complete(b, WinLines[k])
  }

  /** Line `k` is the first complete line, in the order of `WinLines`. */
  predicate FirstComplete(b: Board, k: int)
  {
    && 0 <= k < |WinLines|
    && Complete(b, WinLines[k])
    && forall j :: 0 <= j < k ==> !Complete(b, WinLines[j])
  }

  /** Position of the first complete line of `lines`, if any. */
  function FirstLine(b: Board, lines: seq<Line>): (r: Option<int>)
    ensures r.Some? ==> 0 <= r.value < |lines|
  {
    if |lines| == 0 then None
    else if Complete(b, lines[0]) then Some(0)
    else match FirstLine(b, lines[1..])
      case Some(k) => Some(k + 1)
      case None => None
  }

  lemma {:induction false} FirstLineSpec(b: Board, lines: seq<Line>)
    ensures var r := FirstLine(b, lines);
            && (r.None? <==> forall j :: 0 <= j < |lines| ==> !Complete(b, lines[j]))
            && (r.Some? ==> Complete(b, lines[r.value]) && forall j :: 0 <= j < r.value ==> !Complete(b, lines[j]))
  {
    if |lines| > 0 {
      FirstLineSpec(b, lines[1..]);
      assert forall j :: 1 <= j < |lines| ==> lines[j] == lines[1..][j - 1];
    }
  }

  /** The source's winner: a mark, `"DRAW"` or `None`. */
  datatype Outcome = Won(mark: Cell) | Draw | Undecided

  /** The first complete line in `WinLines` order decides the winner;
      otherwise a full board is a draw; otherwise the game goes on. */
  function Winner(b: Board): Outcome
  {
    match FirstLine(b, WinLines)
    case Some(k) => Won(b[WinLines[k].0])
    case None => if Empty !in b then Draw else Undecided
  }

  /** Line wins take precedence: a board with a complete line is won by the
      mark of the first such line, even when it is full; a full board with
      no complete line is a draw; any other board is undecided. */
  lemma WinnerSpec(b: Board)
    ensures var w := Winner(b);
            && (w.Won? <==> HasLine(b))
            && (w.Won? ==> w.mark != Empty && exists k :: FirstComplete(b, k) && w.mark == b[WinLines[k].0])
            && (w == Draw <==> !HasLine(b) && Full(b))
            && (w == Undecided <==> !HasLine(b) && !Full(b))
  {
    FirstLineSpec(b, WinLines);
  }

  /** +1 when X has won, -1 when O has won, 0 for a draw and for an
      undecided board. */
  function Evaluate(b: Board): (r: int)
    ensures -1 <= r <= 1
  {
    match Winner(b)
    case Won(m) => if m == X then 1 else if m == O then -1 else 0
    case _ => 0
  }

  /** The evaluation in terms of the winner, and 0 exactly when no line is complete. */
  lemma EvaluateSpec(b: Board)
    ensures Evaluate(b) == 1 <==> Winner(b) == Won(X)
    ensures Evaluate(b) == -1 <==> Winner(b) == Won(O)
    ensures Evaluate(b) == 0 <==> !HasLine(b)
  {
    WinnerSpec(b);
  }
}
