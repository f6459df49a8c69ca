/** The search as the source runs it: one mutable board, each move written
    into it before the recursive call and cleared right after. The board
    ends as it started, and the result is the one `Search.AlphaBeta`
    computes on the board's contents.
 */
module InPlace {
  import opened TicTacToe
  import opened GameTree
  import opened Search

  /** `make_move`: writes `p` into cell `i` of the board. */
  method MakeMoveInPlace(a: array<Cell>, i: int, p: Cell)
    requires a.Length == 9 && 0 <= i < 9
    modifies a
    ensures a[..] == MakeMove(old(a[..]), i, p)
  {
    a[i] := p;
  }

  /** `undo_move`: clears cell `i` of the board. */
  method UndoMoveInPlace(a: array<Cell>, i: int)
    requires a.Length == 9 && 0 <= i < 9
    modifies a
    ensures a[..] == UndoMove(old(a[..]), i)
  {
    a[i] := Empty;
  }

  /** `alphabeta` on a mutable board: returns the value, the move and the
      number of nodes visited, and leaves the board as it found it. */
  method AlphaBetaInPlace(a: array<Cell>, depth: int, alpha: int, beta: int, maximizing: bool)
    returns (value: int, move: Option<int>, nodes: nat)
    requires a.Length == 9
    modifies a
    decreases EmptyCount(a[..]), 2
    ensures a[..] == old(a[..])
    ensures SearchResult(value, move, nodes) == AlphaBeta(old(a[..]), depth, alpha, beta, maximizing)
  {
    var b: Board := a[..];
    if depth == 0 || Winner(b) != Undecided {
      return Evaluate(b), None, 1;
    }
    var moves := AvailableMoves(b);
    InnerHasMoves(b, depth);
    AvailableMovesSpec(b);
    var r := TryMovesInPlace(a, b, moves, depth, alpha, beta, maximizing);
    return r.value, r.move, r.nodes + 1;
  }

  /** The loop over the legal moves `moves` of the board, with the window
      tightened after each move and left as soon as it closes. */
  method TryMovesInPlace(a: array<Cell>, ghost b: Board, moves: seq<int>, depth: int, alpha: int, beta: int, maximizing: bool)
    returns (r: SearchResult)
    requires a.Length == 9 && a[..] == b && ValidMoves(b, moves)
    modifies a
    decreases EmptyCount(a[..]), 1
    ensures a[..] == b
    ensures r == TryMoves(b, moves, 0, depth, alpha, beta, maximizing, Worst(maximizing), None, 0)
  {
    ghost var target := TryMoves(b, moves, 0, depth, alpha, beta, maximizing, Worst(maximizing), None, 0);
    var best, bestMove := Worst(maximizing), None;
    var count: nat := 0;
    var lo, hi := alpha, beta;
    var k := 0;
    while k < |moves|
      invariant 0 <= k <= |moves|
      invariant a[..] == b
      invariant LoopArgs(b, moves, k, maximizing, best, bestMove)
      invariant TryMoves(b, moves, k, depth, lo, hi, maximizing, best, bestMove, count) == target
      decreases |moves| - k
    {
      TryMovesUnfold(b, moves, k, depth, lo, hi, maximizing, best, bestMove, count);
      var s := TryMoveInPlace(a, b, moves[k], depth, lo, hi, maximizing, best, bestMove);
      best, bestMove, lo, hi := s.best, s.bestMove, s.alpha, s.beta;
      count := count + s.child.nodes;
      if lo >= hi {
        return SearchResult(best, bestMove, count);
      }
      k := k + 1;
    }
    return SearchResult(best, bestMove, count);
  }

  /** One turn of the loop on the mutable board: make the move, search the
      child, undo the move, then keep the child's value if it is a strict
      improvement and tighten the window. */
  method TryMoveInPlace(a: array<Cell>, ghost b: Board, m: int, depth: int, alpha: int, beta: int, maximizing: bool,
                        best: int, bestMove: Option<int>)
    returns (s: Step)
    requires a.Length == 9 && a[..] == b && 0 <= m < 9 && b[m] == Empty
    modifies a
    decreases EmptyCount(a[..]), 0
    ensures a[..] == b
    ensures s == TryMove(b, m, depth, alpha, beta, maximizing, best, bestMove)
  {
    var mark := Mark(maximizing);
    MakeMoveFillsOne(b, m, mark);
    MakeMoveInPlace(a, m, mark);
    var v, mv, n := AlphaBetaInPlace(a, depth - 1, alpha, beta, !maximizing);
    UndoMoveInPlace(a, m);
    UndoMakeRestores(b, m, mark);
    TryMoveChild(b, m, depth, alpha, beta, maximizing, best, bestMove);
    var best', bestMove' := best, bestMove;
    if Better(maximizing, v, best) {
      best', bestMove' := v, Some(m);
    }
    var lo, hi := alpha, beta;
    if maximizing {
      lo := Max(lo, best');
    } else {
      hi := Min(hi, best');
    }
    s := Step(SearchResult(v, mv, n), best', bestMove', lo, hi);
  }
}
