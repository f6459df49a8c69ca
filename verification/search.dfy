/** Depth-limited, fail-soft alpha-beta search over a tic-tac-toe board.
    The node counter the source keeps in a global is returned with the
    result instead. The board is passed by value, so every move applied on
    the way down is undone on the way up by construction; the in-place
    version that writes and clears array cells is in module `InPlace`.
 */
module Search {
  import opened TicTacToe
  import opened GameTree

  /** The value of a node, the move chosen there (`None` at a leaf), and
      the number of nodes visited, this one included. */
  datatype SearchResult = SearchResult(value: int, move: Option<int>, nodes: nat)

  function Max(x: int, y: int): int { if x >= y then x else y }
  function Min(x: int, y: int): int { if x <= y then x else y }

  /** The window after the side to move has found `best`: a maximizing node
      raises alpha, a minimizing node lowers beta. */
  function Tighten(maximizing: bool, alpha: int, beta: int, best: int): (int, int)
  {
    if maximizing then (Max(alpha, best), beta) else (alpha, Min(beta, best))
  }

  /** The search. A leaf (depth 0, or a won or drawn board) is scored by
      `Evaluate`; otherwise the legal moves are tried in increasing order. */
  function AlphaBeta(b: Board, depth: int, alpha: int, beta: int, maximizing: bool): (r: SearchResult)
    decreases EmptyCount(b), 1
    ensures -1 <= r.value <= 1
    ensures r.nodes >= 1
    ensures IsLeaf(b, depth) ==> r.value == Evaluate(b) && r.move == None && r.nodes == 1
    ensures !IsLeaf(b, depth) ==> r.move.Some? && 0 <= r.move.value < 9 && b[r.move.value] == Empty && r.nodes >= 2
  {
    if depth == 0 || Winner(b) != Undecided then SearchResult(Evaluate(b), None, 1)
    else
      var moves := AvailableMoves(b);
      InnerHasMoves(b, depth);
      AvailableMovesSpec(b);
      var r := TryMoves(b, moves, 0, depth, alpha, beta, maximizing, Worst(maximizing), None, 0);
      SearchResult(r.value, r.move, r.nodes + 1)
  }

  /** What one iteration of the loop leaves behind: the child's result, the
      best value and move so far, and the window. */
  datatype Step = Step(child: SearchResult, best: int, bestMove: Option<int>, alpha: int, beta: int)

  /** One iteration: play `m` with the mover's mark, search the child with
      the current window and the other side to move, then tighten the window. */
  function TryMove(b: Board, m: int, depth: int, alpha: int, beta: int, maximizing: bool,
                   best: int, bestMove: Option<int>): (s: Step)
    requires 0 <= m < 9 && b[m] == Empty
    decreases EmptyCount(b), 0, 0
    ensures -1 <= s.child.value <= 1
    ensures Better(maximizing, s.child.value, best) ==> s.best == s.child.value && s.bestMove == Some(m)
    ensures !Better(maximizing, s.child.value, best) ==> s.best == best && s.bestMove == bestMove
    ensures (s.alpha, s.beta) == Tighten(maximizing, alpha, beta, s.best)
  {
    MakeMoveFillsOne(b, m, Mark(maximizing));
    var child := AlphaBeta(MakeMove(b, m, Mark(maximizing)), depth - 1, alpha, beta, !maximizing);
    var improves := Better(maximizing, child.value, best);
    var best' := if improves then child.value else best;
    var bestMove' := if improves then Some(m) else bestMove;
    var window := Tighten(maximizing, alpha, beta, best');
    Step(child, best', bestMove', window.0, window.1)
  }

  /** Proof helper: unfolds `TryMove`'s child search, the position after
      `m` with the current window and the other side to move, for the
      in-place proof in module `InPlace`. */
  lemma TryMoveChild(b: Board, m: int, depth: int, alpha: int, beta: int, maximizing: bool,
                     best: int, bestMove: Option<int>)
    requires 0 <= m < 9 && b[m] == Empty
    ensures TryMove(b, m, depth, alpha, beta, maximizing, best, bestMove).child
            == AlphaBeta(MakeMove(b, m, Mark(maximizing)), depth - 1, alpha, beta, !maximizing)
  {
  }

  /** The loop's arguments are well formed: `moves` are empty cells, `k`
      is within them, and `bestMove` is `None` only while `best` is still
      the starting value. */
  predicate LoopArgs(b: Board, moves: seq<int>, k: nat, maximizing: bool, best: int, bestMove: Option<int>)
  {
    && ValidMoves(b, moves) && k <= |moves|
    && (bestMove.None? ==> best == Worst(maximizing))
    && (bestMove.Some? ==> -1 <= best <= 1 && 0 <= bestMove.value < 9 && b[bestMove.value] == Empty)
  }

  /** The loop over `moves[k..]`, carrying the current window, the best
      value and move so far, and the nodes counted so far; it stops as soon
      as the window closes (alpha >= beta). */
  function TryMoves(b: Board, moves: seq<int>, k: nat, depth: int, alpha: int, beta: int, maximizing: bool,
                    best: int, bestMove: Option<int>, nodes: nat): (r: SearchResult)
    requires LoopArgs(b, moves, k, maximizing, best, bestMove)
    decreases EmptyCount(b), 0, |moves| - k
    ensures r.nodes >= nodes
    ensures k < |moves| ==> r.nodes > nodes
    ensures k < |moves| || bestMove.Some? ==>
              -1 <= r.value <= 1 && r.move.Some? && 0 <= r.move.value < 9 && b[r.move.value] == Empty
  {
    if k == |moves| then SearchResult(best, bestMove, nodes)
    else
      var s := TryMove(b, moves[k], depth, alpha, beta, maximizing, best, bestMove);
      if s.alpha >= s.beta then SearchResult(s.best, s.bestMove, nodes + s.child.nodes)
      else TryMoves(b, moves, k + 1, depth, s.alpha, s.beta, maximizing, s.best, s.bestMove, nodes + s.child.nodes)
  }

  /** The fail-soft bound: a result below beta is an upper bound on the
      true value `v`, a result above alpha is a lower bound on it; so a
      result strictly inside the window is exact. */
  predicate FailSoft(r: int, v: int, alpha: int, beta: int)
  {
    (r < beta ==> v <= r) && (r > alpha ==> v >= r)
  }

  /** Move `m` attains `v` and every lower-index legal move is strictly worse:
      `m` is the first move in `AvailableMoves` order with value `v`. */
  predicate FirstBest(b: Board, depth: int, maximizing: bool, m: int, v: int)
  {
    && 0 <= m < 9 && b[m] == Empty
    && ChildValue(b, m, depth, maximizing) == v
    && forall j :: 0 <= j < m && b[j] == Empty ==> Better(maximizing, v, ChildValue(b, j, depth, maximizing))
  }

  /** `mv` is the move at some position `j < k` of `moves`, it attains `v`,
      and every move before position `j` is strictly worse. */
  predicate PrefixTie(b: Board, moves: seq<int>, k: int, depth: int, maximizing: bool, v: int, mv: Option<int>)
  {
    && ValidMoves(b, moves) && k <= |moves|
    && exists j :: 0 <= j < k && mv == Some(moves[j]) && ChildValue(b, moves[j], depth, maximizing) == v
                && forall i :: 0 <= i < j ==> Better(maximizing, v, ChildValue(b, moves[i], depth, maximizing))
  }

  /** One step of the loop, in integers: `best`, `m` are the best result and
      the true best value before the step, `c`, `v` the child's result and
      true value, searched with the current window (`alpha`, `beta`) inside
      the node's own window (`alpha0`, `beta0`). */
  lemma StepFailSoft(maximizing: bool, alpha0: int, beta0: int, alpha: int, beta: int, first: bool,
                     best: int, m: int, c: int, v: int)
    requires alpha0 < beta0 && alpha < beta
    requires first ==> alpha == alpha0 && beta == beta0 && best == m == Worst(maximizing)
    requires !first ==> (alpha, beta) == Tighten(maximizing, alpha0, beta0, best)
    requires -1 <= c <= 1
    requires FailSoft(best, m, alpha0, beta0) && FailSoft(c, v, alpha, beta)
    ensures var best' := if Better(maximizing, c, best) then c else best;
            && FailSoft(best', Pick(maximizing, m, v), alpha0, beta0)
            && Tighten(maximizing, alpha, beta, best') == Tighten(maximizing, alpha0, beta0, best')
    ensures Better(maximizing, c, best) && alpha0 < c < beta0 ==> v == c && Better(maximizing, c, m)
  {
  }

  /** The best value over a prefix of `moves` is no better than over all of them. */
  lemma OverPrefix(b: Board, moves: seq<int>, k: int, depth: int, maximizing: bool)
    requires ValidMoves(b, moves) && 0 < k <= |moves|
    ensures !Better(maximizing, Over(b, moves[..k], depth, maximizing), Over(b, moves, depth, maximizing))
  {
    var prefix := moves[..k];
    var j := OverAttained(b, prefix, depth, maximizing);
    assert prefix[j] == moves[j];
    OverBounds(b, moves, depth, maximizing, j);
  }

  /** What the loop keeps true after trying `moves[..k]` inside the node's
      window (`alpha0`, `beta0`): the current window is the node's window
      tightened by `best`; `best` is a fail-soft bound on the best true value
      of the moves tried; and when it lies inside the window, `bestMove` is
      the first of them attaining it. */
  predicate LoopInv(b: Board, moves: seq<int>, k: nat, depth: int, maximizing: bool, alpha0: int, beta0: int,
                    alpha: int, beta: int, best: int, bestMove: Option<int>)
  {
    && LoopArgs(b, moves, k, maximizing, best, bestMove)
    && alpha0 < beta0
    && (k == 0 ==> alpha == alpha0 && beta == beta0 && bestMove.None?)
    && (k > 0 ==> (alpha, beta) == Tighten(maximizing, alpha0, beta0, best) && alpha < beta && bestMove.Some?)
    && FailSoft(best, Over(b, moves[..k], depth, maximizing), alpha0, beta0)
    && (bestMove.Some? && alpha0 < best < beta0 ==> PrefixTie(b, moves, k, depth, maximizing, best, bestMove))
  }

  /** Trying `moves[k]`, whose search returned `c`, keeps the invariant; if
      the window closes, `best'` is already a fail-soft bound for all moves
      and lies outside the window. */
  lemma LoopStep(b: Board, moves: seq<int>, k: nat, depth: int, maximizing: bool, alpha0: int, beta0: int,
                 alpha: int, beta: int, best: int, bestMove: Option<int>, c: int,
                 best': int, bestMove': Option<int>, alpha': int, beta': int)
    requires k < |moves|
    requires LoopInv(b, moves, k, depth, maximizing, alpha0, beta0, alpha, beta, best, bestMove)
    requires -1 <= c <= 1 && FailSoft(c, ChildValue(b, moves[k], depth, maximizing), alpha, beta)
    requires Better(maximizing, c, best) ==> best' == c && bestMove' == Some(moves[k])
    requires !Better(maximizing, c, best) ==> best' == best && bestMove' == bestMove
    requires (alpha', beta') == Tighten(maximizing, alpha, beta, best')
    ensures alpha' < beta' ==> LoopInv(b, moves, k + 1, depth, maximizing, alpha0, beta0, alpha', beta', best', bestMove')
    ensures alpha' >= beta' ==> FailSoft(best', Over(b, moves, depth, maximizing), alpha0, beta0) && !(alpha0 < best' < beta0)
  {
    var cv := ChildValue(b, moves[k], depth, maximizing);
    var before := Over(b, moves[..k], depth, maximizing);
    var after := Over(b, moves[..k + 1], depth, maximizing);
    assert moves[..k + 1][..k] == moves[..k];
    assert after == Pick(maximizing, before, cv);
    StepFailSoft(maximizing, alpha0, beta0, alpha, beta, k == 0, best, before, c, cv);
    if Better(maximizing, c, best) && alpha0 < best' < beta0 {
      forall i | 0 <= i < k
        ensures Better(maximizing, best', ChildValue(b, moves[i], depth, maximizing))
      {
        OverBounds(b, moves[..k], depth, maximizing, i);
        assert moves[..k][i] == moves[i];
      }
      assert PrefixTie(b, moves, k + 1, depth, maximizing, best', bestMove');
    } else if bestMove'.Some? && alpha0 < best' < beta0 {
      var j :| 0 <= j < k && bestMove == Some(moves[j]) && ChildValue(b, moves[j], depth, maximizing) == best
               && forall i :: 0 <= i < j ==> Better(maximizing, best, ChildValue(b, moves[i], depth, maximizing));
      assert PrefixTie(b, moves, k + 1, depth, maximizing, best', bestMove');
    }
    if alpha' >= beta' {
      OverPrefix(b, moves, k + 1, depth, maximizing);
    }
  }

  /** Proof helper: unfolds one turn of the loop, `TryMoves` at `k` in
      terms of `TryMove` at `moves[k]`. */
  lemma TryMovesUnfold(b: Board, moves: seq<int>, k: nat, depth: int, alpha: int, beta: int, maximizing: bool,
                       best: int, bestMove: Option<int>, nodes: nat)
    requires LoopArgs(b, moves, k, maximizing, best, bestMove) && k < |moves|
    ensures var s := TryMove(b, moves[k], depth, alpha, beta, maximizing, best, bestMove);
            var r := TryMoves(b, moves, k, depth, alpha, beta, maximizing, best, bestMove, nodes);
            && (s.alpha >= s.beta ==> r == SearchResult(s.best, s.bestMove, nodes + s.child.nodes))
            && (s.alpha < s.beta ==> r == TryMoves(b, moves, k + 1, depth, s.alpha, s.beta, maximizing, s.best, s.bestMove, nodes + s.child.nodes))
  {
  }

  /** The child searched by `TryMove` is fail-soft against its minimax value. */
  lemma {:induction false} TryMoveFailSoft(b: Board, m: int, depth: int, alpha: int, beta: int, maximizing: bool,
                                           best: int, bestMove: Option<int>)
    requires 0 <= m < 9 && b[m] == Empty && alpha < beta
    decreases EmptyCount(b), 0, 0, 0
    ensures FailSoft(TryMove(b, m, depth, alpha, beta, maximizing, best, bestMove).child.value,
                     ChildValue(b, m, depth, maximizing), alpha, beta)
  {
    MakeMoveFillsOne(b, m, Mark(maximizing));
    AlphaBetaFailSoft(MakeMove(b, m, Mark(maximizing)), depth - 1, alpha, beta, !maximizing);
  }

  /** What the loop promises about its result `r`: a fail-soft bound on the
      best true value over all of `moves`, and the first move attaining it
      when it lies inside the window. */
  predicate LoopResult(b: Board, moves: seq<int>, depth: int, maximizing: bool, alpha0: int, beta0: int, r: SearchResult)
  {
    && ValidMoves(b, moves)
    && FailSoft(r.value, Over(b, moves, depth, maximizing), alpha0, beta0)
    && (r.move.Some? && alpha0 < r.value < beta0 ==> PrefixTie(b, moves, |moves|, depth, maximizing, r.value, r.move))
  }

  /** The loop has tried every move without the window closing. */
  lemma LoopDone(b: Board, moves: seq<int>, k: nat, depth: int, maximizing: bool, alpha0: int, beta0: int,
                 alpha: int, beta: int, best: int, bestMove: Option<int>, nodes: nat)
    requires k == |moves|
    requires LoopInv(b, moves, k, depth, maximizing, alpha0, beta0, alpha, beta, best, bestMove)
    ensures LoopResult(b, moves, depth, maximizing, alpha0, beta0, TryMoves(b, moves, k, depth, alpha, beta, maximizing, best, bestMove, nodes))
  {
    assert moves[..k] == moves;
  }

  /** Trying `moves[k]` under the invariant: either the window closes and
      the loop's result keeps its promise, or the loop goes on at `k + 1`
      from the state returned, under which the invariant holds again. */
  lemma {:induction false} LoopTurn(b: Board, moves: seq<int>, k: nat, depth: int, maximizing: bool, alpha0: int, beta0: int,
                                    alpha: int, beta: int, best: int, bestMove: Option<int>, nodes: nat)
    returns (done: bool, alpha': int, beta': int, best': int, bestMove': Option<int>, nodes': nat)
    requires k < |moves|
    requires LoopInv(b, moves, k, depth, maximizing, alpha0, beta0, alpha, beta, best, bestMove)
    decreases EmptyCount(b), 0, |moves| - k, 0
    ensures done ==> LoopResult(b, moves, depth, maximizing, alpha0, beta0, TryMoves(b, moves, k, depth, alpha, beta, maximizing, best, bestMove, nodes))
    ensures !done ==> && LoopInv(b, moves, k + 1, depth, maximizing, alpha0, beta0, alpha', beta', best', bestMove')
                      && TryMoves(b, moves, k, depth, alpha, beta, maximizing, best, bestMove, nodes)
                         == TryMoves(b, moves, k + 1, depth, alpha', beta', maximizing, best', bestMove', nodes')
  {
    var s := TryMove(b, moves[k], depth, alpha, beta, maximizing, best, bestMove);
    TryMoveFailSoft(b, moves[k], depth, alpha, beta, maximizing, best, bestMove);
    LoopStep(b, moves, k, depth, maximizing, alpha0, beta0, alpha, beta, best, bestMove, s.child.value,
             s.best, s.bestMove, s.alpha, s.beta);
    TryMovesUnfold(b, moves, k, depth, alpha, beta, maximizing, best, bestMove, nodes);
    done, alpha', beta', best', bestMove', nodes' := s.alpha >= s.beta, s.alpha, s.beta, s.best, s.bestMove, nodes + s.child.nodes;
  }

  /** The loop ends with a fail-soft bound on the node's minimax value over
      all of `moves`, and with the first strictly best move when the bound
      lies inside the window. */
  lemma {:induction false} TryMovesFailSoft(b: Board, moves: seq<int>, k: nat, depth: int, alpha0: int, beta0: int,
                                            alpha: int, beta: int, maximizing: bool, best: int, bestMove: Option<int>, nodes: nat)
    requires LoopInv(b, moves, k, depth, maximizing, alpha0, beta0, alpha, beta, best, bestMove)
    decreases EmptyCount(b), 0, |moves| - k, 1
    ensures LoopResult(b, moves, depth, maximizing, alpha0, beta0, TryMoves(b, moves, k, depth, alpha, beta, maximizing, best, bestMove, nodes))
  {
    if k == |moves| {
      LoopDone(b, moves, k, depth, maximizing, alpha0, beta0, alpha, beta, best, bestMove, nodes);
    } else {
      var done, alpha', beta', best', bestMove', nodes' := LoopTurn(b, moves, k, depth, maximizing, alpha0, beta0, alpha, beta, best, bestMove, nodes);
      if !done {
        TryMovesFailSoft(b, moves, k + 1, depth, alpha0, beta0, alpha', beta', maximizing, best', bestMove', nodes');
      }
    }
  }

  /** An inner node's result is what the loop over its legal moves promises,
      and its minimax value is the best over those moves. */
  lemma {:induction false} AlphaBetaLoop(b: Board, depth: int, alpha: int, beta: int, maximizing: bool)
    requires alpha < beta && !IsLeaf(b, depth)
    decreases EmptyCount(b), 1, 0, 0
    ensures ValidMoves(b, AvailableMoves(b))
    ensures Minimax(b, depth, maximizing) == Over(b, AvailableMoves(b), depth, maximizing)
    ensures LoopResult(b, AvailableMoves(b), depth, maximizing, alpha, beta, AlphaBeta(b, depth, alpha, beta, maximizing))
  {
    var moves := AvailableMoves(b);
    InnerHasMoves(b, depth);
    AvailableMovesSpec(b);
    assert moves[..0] == [];
    TryMovesFailSoft(b, moves, 0, depth, alpha, beta, alpha, beta, maximizing, Worst(maximizing), None, 0);
  }

  /** The first position of `AvailableMoves` attaining `v` is the lowest
      empty cell attaining it. */
  lemma PrefixTieFirstBest(b: Board, depth: int, maximizing: bool, v: int, mv: Option<int>)
    requires PrefixTie(b, AvailableMoves(b), |AvailableMoves(b)|, depth, maximizing, v, mv)
    ensures mv.Some? && FirstBest(b, depth, maximizing, mv.value, v)
  {
    var moves := AvailableMoves(b);
    AvailableMovesSpec(b);
    var j :| 0 <= j < |moves| && mv == Some(moves[j]) && ChildValue(b, moves[j], depth, maximizing) == v
             && forall i :: 0 <= i < j ==> Better(maximizing, v, ChildValue(b, moves[i], depth, maximizing));
    forall m | 0 <= m < moves[j] && b[m] == Empty
      ensures Better(maximizing, v, ChildValue(b, m, depth, maximizing))
    {
      assert m in moves;
      var i :| 0 <= i < |moves| && moves[i] == m;
      assert i < j;
    }
  }

  /** Fail-soft correctness against plain minimax, for any window with
      alpha < beta; and, when the result lies strictly inside the window, the
      move returned is the lowest-index move attaining it. */
  lemma {:induction false} AlphaBetaFailSoft(b: Board, depth: int, alpha: int, beta: int, maximizing: bool)
    requires alpha < beta
    decreases EmptyCount(b), 2, 0, 0
    ensures FailSoft(AlphaBeta(b, depth, alpha, beta, maximizing).value, Minimax(b, depth, maximizing), alpha, beta)
    ensures var r := AlphaBeta(b, depth, alpha, beta, maximizing);
            alpha < r.value < beta && !IsLeaf(b, depth) ==> FirstBest(b, depth, maximizing, r.move.value, r.value)
  {
    if !IsLeaf(b, depth) {
      AlphaBetaLoop(b, depth, alpha, beta, maximizing);
      var r := AlphaBeta(b, depth, alpha, beta, maximizing);
      if alpha < r.value < beta {
        PrefixTieFirstBest(b, depth, maximizing, r.value, r.move);
      }
    }
  }

  /** The bound in the usual three cases: inside the window the result is
      the minimax value; at or below alpha it stays at or below alpha; at or
      above beta it stays at or above beta. */
  lemma AlphaBetaWindow(b: Board, depth: int, alpha: int, beta: int, maximizing: bool)
    requires alpha < beta
    ensures var v := Minimax(b, depth, maximizing);
            var r := AlphaBeta(b, depth, alpha, beta, maximizing).value;
            && (alpha < v < beta ==> r == v)
            && (v <= alpha ==> v <= r <= alpha)
            && (v >= beta ==> beta <= r <= v)
  {
    AlphaBetaFailSoft(b, depth, alpha, beta, maximizing);
  }

  /** The top-level call, with the window (-inf, +inf): pruning changes
      nothing, the value is the minimax value, and the move is the
      lowest-index legal move whose minimax value equals it. */
  lemma AlphaBetaIsMinimax(b: Board, depth: int, maximizing: bool)
    ensures AlphaBeta(b, depth, NegInf, PosInf, maximizing).value == Minimax(b, depth, maximizing)
    ensures var r := AlphaBeta(b, depth, NegInf, PosInf, maximizing);
            !IsLeaf(b, depth) ==>
              && r.move.Some?
              && 0 <= r.move.value < 9 && b[r.move.value] == Empty
              && ChildValue(b, r.move.value, depth, maximizing) == Minimax(b, depth, maximizing)
              && forall j :: 0 <= j < r.move.value && b[j] == Empty ==> ChildValue(b, j, depth, maximizing) != Minimax(b, depth, maximizing)
  {
    AlphaBetaFailSoft(b, depth, NegInf, PosInf, maximizing);
  }

  /** At an inner node the move returned is one of the board's legal moves,
      whatever the window. */
  lemma AlphaBetaMoveAvailable(b: Board, depth: int, alpha: int, beta: int, maximizing: bool)
    requires !IsLeaf(b, depth)
    ensures var r := AlphaBeta(b, depth, alpha, beta, maximizing);
            r.move.Some? && r.move.value in AvailableMoves(b)
  {
    AvailableMovesSpec(b);
  }

  /** Pruning never costs work: the nodes visited are at most the nodes of
      the unpruned tree. */
  lemma {:induction false} AlphaBetaNodeBound(b: Board, depth: int, alpha: int, beta: int, maximizing: bool)
    decreases EmptyCount(b), 1, 0
    ensures AlphaBeta(b, depth, alpha, beta, maximizing).nodes <= TreeSize(b, depth, maximizing)
  {
    if !IsLeaf(b, depth) {
      var moves := AvailableMoves(b);
      InnerHasMoves(b, depth);
      AvailableMovesSpec(b);
      assert moves[0..] == moves;
      TryMovesNodeBound(b, moves, 0, depth, alpha, beta, maximizing, Worst(maximizing), None, 0);
    }
  }

  /** The child searched by `TryMove` visits at most the nodes of its unpruned tree. */
  lemma {:induction false} TryMoveNodeBound(b: Board, m: int, depth: int, alpha: int, beta: int, maximizing: bool,
                                            best: int, bestMove: Option<int>)
    requires 0 <= m < 9 && b[m] == Empty
    decreases EmptyCount(b), 0, 0
    ensures TryMove(b, m, depth, alpha, beta, maximizing, best, bestMove).child.nodes
            <= TreeSize(MakeMove(b, m, Mark(maximizing)), depth - 1, !maximizing)
  {
    MakeMoveFillsOne(b, m, Mark(maximizing));
    AlphaBetaNodeBound(MakeMove(b, m, Mark(maximizing)), depth - 1, alpha, beta, !maximizing);
  }

  /** The unpruned size of the moves from `k` on: the first subtree plus the rest. */
  lemma SizeOverSplit(b: Board, moves: seq<int>, k: nat, depth: int, maximizing: bool)
    requires ValidMoves(b, moves) && k < |moves|
    ensures SizeOver(b, moves[k..], depth, maximizing)
            == TreeSize(MakeMove(b, moves[k], Mark(maximizing)), depth - 1, !maximizing) + SizeOver(b, moves[k + 1..], depth, maximizing)
  {
    assert moves[k..][1..] == moves[k + 1..];
  }

  /** The loop visits at most the subtrees of the moves it has left. */
  lemma {:induction false} TryMovesNodeBound(b: Board, moves: seq<int>, k: nat, depth: int, alpha: int, beta: int, maximizing: bool,
                                             best: int, bestMove: Option<int>, nodes: nat)
    requires LoopArgs(b, moves, k, maximizing, best, bestMove)
    decreases EmptyCount(b), 0, |moves| - k
    ensures TryMoves(b, moves, k, depth, alpha, beta, maximizing, best, bestMove, nodes).nodes
            <= nodes + SizeOver(b, moves[k..], depth, maximizing)
  {
    if k < |moves| {
      var s := TryMove(b, moves[k], depth, alpha, beta, maximizing, best, bestMove);
      TryMoveNodeBound(b, moves[k], depth, alpha, beta, maximizing, best, bestMove);
      SizeOverSplit(b, moves, k, depth, maximizing);
      TryMovesUnfold(b, moves, k, depth, alpha, beta, maximizing, best, bestMove, nodes);
      if s.alpha < s.beta {
        TryMovesNodeBound(b, moves, k + 1, depth, s.alpha, s.beta, maximizing, s.best, s.bestMove, nodes + s.child.nodes);
      }
      assert TryMoves(b, moves, k, depth, alpha, beta, maximizing, best, bestMove, nodes).nodes
             <= nodes + s.child.nodes + SizeOver(b, moves[k + 1..], depth, maximizing);
    }
  }
}
