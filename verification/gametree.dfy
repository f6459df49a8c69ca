/** The reference semantics of the search: plain depth-limited minimax with
    no pruning, and the number of nodes of the full game tree it walks.
    Children are the moves of `AvailableMoves`, the mover's mark being X
    when maximizing and O otherwise.
 */
module GameTree {
  import opened TicTacToe

  /** Stand-ins for the source's `-math.inf` and `math.inf`: every value of
      a position lies in -1..1, strictly between them. */
  const NegInf: int := -2
  const PosInf: int := 2

  /** The mark the side to move places. */
  function Mark(maximizing: bool): (c: Cell)
    ensures c != Empty
  {
    if maximizing then X else O
  }

  /** The starting best value of a node: the worst possible for the side to move. */
  function Worst(maximizing: bool): int
  {
    if maximizing then NegInf else PosInf
  }

  /** `x` is strictly better than `y` for the side to move. */
  predicate Better(maximizing: bool, x: int, y: int)
  {
    if maximizing then x > y else x < y
  }

  /** The better of `x` and `y` for the side to move. */
  function Pick(maximizing: bool, x: int, y: int): (r: int)
    ensures r == x || r == y
    ensures !Better(maximizing, x, r) && !Better(maximizing, y, r)
  {
    if Better(maximizing, y, x) then y else x
  }

  /** The search stops at depth 0 and at a won or drawn position. A negative
      depth never reaches 0, so it searches until the game ends. */
  predicate IsLeaf(b: Board, depth: int)
  {
    depth == 0 || Winner(b) != Undecided
  }

  /** A board that is not a leaf has at least one legal move. */
  lemma InnerHasMoves(b: Board, depth: int)
    requires !IsLeaf(b, depth)
    ensures |AvailableMoves(b)| > 0
  {
    WinnerSpec(b);
    AvailableMovesSpec(b);
  }

  /** Every move in `moves` is an empty cell of `b`. */
  predicate ValidMoves(b: Board, moves: seq<int>)
  {
    forall i :: 0 <= i < |moves| ==> 0 <= moves[i] < 9 && b[moves[i]] == Empty
  }

  /** Plain minimax value of `b` searched to `depth` plies. */
  function Minimax(b: Board, depth: int, maximizing: bool): (v: int)
    decreases EmptyCount(b), 1, 0
    ensures -1 <= v <= 1
    ensures IsLeaf(b, depth) ==> v == Evaluate(b)
  {
    if IsLeaf(b, depth) then Evaluate(b)
    else
      InnerHasMoves(b, depth);
      AvailableMovesSpec(b);
      Over(b, AvailableMoves(b), depth, maximizing)
  }

  /** The minimax value of the position after the side to move plays `m`. */
  function ChildValue(b: Board, m: int, depth: int, maximizing: bool): (v: int)
    requires 0 <= m < 9 && b[m] == Empty
    decreases EmptyCount(b), 0, 0
    ensures -1 <= v <= 1
  {
    MakeMoveFillsOne(b, m, Mark(maximizing));
    Minimax(MakeMove(b, m, Mark(maximizing)), depth - 1, !maximizing)
  }

  /** The best child value over `moves` for the side to move; `Worst` when
      there is none. */
  function Over(b: Board, moves: seq<int>, depth: int, maximizing: bool): (v: int)
    requires ValidMoves(b, moves)
    decreases EmptyCount(b), 0, |moves|
    ensures |moves| == 0 ==> v == Worst(maximizing)
    ensures |moves| > 0 ==> -1 <= v <= 1
  {
    if |moves| == 0 then Worst(maximizing)
    else
      var last := |moves| - 1;
      Pick(maximizing, Over(b, moves[..last], depth, maximizing), ChildValue(b, moves[last], depth, maximizing))
  }

  /** No move in `moves` does better than `Over`. */
  lemma {:induction false} OverBounds(b: Board, moves: seq<int>, depth: int, maximizing: bool, i: int)
    requires ValidMoves(b, moves) && 0 <= i < |moves|
    decreases |moves|
    ensures !Better(maximizing, ChildValue(b, moves[i], depth, maximizing), Over(b, moves, depth, maximizing))
  {
    var last := |moves| - 1;
    var init := moves[..last];
    var v := Over(b, moves, depth, maximizing);
    assert v == Pick(maximizing, Over(b, init, depth, maximizing), ChildValue(b, moves[last], depth, maximizing));
    if i < last {
      OverBounds(b, init, depth, maximizing, i);
      assert moves[i] == init[i];
    }
  }

  /** A non-empty `moves` has a move whose child value is `Over`. */
  lemma {:induction false} OverAttained(b: Board, moves: seq<int>, depth: int, maximizing: bool) returns (i: int)
    requires ValidMoves(b, moves) && |moves| > 0
    decreases |moves|
    ensures 0 <= i < |moves| && ChildValue(b, moves[i], depth, maximizing) == Over(b, moves, depth, maximizing)
  {
    var last := |moves| - 1;
    var init := moves[..last];
    assert Over(b, moves, depth, maximizing) == Pick(maximizing, Over(b, init, depth, maximizing), ChildValue(b, moves[last], depth, maximizing));
    if last == 0 || Over(b, moves, depth, maximizing) == ChildValue(b, moves[last], depth, maximizing) {
      i := last;
    } else {
      i := OverAttained(b, init, depth, maximizing);
      assert moves[i] == init[i];
    }
  }

  /** The value of an inner node is the best of its children's values and
      is attained by one of them. */
  lemma MinimaxIsBestChild(b: Board, depth: int, maximizing: bool)
    requires !IsLeaf(b, depth)
    ensures forall m :: 0 <= m < 9 && b[m] == Empty ==> !Better(maximizing, ChildValue(b, m, depth, maximizing), Minimax(b, depth, maximizing))
    ensures exists m :: 0 <= m < 9 && b[m] == Empty && ChildValue(b, m, depth, maximizing) == Minimax(b, depth, maximizing)
  {
    var moves := AvailableMoves(b);
    AvailableMovesSpec(b);
    InnerHasMoves(b, depth);
    forall m | 0 <= m < 9 && b[m] == Empty
      ensures !Better(maximizing, ChildValue(b, m, depth, maximizing), Minimax(b, depth, maximizing))
    {
      assert m in moves;
      var i :| 0 <= i < |moves| && moves[i] == m;
      OverBounds(b, moves, depth, maximizing, i);
    }
    var i := OverAttained(b, moves, depth, maximizing);
  }

  /** Number of nodes of the unpruned tree below `b`, `b` included. */
  function TreeSize(b: Board, depth: int, maximizing: bool): (n: nat)
    decreases EmptyCount(b), 1, 0
    ensures n >= 1
    ensures n == 1 <==> IsLeaf(b, depth)
  {
    if IsLeaf(b, depth) then 1
    else
      InnerHasMoves(b, depth);
      AvailableMovesSpec(b);
      1 + SizeOver(b, AvailableMoves(b), depth, maximizing)
  }

  /** Total size of the subtrees below the moves in `moves`. */
  function SizeOver(b: Board, moves: seq<int>, depth: int, maximizing: bool): (n: nat)
    requires ValidMoves(b, moves)
    decreases EmptyCount(b), 0, |moves|
    ensures n >= |moves|
  {
    if |moves| == 0 then 0
    else
      MakeMoveFillsOne(b, moves[0], Mark(maximizing));
      TreeSize(MakeMove(b, moves[0], Mark(maximizing)), depth - 1, !maximizing) + SizeOver(b, moves[1..], depth, maximizing)
  }
}
