# Alpha-beta tic-tac-toe, modelled in Dafny

This project models `alpha_beta_tictactoe.py`, a small demonstration of
alpha-beta pruning on tic-tac-toe. It covers two parts and proves properties
of both.

- **The position.** `TicTacToe` is a 9-cell board. The model covers its legal
  moves, making and undoing a move, the winner test over the eight fixed
  lines, and `evaluate`, which scores a board +1, -1 or 0.
- **The search.** `alphabeta` is a depth-limited, fail-soft alpha-beta search.
  It tries the legal moves in increasing index order. It keeps a new best
  move only on a strict improvement, and it stops as soon as `alpha >= beta`.

The files:

- `tictactoe.dfy` (module `TicTacToe`): the board, `AvailableMoves`,
  `MakeMove`, `UndoMove`, `Winner` and `Evaluate`.
- `gametree.dfy` (module `GameTree`): the reference semantics. `Minimax` is
  plain depth-limited minimax with no pruning. `TreeSize` is the number of
  nodes of the unpruned tree.
- `search.dfy` (module `Search`): `AlphaBeta` as a pure function. Its loop over
  the moves is `TryMoves`, one step at a time through `TryMove`. The file also
  holds the theorems relating `AlphaBeta` to `Minimax` and to `TreeSize`.
- `inplace.dfy` (module `InPlace`): the search as the source runs it, on one
  mutable `array<Cell>`. Each move is written before the recursive call and
  cleared after it. The method is proved to leave the array as it found it
  and to compute exactly `Search.AlphaBeta`.

Modelling choices:

- **Cells.** `" "`, `"X"` and `"O"` are the datatype `Cell = Empty | X | O`.
  X is the maximizing player.
- **Infinity.** `-math.inf` and `math.inf` become the integers -2 and 2
  (`NegInf`, `PosInf`). Every value a position can take lies in -1..1, and
  the search only ever tightens the window to such a value. So every
  comparison comes out as it does in the source as long as each finite
  bound the caller passes lies in -1..1. The game loop passes only
  (-inf, +inf).
- **Node counter.** The global `node_count` is returned as `SearchResult.nodes`.
  It counts one per call, leaves included.
- **Depth.** `depth` is any integer, as in the source, which tests only
  `depth == 0`. A negative depth therefore searches until the game ends.
- **Termination.** The proofs terminate on the number of empty cells.

## Model

| member | source | states |
|---|---|---|
| TicTacToe.AvailableMoves | alpha_beta_tictactoe.py:38-39 | the legal moves, scanned by index; what they are is stated by `TicTacToe.AvailableMovesSpec` and `TicTacToe.AvailableMovesCount` |
| TicTacToe.AvailableMovesCount | alpha_beta_tictactoe.py:38-39 | there is exactly one legal move per empty cell |
| TicTacToe.AvailableMovesSpec | alpha_beta_tictactoe.py:38-39 | the moves are exactly the empty cells, each in 0..8, listed in strictly increasing order and so without duplicates; there are none exactly when the board is full |
| TicTacToe.MakeMove | alpha_beta_tictactoe.py:41-42 | after the move, cell `i` holds the mark, whether or not the cell was empty before |
| TicTacToe.MakeMoveOnlyCell | alpha_beta_tictactoe.py:41-42 | a move changes no cell other than `i` |
| TicTacToe.MakeMoveFillsOne | alpha_beta_tictactoe.py:41-42 | a mark placed on an empty cell leaves exactly one empty cell fewer |
| TicTacToe.UndoMove | alpha_beta_tictactoe.py:44-45 | undoing clears cell `i` and changes no other cell |
| TicTacToe.UndoMakeRestores | alpha_beta_tictactoe.py:41-45 | undoing a move restores the board if and only if the cell was empty before the move |
| TicTacToe.Winner | alpha_beta_tictactoe.py:47-66 | the winner test: the first complete line in order, then a draw on a full board, then none; what it reports is stated by `TicTacToe.WinnerSpec` |
| TicTacToe.WinnerSpec | alpha_beta_tictactoe.py:47-66 | a win is reported exactly when some line is complete; its mark is non-empty and is the mark of the first complete line in the fixed order, even on a full board; "draw" means full with no complete line; "none" means not full and no complete line |
| TicTacToe.Evaluate | alpha_beta_tictactoe.py:69-77 | the score is always -1, 0 or 1 |
| TicTacToe.EvaluateSpec | alpha_beta_tictactoe.py:69-77 | the score is +1 exactly when X has won, -1 exactly when O has won, and 0 exactly when no line is complete (a draw or a board still in play) |
| GameTree.Mark | alpha_beta_tictactoe.py:19-20 | the mark the side to move places is never the empty cell |
| GameTree.InnerHasMoves | alpha_beta_tictactoe.py:84-92 | a board that is neither at depth 0 nor won or drawn has at least one legal move |
| GameTree.Minimax | alpha_beta_tictactoe.py:84-86 | the unpruned minimax value lies in -1..1 and is the static evaluation at a leaf |
| GameTree.MinimaxIsBestChild | alpha_beta_tictactoe.py:88-128 | at an inner node, no legal move has a better minimax value than the node, and some legal move attains it |
| GameTree.TreeSize | alpha_beta_tictactoe.py:81-82 | the unpruned tree has at least one node, and exactly one when the root is a leaf |
| GameTree.SizeOver | alpha_beta_tictactoe.py:90-97 | the subtrees below a list of moves hold at least one node per move |
| Search.AlphaBeta | alpha_beta_tictactoe.py:80-128 | the value lies in -1..1 and at least one node is counted; a leaf returns its evaluation with no move and one node; an inner node returns a move onto an empty cell and counts at least two nodes |
| Search.TryMove | alpha_beta_tictactoe.py:93-105 | one iteration keeps the child's value and the move only on a strict improvement (`>` when maximizing, `<` when minimizing), otherwise keeps the old best; it then raises alpha (maximizing) or lowers beta (minimizing) to the new best |
| Search.TryMoves | alpha_beta_tictactoe.py:90-106 | the loop never lowers the node count, and it adds at least one node once it tries a move; once a move has been tried, its result is a value in -1..1 with a move onto an empty cell |
| Search.LoopStep | alpha_beta_tictactoe.py:99-105 | one iteration keeps the loop invariant: the result so far is a fail-soft bound on the best minimax value over the moves tried, and it is the first move attaining that value; when the window closes, the result is already a bound for all the moves and lies outside the window |
| Search.TryMoveFailSoft | alpha_beta_tictactoe.py:92-95 | the child's search result is a fail-soft bound on the child's minimax value within the window it was given |
| Search.LoopTurn | alpha_beta_tictactoe.py:90-106 | under the invariant, one turn either ends the loop with its promise kept (the window closed) or hands the loop on to the next move with the invariant restored |
| Search.TryMovesFailSoft | alpha_beta_tictactoe.py:90-106 | the loop's value is a fail-soft bound on the best minimax value over all the moves; when it lies inside the window, the move is the first in order that attains it |
| Search.AlphaBetaLoop | alpha_beta_tictactoe.py:88-106 | an inner node's minimax value is the best over its legal moves, and its search result keeps the loop's promise over those moves |
| Search.PrefixTieFirstBest | alpha_beta_tictactoe.py:99-101 | the first position in the move list that attains a value is the lowest-index empty cell attaining it |
| Search.AlphaBetaFailSoft | alpha_beta_tictactoe.py:80-128 | for any window with alpha < beta, a result below beta bounds the minimax value from above and a result above alpha bounds it from below; strictly inside the window, the move returned is the lowest-index legal move attaining the value |
| Search.AlphaBetaWindow | alpha_beta_tictactoe.py:80-128 | minimax value strictly inside (alpha, beta): the result equals it; at or below alpha: the result is between it and alpha; at or above beta: the result is between beta and it |
| Search.AlphaBetaIsMinimax | alpha_beta_tictactoe.py:150-158 | with the top-level window (-inf, +inf), the value equals plain minimax; at an inner node the move is legal, attains the minimax value, and no lower-index legal move attains it |
| Search.AlphaBetaMoveAvailable | alpha_beta_tictactoe.py:90-106 | at an inner node the move returned is one of the board's available moves, for any window |
| Search.AlphaBetaNodeBound | alpha_beta_tictactoe.py:81-82 | pruning never costs work: the nodes counted are at most the nodes of the unpruned tree |
| Search.TryMoveNodeBound | alpha_beta_tictactoe.py:95 | a child's search counts at most the nodes of the child's unpruned tree |
| Search.TryMovesNodeBound | alpha_beta_tictactoe.py:90-106 | the loop counts at most the unpruned subtrees of the moves it has left |
| InPlace.MakeMoveInPlace | alpha_beta_tictactoe.py:41-42 | writing the cell of the array yields the board `MakeMove` computes |
| InPlace.UndoMoveInPlace | alpha_beta_tictactoe.py:44-45 | clearing the cell of the array yields the board `UndoMove` computes |
| InPlace.AlphaBetaInPlace | alpha_beta_tictactoe.py:80-128 | the in-place search leaves the board as it found it and returns the value, move and node count of `Search.AlphaBeta` on the board's contents |
| InPlace.TryMovesInPlace | alpha_beta_tictactoe.py:90-106 | the loop over the moves, on the mutable board, restores the board and computes `Search.TryMoves` |
| InPlace.TryMoveInPlace | alpha_beta_tictactoe.py:93-105 | make, search, undo and update restore the board and compute `Search.TryMove` |

## Left out

- `print_board` (alpha_beta_tictactoe.py:29-36) is console output.
- The `__main__` game loop (alpha_beta_tictactoe.py:131-165) is console I/O and turn alternation. Only its top-level window (-inf, +inf) is modelled, by `Search.AlphaBetaIsMinimax`.
- The global `node_count` is not modelled as process-wide state. It is a count returned with the result. Resetting it between turns belongs to the game loop.
- `math.inf` and the float-typed `alpha`/`beta` are integers, with -2 and 2 standing for the infinities. A window that pairs an infinity with a finite bound outside -1..1, such as (3, +inf) or (-inf, -3), is not modelled faithfully. Python compares 3 >= inf as false and goes on searching. The model compares 3 >= 2 as true and prunes, so its value, move and node count can differ. Every window the game loop passes, and every window the search builds below it, lies within the encoding. Finite windows that are not integers are not modelled either.
- `make_move` and `undo_move` require an index in 0..8. Python's negative indices and its `IndexError` for other indices are not modelled, since the search only passes indices of empty cells.
- `make_move` does not check that the cell is empty; it overwrites it. The model follows the code. `MakeMove` has no emptiness precondition, and `UndoMakeRestores` states the consequence: undo restores the board only when the cell was empty.
- The source has no preconditions `alpha < beta` or `depth >= 0`, so `Search.AlphaBeta` has none either. The theorems relating it to minimax assume `alpha < beta`, because with an empty window the fail-soft bound says nothing.
- Scoring a board still in play as 0 at depth 0 is modelled as written. It is the source's evaluation, not a heuristic.
- Concrete whole-game facts, for example that the empty board searched to depth 9 is a draw, are not modelled. Establishing one means evaluating the full game tree, and the general theorem `Search.AlphaBetaIsMinimax` is stated instead.
- No assumption is made that X and O alternate or that their counts match. The search places the mark chosen by `maximizing`, as the source does.
- Search.TryMoves: its contract promises at least one node once a move is tried, not one node per move tried. Counting per move would need the number of moves the loop tried before it pruned, and the loop does not return that number. `Search.TryMovesNodeBound` states the upper bound on the count.
