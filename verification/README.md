# Tic-tac-toe with a minimax agent, modelled in Dafny

The repository plays tic-tac-toe. It has two parts:

- `TicTacToe` (TicTacToeGame.py) is a 3x3 board plus three fields: the player to move, a game-over flag and the winner. Its operations place a mark, detect a winning line or a draw, and list the legal moves.
- `MinimaxAgent` (MinimaxAgent.py) picks a move. It runs minimax with alpha-beta pruning on the live game object. Each move is made with `make_move` and undone by hand.

The model keeps both parts in their imperative form and proves them against pure definitions. It is split into these modules:

| file | module | contents |
|---|---|---|
| `optional.dfy` | `Optional` | `Option`, the source's `None`-or-value results |
| `board.dfy` | `Board` | Pure board logic on a nine-cell row-major `seq<int>`: the line/draw verdict `Outcome`, the move list `ValidMoves`, and the empty-cell count `Empties` |
| `game.dfy` | `Game` | Class `TicTacToe`, whose board is an `array<int>` of length 9 updated in place |
| `game_tree.dfy` | `GameTree` | The reference value: plain `Minimax` without pruning, over the same moves in the same order |
| `agent.dfy` | `Agent` | Class `MinimaxAgent`: the search proved against `Minimax`, and the root move choice proved first-optimal |

`TicTacToe.Valid()` is the class invariant:
- every cell is -1, 0 or 1;
- the player to move is 1 or -1;
- `winner` is None exactly while the game is not over;
- `winner` equals `Outcome` of the board.
- a winner owns every winning line on the board (`OwnsEveryLine`), so the detector's scan order never decides who won.

### Scores

Scores are integers scaled by 10. A finished position at depth `d` scores `reward * (10 - d)`. The source computes `reward * (1 - d * 0.1)`.
- The search never scores a finished position deeper than depth 8.
- Over depths 0..8 the two forms order every pair of scores the same way.
- The `float('inf')` sentinels become `NegInf = -11` and `PosInf = 11`. Both lie outside [-10, 10].

### What the search proves

- **Fail-soft contract.** Each search method is fail-soft with respect to the reference value `v = Minimax(board, maximizing, depth)`. For a returned score `r`:
  - `r` is exact (`r == v`) strictly inside the window;
  - `r` is an upper bound of `v` at or below `alpha`;
  - `r` is a lower bound of `v` at or above `beta`.
- **State restored.** The game is left exactly as it was found.
- **Termination.** Each ply fills one empty cell, and `Empties` is the decreasing measure.
- **Root choice.** `GetMove` returns the first legal move in row-major order whose value is optimal for the agent.

## Model

The contracts below are stated in terms of these reference definitions:

- `Board.FirstWin(b, j)` is the owner of the first winning line at or after scan position `j`, in the detector's order: row i then column i for i = 0, 1, 2, then the main diagonal, then the anti-diagonal. The owner is the line's first cell. `Board.Outcome` is that owner, else Some(0) on a full board, else None.
- `GameTree.Minimax(b, maximizing, depth)` is plain minimax with no pruning. A finished board scores `TerminalScore(reward, depth)`. An unfinished board takes the `Best` (largest for X, smallest for O) of its legal moves' values, over `ValidMoves` in row-major order.
- `GameTree.ChildValue(b, m, maximizing, depth)` is the value of playing `m`: `Minimax` of the resulting board, with the other side to move, scored at `depth`.
- `GameTree.RootScore(b, m, player)` is the unpruned value of root move `m`: its `ChildValue` at depth 0. `get_move`'s own score for `m` equals it whenever that score beats the best so far. Otherwise the narrowed root window may make that score only a bound, which never changes the choice.
- `GameTree.FirstOptimal(b, player, m)` says three things about `m`:
  - it is a legal move;
  - no legal move has a better `RootScore` for `player`;
  - its `RootScore` is strictly better than that of every legal move before it in row-major order.
- "Fail-soft with respect to `v`", for a returned score `r` and window (alpha, beta), means three things:
  - `r == v` when alpha < r < beta;
  - `v <= r` when r <= alpha;
  - `v >= r` when r >= beta.

| member | source | states |
|---|---|---|
| Board.SumDetectsLine | TicTacToeGame.py:26 | For cells in {-1, 0, 1}, the test `abs(sum) == 3` holds exactly when all three cells are equal and non-zero |
| Board.FirstWinFinds | TicTacToeGame.py:24-44 | The line scan from a position reports a line exactly when some later line is won, and what it reports is the owner of a won line |
| Board.ScanRowCol | TicTacToeGame.py:24-34 | Scan steps 2i and 2i+1 are row i then column i, tested by their sums; a hit reports board[i,0] for the row and board[0,i] for the column |
| Board.ScanDiagonals | TicTacToeGame.py:36-44 | The last two scan steps are the main diagonal, reporting board[0,0], then the anti-diagonal, reporting board[0,2] |
| Board.Outcome | TicTacToeGame.py:21-49 | The detector's verdict: None exactly when there is no winning line and the board is not full; Some(0) exactly when there is no winning line and the board is full; otherwise the owner of a winning line |
| Board.OutcomeNamesOwner | TicTacToeGame.py:24-44 | When every winning line belongs to one player, the verdict names that player |
| Board.MoverOwnsNewLines | TicTacToeGame.py:16-17 | Marking an empty cell of a board with no winning line creates only lines owned by the mover |
| Board.MovesFrom | TicTacToeGame.py:53 | The comprehension from a row-major position on: only empty, on-board cells, at or after that position |
| Board.ValidMoves | TicTacToeGame.py:51-53 | At most nine moves, all of them on empty cells |
| Board.ValidMovesExact | TicTacToeGame.py:51-53 | A move is listed exactly when it is on the board and its cell is empty, in strictly increasing row-major order, so each move appears once |
| Board.NotFullHasMove | MinimaxAgent.py:72-74 | A board that is not full has at least one legal move, so an unfinished search always has a child |
| Board.FillShrinks | MinimaxAgent.py:74-76 | Each `make_move` of the search lowers the empty-cell count by one, which is why the recursion terminates |
| Game.TicTacToe.constructor | TicTacToeGame.py:5-9 | A fresh all-zero board, X (1) to move, not over, no winner; the class invariant holds |
| Game.TicTacToe.MakeMove | TicTacToeGame.py:11-19 | Refuses exactly when the game is over, the coordinates are outside 0..2, or the cell is taken, and then changes nothing. Otherwise only the target cell changes, to the mover's mark, and the turn passes even when the move ended the game. A winner set by the move is the mover and owns every winning line. The invariant is kept. |
| Game.TicTacToe.CheckGameOver | TicTacToeGame.py:21-49 | On a finished board sets `game_over` and records the verdict: the owner of the first winning line in scan order, else 0 for a draw. Otherwise leaves both fields as they were. |
| Game.TicTacToe.GetValidMoves | TicTacToeGame.py:51-53 | Lists every empty cell, each once, in row-major order |
| Game.TicTacToe.GetState | TicTacToeGame.py:55-57 | Returns a fresh array holding the board's cells |
| Game.TicTacToe.IsTerminal | TicTacToeGame.py:59-61 | Under the invariant, true exactly when a line is won or the board is full |
| Game.TicTacToe.GetReward | TicTacToeGame.py:63-69 | None exactly while the game runs. Under the invariant it is the verdict itself: 0 for a draw, the winner's mark (1 or -1) otherwise. |
| Game.TicTacToe.Reset | TicTacToeGame.py:71-76 | A new all-zero board, X to move, not over, no winner; the invariant holds |
| GameTree.TerminalScore | MinimaxAgent.py:67-70 | For depth at most 8 the score is in [-10, 10] and keeps the reward's sign: positive exactly for a win of X, negative exactly for a win of O |
| GameTree.QuickerOutcomeWeighsMore | MinimaxAgent.py:69-70 | A shallower win scores strictly higher and a shallower loss strictly lower than a deeper one |
| GameTree.Best | MinimaxAgent.py:82-86 | The left-to-right max (or min) fold of the child values is one of them and bounds all of them |
| GameTree.ChildValues | MinimaxAgent.py:74-76 | One value per legal move, in the order the moves are tried |
| GameTree.ChildValuesAt | MinimaxAgent.py:74-76 | Entry k of the value list is the value of the k-th move |
| GameTree.MoveValues | MinimaxAgent.py:72-101 | On an unfinished board the legal moves' values are listed per move, and the minimax value one level up is their best |
| GameTree.MinimaxChoosesExtreme | MinimaxAgent.py:72-101 | On an unfinished board the minimax value is at least (X to move) or at most (O to move) every legal move's value, and some legal move attains it |
| GameTree.MinimaxRange | MinimaxAgent.py:67-70 | When depth plus the empty-cell count is at most 8, every minimax value lies in [-10, 10], strictly inside the sentinels |
| GameTree.FirstOptimalUnique | MinimaxAgent.py:41-50 | The row-major tie-break makes the chosen move unique |
| GameTree.FirstOptimalFromScan | MinimaxAgent.py:40-52 | If the score at a position of the move list is beaten by none and strictly beats every earlier one, that move is the first optimal move |
| Agent.MinimaxAgent.constructor | MinimaxAgent.py:6-12 | Stores the agent's mark |
| Agent.MinimaxAgent.AlphaBeta | MinimaxAgent.py:54-101 | When `is_maximizing` matches the player to move: score in [-10, 10], fail-soft with respect to `Minimax`, and the game (board, turn, flag, winner) left exactly as found |
| Agent.MinimaxAgent.MaxValue | MinimaxAgent.py:72-86 | X's loop, with a running maximum and alpha raised by each child and a cut-off once beta <= alpha: fail-soft with respect to `Minimax`, and the state is restored |
| Agent.MinimaxAgent.MinValue | MinimaxAgent.py:87-101 | O's loop, with a running minimum and beta lowered by each child and a cut-off once beta <= alpha: fail-soft with respect to `Minimax`, and the state is restored |
| Agent.MinimaxAgent.ScoreMove | MinimaxAgent.py:74-80 | Make, search, undo. The `make_move` always succeeds, the child's score is fail-soft with respect to the child's value, and the undo restores board, flag, winner and turn exactly. |
| Agent.MaxStep | MinimaxAgent.py:82-85 | Without a cut-off, the new running maximum bounds every child value seen so far |
| Agent.MinStep | MinimaxAgent.py:97-100 | Without a cut-off, the new running minimum bounds every child value seen so far |
| Agent.MinimaxAgent.GetMove | MinimaxAgent.py:14-52 | On an unfinished game with the agent to move, returns Some legal move. That move is optimal for the agent and strictly better than every earlier legal move in row-major order. The game is left exactly as found. |

## Left out

- PlayAgainstAI.py is not part of this model. It is console I/O: prompts, retries and directory cleanup. Its coordinate and occupancy check repeats `make_move`'s guard.
- TicTacToeVisualizer.py is not part of this model. It draws with matplotlib and writes image files.
- `TicTacToe.__str__` and the `__main__` demo blocks are display and example drivers only.
- The self-play draw from the empty board is not proved. It would need the whole game tree evaluated inside the verifier.
- Floating point is not modelled. Scores are the source's reals times 10, as exact integers. The infinite sentinels are ±11.
- numpy is not modelled. The 3x3 array is a length-9 `array<int>` indexed `3 * row + col`. `get_state`'s `.copy()` is a fresh array.
- Agent.MinimaxAgent.AlphaBeta: requires three things the source relies on and never checks: `is_maximizing` matches the player to move; depth plus the empty-cell count is at most 8; and the window satisfies `NegInf <= alpha < beta <= PosInf` (the same window requirement is on `MaxValue`, `MinValue` and `ScoreMove`). Every call the source makes satisfies them: the loops stop once `beta <= alpha`, and the root narrows its window only to a finite best score.
- Agent.MinimaxAgent.GetMove: requires an unfinished game with the agent to move. On a finished game, `make_move` refuses, yet the source's undo still clears `game_over` and `winner`. Under this precondition the source's `None` result, which comes from an empty move list, cannot happen.
- Agent.MinimaxAgent.MaxValue: the body breaks where the source does, but the contract does not state how many children were searched before the cut-off.
- Agent.MinimaxAgent.MinValue: as for MaxValue.
- Agent.MinimaxAgent.ScoreMove: the source repeats make, search and undo at three sites. The model has one method for them, which receives the hard-coded turn value as `restore`.
- No finished position is scored deeper than depth 8: the root move is made before the search starts at depth 0, so the smallest factor is 2 (0.2 unscaled).
- `get_reward` returns -1 for any non-zero winner other than 1; under the class invariant that winner is -1.
