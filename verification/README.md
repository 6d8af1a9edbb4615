# Tic-tac-toe minimax engine, modelled in Dafny

This project models the game engine of a Java tic-tac-toe program with a minimax AI:

- setting up a new game (`Main.createNewGame`);
- the game loop's win test (`Main.checkStatus`);
- the static board evaluation (`MiniMaxAI.evaluateBoard`);
- the alpha-beta minimax search (`MiniMaxAI.miniMax`);
- the two move selectors (`MiniMaxAI.getXMove`, `MiniMaxAI.getOMove`).

The board is a flat, row-major sequence of `width * width` characters: `'X'`, `'O'` or `'_'`. A line (row, column or diagonal) is won when the sum of its character codes equals a "win sentinel": `'X' * width` or `'O' * width`.

Modules, in dependency order:

- `Cells`: the three marks, and the count of empty cells. That count is what the search decreases.
- `Game`: the `Rules` value (width and the two sentinels), the board-shape predicate `Fits`, and `CreateNewGame`.
- `Lines`: line geometry (`CellAt`), line sums, the scan order shared by both win tests, and the arithmetic linking a sentinel sum to a full line.
- `Evaluation`: `evaluateBoard`. It appears twice:
  - a recursive function that follows the source's branch order, used by the pure search;
  - a loop method that follows its loops, used by the in-place search in `Engine`. It is proved equal to the function.
- `Status`: `checkStatus`, with its strided inner loop.
- `Search`: two pure definitions and the lemmas relating them:
  - plain minimax (`Minimax`);
  - the source's fail-soft alpha-beta (`AlphaBeta`, `MaxLoop`, `MinLoop`).
- `Selection`: `getXMove` / `getOMove` as pure functions. The random tie-break is an oracle.
- `Engine`: the source's in-place algorithm on one shared `array<char>`, with every trial mark placed and taken back. It is proved to restore the board and to compute the `Search` / `Selection` functions.

Decisions the model makes explicit:

- **Sentinels.** The source keeps the width and the sentinels in static fields. Here they travel as a `Rules(width, xWin, oWin)` value.
  - `Main.java` declares `winConditions` as a `HashSet` and tests it with `contains`; the model does the same (`IsSentinel`).
  - `MiniMaxAI.java` reads `winConditions[0]` as X's sentinel and `winConditions[1]` as O's. That is an array access, so it comes from a different revision of `Main.java`. The model follows `MiniMaxAI.java`: `xWin` is compared before `oWin`.
  - `SumEncoded` states the values `createNewGame` stores.
- **Coin flips.** `Math.random() >= 0.5` becomes an oracle `coins: seq<bool>`. `coins[i]` is the flip made at cell `i`; each selector flips at most once per cell.
- **Termination.** The search terminates because every trial placement removes an empty cell. Nothing depends on `depth` being non-negative, so no precondition on `depth` is needed for the definitions.
- **Java integers.** `int` is unbounded here. `Integer.MIN_VALUE` and `Integer.MAX_VALUE` appear as the constants `IntMin` and `IntMax`. The lemmas about score ranges require `ScoreFits(depth)` (`0 <= depth` and `10 + depth <= IntMax`). That holds for `MAX_DEPTH = 12`.

## Model

| member | source | states |
|---|---|---|
| Game.CreateNewGame | Main.java:21-30 | The width is 4 for a 4x4 request and 3 otherwise. The board has width² cells, all `'_'`, so its empty count equals its length. The sentinels are 88·width and 79·width. |
| Status.NewGameUndecided | Main.java:21-30 | On a fresh game (either size) no line is won and the board evaluates to 0 at every depth. |
| Lines.SentinelMeansFullLine | Main.java:26-27 | For boards of X, O and '_' only: a line sums to O's sentinel exactly when all its cells are O, on every width. It sums to X's sentinel exactly when all its cells are X, on every width up to 15. |
| Lines.XSentinelCollidesAtWidth16 | Main.java:27 | The sum encoding stops identifying X at width 16: a line of 7 O and 9 '_' cells, not all X, sums to 88·16. |
| Lines.SumByCounts | Main.java:26-27 | A line sum is 88·#X + 79·#O + 95·#'_'. A line is all X (all O) exactly when that mark's count equals the width. |
| Lines.DiagonalSteps | MiniMaxAI.java:140-141 | Step i adds cell i·w+i to the main diagonal and cell i·w+w-1-i to the anti-diagonal. Both indices lie on the board. |
| Evaluation.EvaluateBoard | MiniMaxAI.java:122-151 | The value is one of 10+depth, -10-depth or 0. |
| Evaluation.ScanLines | MiniMaxAI.java:130-150 | Each scan step returns 10+depth, -10-depth or 0. |
| Evaluation.EvaluateBoardLoop | MiniMaxAI.java:122-151 | The loop's early returns and its diagonal accumulators produce exactly the evaluation. |
| Evaluation.RowAndColumnSums | MiniMaxAI.java:131-134 | The inner loop of step `row` computes the sums of row `row` and of column `row`. |
| Evaluation.EvaluateFollowsScanOrder | MiniMaxAI.java:130-150 | X and O are never both credited first. The value is 10+depth when X's sentinel is met first in scan order (row/column steps, then the diagonals; X before O within a step), -10-depth when O's is, and 0 otherwise. |
| Evaluation.EvaluateNonZeroIffWon | MiniMaxAI.java:112-118 | At every depth ≥ 0, the value is non-zero exactly when some row, column or diagonal sums to a sentinel. |
| Evaluation.DepthWeighting | MiniMaxAI.java:115-117 | For depths d1 > d2 ≥ 0 the sign of the value is the same, and a decided board is worth strictly more in magnitude at the greater depth. |
| Evaluation.EvaluateDetectsFullLines | MiniMaxAI.java:112-114 | On boards of X/O/'_' with the encoded sentinels: a positive value means X holds a whole line, and a negative value means O does. The value is non-zero exactly when X or O holds a whole line. |
| Status.CheckStatus | Main.java:97-117 | The result is true exactly when no line sums to a sentinel. At every depth ≥ 0 it is true exactly when the evaluation is 0. |
| Status.StridedSums | Main.java:103-106 | Stepping j by the width, cells i·w + j/w and i + j sum to row i and column i. |
| Status.SameLineTest | Main.java:107 | For depths ≥ 0, the game loop's test and the engine's evaluation agree on whether a line is won. |
| Search.Minimax | MiniMaxAI.java:7-14 | Reference value without pruning: a terminal board (evaluation non-zero, depth 0, or no `'_'` left) is worth its evaluation. Otherwise the side to move tries its mark on every empty cell in index order and takes the maximum (X) or minimum (O) of the children searched one ply shallower. No contract of its own; Search.MinimaxIsBestMove states what it means. |
| Search.AlphaBeta | MiniMaxAI.java:22-69 | The source's search as a pure function: the same terminal test as `miniMax` (lines 23-36), then the maximising loop from MIN_VALUE for X or the minimising loop from MAX_VALUE for O. No contract of its own; Search.AlphaBetaFailSoft and Search.AlphaBetaIsMinimax relate it to Search.Minimax. |
| Search.MaxLoop | MiniMaxAI.java:40-52 | Cells in index order, occupied ones skipped. On an empty cell it takes the maximum with the child's value at depth-1, with O to move and the current window, raises alpha to the running highest value, and stops with that value once alpha ≥ beta. The result is never below the running highest value it starts from. |
| Search.MinLoop | MiniMaxAI.java:55-67 | Mirror of the maximising loop: it takes the minimum with the child's value (X to move), lowers beta to the running lowest value, and stops with that value once beta ≤ alpha. The result is never above the running lowest value it starts from. |
| Search.AlphaBetaFailSoft | MiniMaxAI.java:22-69 | For every window alpha < beta the pruned value is fail-soft against plain minimax: <br>• at or below alpha, it bounds the true value from above; <br>• at or above beta, from below; <br>• strictly inside the window, it equals the true value. |
| Search.MaxLoopFailSoft | MiniMaxAI.java:39-52 | Invariant of the maximising loop: raising alpha to the running highest value and cutting off at alpha ≥ beta keeps the fail-soft relation with the unpruned maximum. |
| Search.MinLoopFailSoft | MiniMaxAI.java:54-67 | Invariant of the minimising loop: lowering beta and cutting off at beta ≤ alpha keeps the fail-soft relation with the unpruned minimum. |
| Search.AlphaBetaRange | MiniMaxAI.java:33-36 | For any window, the value lies within ±(10+depth). At a non-terminal node it lies within ±(9+depth), so the starting MIN_VALUE/MAX_VALUE never come back. |
| Search.MaxLoopRange | MiniMaxAI.java:40-52 | A maximising loop that starts from MIN_VALUE with an empty cell ahead returns a value within ±(9+depth). |
| Search.MinLoopRange | MiniMaxAI.java:55-67 | A minimising loop that starts from MAX_VALUE with an empty cell ahead returns a value within ±(9+depth). |
| Search.AlphaBetaIsMinimax | MiniMaxAI.java:83-84 | With the widest window, as the selectors call it, alpha-beta returns exactly the plain minimax value, which lies within ±(10+depth). |
| Search.MinimaxIsBestMove | MiniMaxAI.java:7-14 | A leaf is worth its evaluation. An inner node is worth the value of one of its moves, and no move is better for the side to move. |
| Selection.MoveValue | MiniMaxAI.java:82-84 | Value of a trial move: the mover's mark on cell i, then the opponent searched MAX_DEPTH plies with the window (MIN_VALUE, MAX_VALUE). No contract of its own; Selection.MoveValueIsMinimax states what it equals. |
| Selection.SelectLoop | MiniMaxAI.java:80-90 | The selectors' loop: cells in index order, occupied ones skipped. A strictly better value (greater for X, smaller for O) replaces the kept move. An equal value replaces it only when the coin at that cell is heads. No contract of its own; Selection.SelectLoopFound and Selection.SelectLoopBest state what it returns. |
| Selection.MoveValueIsMinimax | MiniMaxAI.java:82-84 | The value of a trial move equals the plain minimax value of the board it leaves, within ±22. |
| Selection.SelectLoopFound | MiniMaxAI.java:77-91 | The loop returns -1 only when nothing was kept and no empty cell is left. Otherwise it returns an empty cell. |
| Selection.SelectLoopBest | MiniMaxAI.java:80-90 | The returned cell is at least as good as the kept value and as every later empty cell. |
| Selection.GetXMove | MiniMaxAI.java:76-92 | For every coin outcome: -1 exactly when no cell is empty. Otherwise an empty cell whose move value is the maximum over all empty cells. |
| Selection.GetOMove | MiniMaxAI.java:94-110 | For every coin outcome: -1 exactly when no cell is empty. Otherwise an empty cell whose move value is the minimum over all empty cells. |
| Selection.EveryBestMoveCanBeChosen | MiniMaxAI.java:86 | The coin can reach every best move: with heads at that cell and tails elsewhere, the selector returns it. |
| Selection.WinningMoveValue | MiniMaxAI.java:33-36 | If the opponent holds no line, a move completes a line for the mover exactly when its value is ±(10+MAX_DEPTH). |
| Selection.ImmediateWinIsChosen | MiniMaxAI.java:76-110 | If some empty cell completes a line for the mover and the opponent holds none, the selector returns a winning cell, whatever the coins. |
| Engine.AnyMovesAvailable | MiniMaxAI.java:26-32 | The scan reports an available move exactly when the board has an empty cell. |
| Engine.MiniMax | MiniMaxAI.java:22-69 | The in-place search leaves the board as it found it and returns the alpha-beta value. A terminal board returns its evaluation. |
| Engine.MaximiseInPlace | MiniMaxAI.java:39-52 | Placing X, recursing and undoing on each empty cell restores the board and yields the maximising loop's value. |
| Engine.MinimiseInPlace | MiniMaxAI.java:54-67 | Placing O, recursing and undoing on each empty cell restores the board and yields the minimising loop's value. |
| Engine.SelectInPlace | MiniMaxAI.java:80-90 | The shared selector loop restores the board and returns the pure selector's move. |
| Engine.GetXMove | MiniMaxAI.java:76-92 | The in-place X selector restores the board and returns `Selection.GetXMove`. |
| Engine.GetOMove | MiniMaxAI.java:94-110 | The in-place O selector restores the board and returns `Selection.GetOMove`. |

## Left out

- The GUI is not part of this model: `Board.java`, `TicTacToe.java`, and the Swing calls in `createNewGame` (lines 20, 22). So are `runningGame`, `preventPlayerInteraction`, `declareWinner` and `main`. They handle threads, sleeps, dialogs and buttons.
- `validInputs` (Main.java:24-25) is filled but never read in these files; it is left out as input handling.
- `runningGame` calls `MiniMaxAI.getBestMoveForX` / `getBestMoveForO`, which return a row/column pair. No such methods exist in `MiniMaxAI.java`, so they are not modelled; `getXMove` / `getOMove` are.
- `Math.random()` is not modelled as a distribution. Its outcomes are the `coins` oracle, and every selector property holds for all outcomes.
- Java's 32-bit `int` arithmetic is not modelled. This includes overflow of `10 + depth` and `Math.abs(Integer.MIN_VALUE)` being negative. The terminal test `Math.abs(boardVal) > 0` is modelled as `boardVal != 0`; the two differ only at `Integer.MIN_VALUE`.
- The program only ever builds boards of width² cells (Main.java:21, 28), and every board operation of the model requires that shape (`Fits`, with width ≥ 1). On a shorter board the source indexes out of bounds. A longer board, which the program never builds, is not modelled: on one, `checkStatus` would sum w+1 or more cells per row and column, and it would index out of bounds when the length is not a multiple of the width.
- Search.AlphaBetaRange: requires `ScoreFits(depth)`, because with negative depths the ±(10+depth) bound is not meaningful.
- Search.AlphaBetaIsMinimax: requires `ScoreFits(depth)`. The equality needs the root window to contain every score.
- Search.MinimaxIsBestMove: requires `ScoreFits(depth)`, so that the fold's starting value is never the answer.
- Evaluation.EvaluateNonZeroIffWon: requires `depth >= 0`. At depth -10 both win scores are 0, and a won board evaluates to 0.
- Evaluation.EvaluateDetectsFullLines: requires cells drawn from X, O and '_' and a width of at most 15, where the sum encoding is exact (see Lines.XSentinelCollidesAtWidth16).
- Selection.WinningMoveValue: same cell and width conditions as Evaluation.EvaluateDetectsFullLines.
- Selection.ImmediateWinIsChosen: same cell and width conditions as Evaluation.EvaluateDetectsFullLines.
- No concrete game or concrete board is evaluated. Unfolding the full 9-cell search tree is beyond what the verifier can settle; the properties are proved for all boards instead.
