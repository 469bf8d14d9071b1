# Reversi engine: a verified Dafny model

This project models the search engine of a command-line Othello/Reversi program and the
game driver around it. The board has 8×8 integer cells. A cell holds `1` (black, the MAX
player), `-1` (white, the MIN player) or `0` (empty). The following are modelled:

- the move rule: `validMove` and its in-place twin `ReversiGame::placePiece`;
- the two static evaluators (piece difference and positional weights) and their constant tables;
- the two searches (`miniMax` and fail-soft `alphaBeta` with its (−INF, INF) root wrapper) and
  the task codes that select a search and an evaluator;
- the decision trace the searches log, gated by the one-shot `stopLog` latch;
- `ReversiGame::isGameOver` and the turn loop of `ReversiGame::solve`, with its passes and latch.

Modules, one per file:

- `Constants` (constants.dfy): `ReversiGame.hpp`. It has the cell and player codes, `INF`, the
  direction table and the weight table, with their symmetry and size facts.
- `MoveRules` (moves.dfy): the move rule.
  - Specification: `Scan`/`RunEnd` follow one direction, `Paint` is the flipping loop,
    `FlipDirs`/`Flip` run all eight directions in table order, and `IsLegal` is legality.
  - Imperative methods on `array<int>`: `ScanDirection`, `PaintRun`, `FlipDirection` and
    `ValidMove`. The last is proved equal to the specification.
  - Rays from the target in different directions are disjoint. So scanning `outBoard` while
    earlier directions are being flipped reads the same cells as scanning `board`.
- `Evaluation` (evaluation.dfy): `NumberOfPieces` and `PositionalWeights` as loops. Each is
  proved equal to a row-by-row sum. Lemmas give bounds, colour-swap negation and values on
  small boards.
- `Trace` (trace.dfy): the record of one log call, and the text line it is written as.
- `GameTree` (game_tree.dfy): the specification of the searches.
  - `LegalMoves` lists the legal moves in row-major order.
  - `Minimax`/`MinimaxLoop` and `AlphaBeta`/`AlphaBetaLoop` are functions that follow the C
    code step by step, including the records they log.
  - `Value` is an independent reference: a leaf is evaluated, and an inner node takes the max
    or min of its children's values. It is the partner of both searches.
- `Search` (search.dfy): `MiniMax`, `AlphaBeta`, `AlphaBetaRoot` and `RunSearch` as methods on
  arrays, proved equal to the `GameTree` functions.
  - Each C search function is split along its loops: setup (`MiniMax`), the loop over the
    collected moves (`MiniMaxMoves`) and one loop body (`MiniMaxTry`). The same split is used
    for `AlphaBeta`.
  - The searches have no `modifies` clause, so they never write their board argument.
- `Game` (game.dfy): the driver.
  - `class ReversiGame` has fields `mBoard`/`mOutBoard` (arrays), the selected search and
    evaluator, the latch and the log. Its methods are `PlacePiece`, `IsGameOver` and `Solve`,
    with `SolveStep` as one pass of the loop body.
  - `Turn` and `Play` describe the loop as a state machine over a `Game` value. `Solve` is
    proved to end in the state `Play` computes.

The parameter called `cutOffDepth` in the source is the current ply. It starts at 1 and the
search stops below `maxDepth`. The model names them `d` and `D`, and recursion decreases
`D - d + 1`.

The scan of a direction steps over a cell holding a value other than `1`, `-1` or `0`, as the C
loop at reversi.cpp:212-241 does. Only boards that are not well formed have such cells, and on
well-formed boards `RunEndIff` shows the scan is the usual bracket rule.

## Model

| member | source | states |
|---|---|---|
| Constants.PlayerEncoding | ReversiGame.hpp:8-10 | the opponent of a player is its negation, which is again a player and never the empty code; black and white are each other's opponent |
| Constants.DirectionTable | ReversiGame.hpp:30 | the direction table has 8 distinct unit steps (components in {−1,0,1}, not both 0), and each step's negation is also in the table |
| Constants.WeightRowsMirrored | ReversiGame.hpp:21-28 | the weight table is unchanged by reversing its rows |
| Constants.WeightColumnsMirrored | ReversiGame.hpp:21-28 | the weight table is unchanged by reversing each row |
| Constants.WeightTransposed | ReversiGame.hpp:21-28 | the weight table equals its transpose |
| Constants.WeightCorners | ReversiGame.hpp:21-28 | the four corners weigh 99 and their four diagonal neighbours weigh −24 |
| Constants.WeightMass | ReversiGame.hpp:12-28 | the absolute weights sum to 784, which is below INF |
| MoveRules.Scan | reversi.cpp:212-241 | the scan of a direction is 0 (abandoned) or the step 2..7 of the closing piece, which lies on the board |
| MoveRules.RunEndIff | reversi.cpp:212-241 | on a well-formed board, a direction closes at step r exactly when steps 1..r−1 hold opponent pieces (at least one) and step r holds the player's piece |
| MoveRules.QualifiesAny | reversi.cpp:210-241 | after n directions the move counts as valid exactly when one of those directions has a run |
| MoveRules.LegalIff | reversi.cpp:202-241 | a placement is legal exactly when the target is empty and some direction brackets a run of opponent pieces |
| MoveRules.RaysDisjoint | reversi.cpp:210-213 | the rays of two different directions never share a cell beyond the origin |
| MoveRules.OffRay | reversi.cpp:210-241 | flipping the first n directions leaves every cell on direction n's ray as it was |
| MoveRules.ScanIsScanFrom | reversi.cpp:212-241 | scanning the partly flipped output board gives the same result as scanning the input board |
| MoveRules.FlipCells | reversi.cpp:222-228 | after a legal move, the origin and exactly the opponent cells of the qualifying runs hold the player; every other cell is unchanged, including the closing own pieces |
| MoveRules.FlipWithoutRun | reversi.cpp:208-241 | when no direction qualifies, the output board equals the input board |
| MoveRules.PaintedOccupied | reversi.cpp:222-228 | every flipped cell other than the origin was occupied before the move |
| MoveRules.FlipFillsOrigin | reversi.cpp:222-228 | a legal move puts the player on the origin; a cell is empty afterwards exactly when it was empty before and is not the origin |
| MoveRules.FlipWellFormed | reversi.cpp:222-228 | flipping keeps every cell in {−1, 0, 1} |
| MoveRules.ScanDirection | reversi.cpp:212-241 | the inner scanning loop returns the step of the closing piece, or 0 |
| MoveRules.PaintRun | reversi.cpp:222-228 | the count loop writes the player on steps 0..run−1 of the direction, and nothing else |
| MoveRules.FlipDirection | reversi.cpp:210-241 | one direction reports a flip exactly when its scan of the input board succeeds, and paints that run |
| MoveRules.ValidMove | reversi.cpp:200-244 | on an occupied target it returns false and leaves `outBoard` untouched; otherwise it returns legality and leaves the flipped board in `outBoard` |
| Evaluation.NumberOfPieces | reversi.cpp:246-266 | the counting loops return the row-major piece difference |
| Evaluation.PositionalWeights | reversi.cpp:268-280 | the summing loops return Σ cell·weight |
| Evaluation.Evaluate | reversi.cpp:246-280 | calling the selected evaluator returns `Score` of the board |
| Evaluation.PieceDifferenceIsCount | reversi.cpp:246-266 | the piece difference is #black − #white over the whole board |
| Evaluation.PieceDifferenceBound | reversi.cpp:246-266 | the piece difference lies in [−64, 64] |
| Evaluation.PositionalScoreBound | reversi.cpp:268-280 | on a well-formed board the positional score lies in [−784, 784] |
| Evaluation.ScoreInsideSentinels | reversi.cpp:246-280 | every evaluation of a well-formed board lies strictly inside (−INF, INF), so it never equals a sentinel |
| Evaluation.ScoreSwapped | reversi.cpp:246-280 | swapping the colour of every piece negates both evaluators |
| Evaluation.LonePiece | reversi.cpp:246-280 | a board with one piece v at (i, j) has piece difference v and positional score v·weight(i, j) |
| Evaluation.LoneCornerScores | reversi.cpp:268-280 | a lone black piece scores 99 at (0,0) and −24 at (1,1) |
| Evaluation.EmptyBoardScoresZero | reversi.cpp:246-280 | both evaluators give 0 on the empty board |
| Trace.NatToStringRoundTrip | reversi.cpp:127 | a row number is written as a non-empty digit string that reads back as the number |
| Trace.ValueTextSentinels | reversi.cpp:165-183 | a value is written "Infinity" or "-Infinity" exactly when it equals +INF or −INF |
| Trace.ValueTextRoundTrip | reversi.cpp:165-183 | every logged value reads back as itself: the sentinels by name, any other value as an optional '-', its decimal digits and ".0" |
| Trace.NodeLabelRoundTrip | reversi.cpp:119-130 | the node label is "root" exactly at depth 1; otherwise it is the column letter then the 1-based row, and reads back as the cell |
| Trace.CutOffMarker | reversi.cpp:158-162 | an alpha-beta line ends with " CUT-OFF" exactly when the record marks a cutoff |
| GameTree.LegalMovesExactly | reversi.cpp:307-317 | the collected moves are exactly the legal cells, in strictly increasing row-major order |
| GameTree.BetterIsProduct | reversi.cpp:336 | the test `value * player > best * player` means "strictly better for the player" |
| GameTree.SentinelLoses | reversi.cpp:291 | every score is strictly better for the player than the starting sentinel `-player * INF` |
| GameTree.ValueBound | reversi.cpp:282-349 | the value of every node of a well-formed board is a score in [−784, 784] |
| GameTree.MinimaxIsValue | reversi.cpp:282-349 | minimax returns the evaluation beyond the cutoff or with no legal move, and otherwise the max (black) or min (white) of its children's values |
| GameTree.MinimaxMove | reversi.cpp:327-346 | when a legal move exists, (x, y) is a legal move that reaches the value, no move is better, and every earlier move is strictly worse |
| GameTree.Update | reversi.cpp:406-460 | one alpha-beta loop step marks a cutoff exactly when alpha ≥ beta afterwards |
| GameTree.MaxLoopFailSoft | reversi.cpp:406-431 | at a MAX node alpha stays max(alpha on entry, bestVal), a cut happens exactly when bestVal ≥ beta, and bestVal is a fail-soft bound on the children's max |
| GameTree.MinLoopFailSoft | reversi.cpp:433-460 | at a MIN node beta stays min(beta on entry, bestVal), a cut happens exactly when bestVal ≤ alpha, and bestVal is a fail-soft bound on the children's min |
| GameTree.MinUpdateIsMin | reversi.cpp:438-453 | at a MIN node the coupled assignment `beta = bestVal = value` leaves bestVal = min(bestVal, value) |
| GameTree.AlphaBetaFailSoft | reversi.cpp:351-467 | with alpha < beta, alpha-beta returns a score that equals the true value inside the window and bounds it from the right side outside |
| GameTree.AlphaBetaRootIsMinimax | reversi.cpp:469-481 | the (−INF, INF) wrapper returns the same value, the same (x, y) and the same move flag as minimax |
| GameTree.MovedIffLegalMove | reversi.cpp:307-323 | both searches report a move exactly when the ply is within the cutoff and the player has a legal move |
| GameTree.MinimaxSilent | reversi.cpp:113-118 | with the latch set, minimax logs nothing |
| GameTree.AlphaBetaSilent | reversi.cpp:133-138 | with the latch set, alpha-beta logs nothing |
| GameTree.MinimaxLogged | reversi.cpp:296-343 | every record a minimax node logs is at its ply or deeper and can be written (root, or a label on the board) |
| GameTree.MinimaxRecords | reversi.cpp:325-343 | with logging on, a minimax node with k legal moves logs 1 + k records at its own ply |
| Search.TaskSearch | reversi.cpp:483-501 | for every task code, the selected search with the selected evaluator returns the reference value `Value` under that evaluator, reports a move exactly when the cutoff allows one and a legal move exists, and plays the first legal move in row-major order that reaches the value |
| Search.SearchesAgree | reversi.cpp:282-481 | both searches return the reference value, the same move and the same move flag |
| Search.CollectMoves | reversi.cpp:305-317 | the collecting loops return exactly `LegalMoves`, in row-major order |
| Search.MiniMax | reversi.cpp:282-349 | returns the value, move and trace of `Minimax`; `canMove` becomes `canMove \|\| moved`; the board is not written |
| Search.MiniMaxMoves | reversi.cpp:327-346 | the loop over the collected moves computes `MinimaxLoop` |
| Search.MiniMaxTry | reversi.cpp:329-345 | one loop body: re-validation succeeds, the child is searched on the flipped board, the best move changes only on a strict improvement, and one record is logged |
| Search.AlphaBeta | reversi.cpp:351-467 | returns the value, move and trace of `AlphaBeta`; `canMove` becomes `canMove \|\| moved`; the board is not written |
| Search.AlphaBetaMoves | reversi.cpp:397-465 | the loop over the collected moves, left at the first cutoff, computes `AlphaBetaLoop` |
| Search.AlphaBetaTry | reversi.cpp:399-462 | one loop body: the MAX/MIN bookkeeping of alpha, beta and bestVal equals `Update`, and the cut flag is alpha ≥ beta |
| Search.AlphaBetaRoot | reversi.cpp:469-481 | the wrapper searches with the window (−INF, INF) |
| Search.RunSearch | ReversiGame.cpp:104 | calling the selected search returns `Searched` |
| Game.FullIffNoEmpty | ReversiGame.cpp:223-237 | a board is full exactly when its count of empty cells is 0 |
| Game.FullHasNoMove | ReversiGame.cpp:105-112 | on a full board no side has a legal move |
| Game.PlaceFillsOne | ReversiGame.cpp:185-220 | a legal placement keeps the board well formed, puts the player on the target and lowers the empty count by exactly one |
| Game.SearchedMove | ReversiGame.cpp:104-124 | the root search reports a move exactly when the cutoff is at least 1 and the side has a legal move, and then (x, y) is that side's legal move |
| Game.SearchedSilent | ReversiGame.cpp:132-137 | once the latch is set, the root search logs nothing |
| Game.PlayStep | ReversiGame.cpp:95-138 | the loop is one pass, then (unless the pass breaks out) the loop from the new state |
| Game.TurnRecords | ReversiGame.cpp:97-104 | every pass counts a step, snapshots the board into `mOutBoard`, appends the search's records, and sets `canMove` to the search's move flag |
| Game.TurnMoves | ReversiGame.cpp:104-124 | a pass moves exactly when a legal move exists within the cutoff; it then plays the searched, legal (x, y), resets `passCount` and goes round again |
| Game.TurnPasses | ReversiGame.cpp:105-119 | a pass without a move leaves the board alone; it breaks out on a full board or at the second pass in a row, and otherwise increments `passCount` |
| Game.TurnOnFullBoard | ReversiGame.cpp:105-112 | on a full board the next pass ends the game |
| Game.TurnProgress | ReversiGame.cpp:95-138 | a pass that goes round again negates the player, sets the latch, keeps the loop condition true and lowers 2·(empty cells) + 1 − passCount; a pass that breaks out keeps the player and the latch |
| Game.PlayEnds | ReversiGame.cpp:95-138 | the loop ends without a move, on a full board or with passCount 2, within 2·(empty cells) + 2 steps; the latch ends set exactly when it was set or more than one step ran |
| Game.PlayLatched | ReversiGame.cpp:132-137 | once the latch is set, the rest of the game logs nothing |
| Game.PlayLogsFirstSearch | ReversiGame.cpp:104-137 | the whole game logs exactly the records of the first step's search |
| Game.ReversiGame.constructor | reversi.cpp:102-106 | a game on a well-formed board, with the search and evaluator of the task, the cutoff, the latch clear and an empty log |
| Game.ReversiGame.PlacePiece | ReversiGame.cpp:178-221 | on an occupied target it returns false and leaves `mBoard` unchanged; otherwise it returns legality and leaves the board `validMove` would produce |
| Game.ReversiGame.IsGameOver | ReversiGame.cpp:223-237 | returns true exactly when no cell of `mBoard` is empty |
| Game.ReversiGame.SolveStep | ReversiGame.cpp:97-137 | one pass of the loop body leaves the state `Turn` computes, and reports whether it breaks out |
| Game.ReversiGame.Solve | ReversiGame.cpp:70-144 | the loop leaves `mBoard`, `mOutBoard`, the latch, the log and the returned step count as `Play` computes them from black to move with no pass |

## Left out

- File and stream I/O: the constructor's reading of the board file, `printBoard`, all `cout`/`cerr` output and stream redirection in `solve`, and the log header line. The model has the trace as a sequence of `Record` values with a text form (`Trace.Line`), and the board written per step as the `mOutBoard` snapshot.
- The `mOutBoard` snapshot is the board before the step's move, so the board written after "STEP = n" is the position before move n. The model keeps the snapshot; the writing is not modelled.
- Command-line parsing in `main`. The constructor takes the board, the task and the cutoff that `main` passes on.
- Uninitialised cells after an unrecognised board character. The constructor requires a well-formed board.
- The float conversion `value + 0.0f` in `printValue`. A value is written as the integer followed by ".0"; the largest magnitudes (784) are exact in a float.
- The function-pointer types `algorithm` and `evaluation`. They become the datatypes `Algorithm` and `Evaluator`.
- `memcpy` byte copies. They become whole-array copies.
- The setters `setAlgorithm`, `setEvalFunc`, `setCutOffLength` and `setTask`. The constructor sets those fields once.
- The dead `moved = true` stores in the search loops.
- `ReversiGame::stopLog` is a static member. The model has it as a field of the one game object and passes it to the searches as a parameter.
- Game.ReversiGame.Solve: the pass-by-pass body is the separate method `SolveStep`, and each C search is split along its loops into the `*Moves` and `*Try` methods. The behaviour is unchanged; only the proof is split.
- GameTree.MinimaxRecords: the record count is proved for minimax only. For alpha-beta, a cutoff makes the count depend on the children's values.
