# 4x4 Tic-Tac-Toe search engine, modelled in Dafny

This project models the game-tree search core of a 4x4 Tic-Tac-Toe AI:

- the board queries `check_winner`, `empty_spaces` and `evaluate` (with its nested `evaluate_line`);
- the recursive `minimax` search with optional alpha-beta pruning;
- `iterative_deepening_minimax`, which runs `minimax` at depths 1 to `max_depth`.

It proves what these functions promise their callers.

The search places a mark on the board in place, recurses, and clears the mark again. It also threads a node counter through every call. So the model has two layers:

- **Values.** A search result is stated as a value: `MinimaxSearch.Search` with its loop `MinimaxSearch.Run`, and `Deepening.DeepenFrom` for the deepening loop.
- **Methods.** `MinimaxSearch.Minimax` and `Deepening.IterativeDeepening` mutate a 4x4 `array2`. They are proved to return exactly those values and to leave the board as they found it.

Independent reference definitions say what the values mean. They know nothing of the loop, the window or the counter:

- `MinimaxProps.Value` is the plain minimax value.
- `MinimaxProps.Chosen` is the first best move.
- `MinimaxProps.TreeSize` is the size of the game tree.

The lemmas connect the search to these references, with and without pruning.

Modules, one per file:

- `scores.dfy` (`Scores`): the score type, integers extended with the two infinities that the program writes as `float('inf')`.
- `board.dfy` (`BoardModel`): cells, lines and winner detection; the line heuristic; the open-cell enumeration; the mutable board and `empty_spaces`.
- `minimax.dfy` (`MinimaxSearch`): `minimax` as a value and as the in-place method.
- `minimax_props.dfy` (`MinimaxProps`): the reference definitions, and what the search computes without pruning or with either setting.
- `pruning.dfy` (`Pruning`): the fail-soft property of the pruned search, and agreement with the unpruned search at the root.
- `deepening.dfy` (`Deepening`): `iterative_deepening_minimax` as a value and as the loop.

Notes on the model:

- **Players.** A player is one of the two marks `X` and `O`. `Other` is `'O' if player == 'X' else 'X'`.
- **Node counter.** The program keeps the counter in a one-element list shared by all calls. The model passes it as an integer and returns its new value.
- **Alpha and beta without pruning.** When pruning is off, the program passes `None` for both bounds and never reads them. The model passes some score instead. `MinimaxProps.UnprunedIgnoresWindow` proves the result does not depend on it.
- **Score order.** Scores are compared with the strict order of the extended integers. `Max` and `Min` keep their first argument on a tie, as Python's `max` and `min` do.
- **Where an infinite score can come from.** `evaluate` is always finite, within +-10000 (`BoardModel.EvaluateBound`). A node that has depth left, no winner and no open cell returns its infinite initial `best` (`MinimaxProps.FullBoardNoMove`). Under the game's depth cap no such node is reached, and the value is finite (`MinimaxProps.ValueFinite`).
- **The game's depth cap.** The game caps the depth at the number of open cells (gui.py:86-87). Under that cap the minimax value is never infinite (`MinimaxProps.ValueFinite`). So the early `break` of iterative deepening never fires there, and every depth is run (`Deepening.DeepenRunsAllDepths`).
- **Why only a non-empty window.** The pruned search is only ever called from a non-empty window. The root passes (-inf, +inf), and a node breaks off as soon as alpha >= beta. This is why `Pruning.FailSoft` assumes alpha < beta.

## Model

| member | source | states |
|---|---|---|
| Scores.Max | main.py:120 | the result is at least both arguments and is one of them; the first is kept unless the second is strictly larger, as `max(alpha, best[2])` |
| Scores.Min | main.py:125 | the result is at most both arguments and is one of them; the first is kept unless the second is strictly smaller, as `min(beta, best[2])` |
| Scores.LtStrictTotal | main.py:117 | the comparison of scores is irreflexive, asymmetric, transitive and total |
| BoardModel.Other | main.py:112 | the opponent is never the player itself |
| BoardModel.Place | main.py:111 | writing a mark keeps a 4x4 board, puts the mark in that cell and leaves every other cell as it was |
| BoardModel.PlaceUndo | main.py:111-113 | marking an open cell and then writing `" "` back restores the board exactly |
| BoardModel.SetCell | main.py:111 | the in-place write changes that one cell of the array and nothing else |
| BoardModel.HasWon | main.py:7-31 | definition of `check_winner`: the four row tests, the four column tests and the two diagonal tests, written out cell by cell; no contract of its own, its meaning is stated by `HasWonCells`, `HasWonLines` and `WinIffFullLine` |
| BoardModel.HasWonCells | main.py:18-31 | `check_winner(board, p)` holds iff all four cells of some row, of some column, of the main diagonal or of the anti-diagonal equal `p` |
| BoardModel.HasWonLines | main.py:18-31 | a player has won iff one of the ten lines visited by `evaluate` is all `p` |
| BoardModel.Count | main.py:145-147 | `line.count(c)` on a line of four cells; at most 4 |
| BoardModel.CountScore | main.py:149-160 | definition of the branch chain of `evaluate_line` on the three counts, first matching branch wins, 0 when none matches; no contract of its own, stated by `EvaluateLineCases` and `CountScoreSwap` |
| BoardModel.EvaluateLine | main.py:143-161 | definition of `evaluate_line`: the branch chain applied to the O, X and `" "` counts of the line; no contract of its own, stated by `EvaluateLineCases` and `EvaluateLineSwap` |
| BoardModel.EvaluateLineCases | main.py:143-161 | `evaluate_line` is one of 0, +-10, +-100, +-1000; a positive score means the line holds no X, a negative one no O; 1000 iff the line is all O, -1000 iff all X |
| BoardModel.CountScoreSwap | main.py:149-160 | with four cells in all, exchanging the O and X counts negates the branch chain of `evaluate_line` (its branches are mutually exclusive) |
| BoardModel.SwapCellCounts | main.py:145-147 | each cell counts once, for exactly one of O, X and `" "`, and exchanging the players exchanges its O and X counts |
| BoardModel.EvaluateLineSwap | main.py:143-161 | exchanging X and O on a line negates `evaluate_line` |
| BoardModel.LineAt | main.py:165-171 | the k-th line `evaluate` visits: row i and column i alternately for i = 0..3, then the main diagonal and the anti-diagonal; its contract says each is a line of four cells |
| BoardModel.SumFrom | main.py:164-171 | the running `total_score` over the lines from the k-th on; no contract of its own, stated by `SumFromSwap` and `SumFromBound` |
| BoardModel.Evaluate | main.py:163-173 | definition of `evaluate`: the sum of `evaluate_line` over the ten lines; no contract of its own, stated by `EvaluateSwap` and `EvaluateBound` |
| BoardModel.SwapLineAt | main.py:163-171 | line k of the exchanged board is line k of the board with X and O exchanged |
| BoardModel.SumFromSwap | main.py:163-171 | the sum of the line scores from line k on is negated by exchanging X and O |
| BoardModel.EvaluateSwap | main.py:163-173 | `evaluate` is antisymmetric: exchanging every X and O negates it |
| BoardModel.SumFromBound | main.py:163-171 | the sum of the line scores from line k on lies within +-1000 per remaining line |
| BoardModel.EvaluateBound | main.py:163-173 | `-10000 <= evaluate(board) <= 10000` |
| BoardModel.WinIffFullLine | main.py:18-31 | a player has won iff one of the ten lines scores the full 1000 points for it (-1000 for X) |
| BoardModel.OpenInRow | main.py:47-49 | the cells the inner loop appends for row i before column j; no contract of its own, stated by `OpenInRowExact` |
| BoardModel.OpenInRows | main.py:46-49 | the cells the outer loop has appended after i rows; no contract of its own, stated by `OpenInRowsExact` |
| BoardModel.EmptyCells | main.py:33-50 | the value of `empty_spaces(board)`; no contract of its own, stated by `EmptyCellsExact`, `EmptyCellsOpen` and `FullIffNoOpenCell` |
| BoardModel.OpenInRowExact | main.py:48-50 | the cells collected from row i are open cells of that row, in increasing column order, and include every open cell before column j |
| BoardModel.OpenInRowsExact | main.py:46-50 | the cells collected from the first i rows are open, in strictly increasing row-major order, and include every open cell of those rows |
| BoardModel.EmptyCellsOpen | main.py:45-50 | every listed cell lies on the board and holds `" "` |
| BoardModel.EmptyCellAt | main.py:45-50 | one entry of `empty_spaces` is an in-bounds open cell |
| BoardModel.EmptyCellsExact | main.py:45-50 | `empty_spaces` lists exactly the cells holding `" "`, all within [0,3]x[0,3], in strictly increasing row-major order (so each once) |
| BoardModel.FullIffNoOpenCell | main.py:45-50 | `empty_spaces` is empty iff no cell holds `" "` |
| BoardModel.PlaceRemovesOpenCell | main.py:111 | marking an open cell leaves exactly one open cell fewer |
| BoardModel.EmptySpaces | main.py:45-50 | the nested loops return exactly the open-cell list `EmptyCells` of the array's board |
| MinimaxSearch.NoMove | main.py:102 | the no-move answer is `[-1, -1, score]` |
| MinimaxSearch.Worst | main.py:104-107 | the initial `best` score is infinite: minus infinity exactly for O, plus infinity exactly for X |
| MinimaxSearch.Improves | main.py:117 | `score[2] > best[2]` for O and `score[2] < best[2]` for X (main.py:122): the candidate is strictly better for the player; a predicate with no contract of its own |
| MinimaxSearch.Combine | main.py:116-123 | the better of two scores for the player is one of them and neither is strictly better than it |
| MinimaxSearch.Step | main.py:114-125 | one score update keeps the old best or the candidate, and its score is the better of the two for the player |
| MinimaxSearch.IsLeaf | main.py:100 | the base-case test `depth == 0 or check_winner(board, "O") or check_winner(board, "X")`; a predicate with no contract of its own |
| MinimaxSearch.Leaf | main.py:98-102 | the base-case answer `[-1, -1, evaluate(board)]` with the node's own count of one; no contract of its own, stated by `MinimaxProps.SearchLeaf` |
| MinimaxSearch.CutOff | main.py:127 | the cut-off test `use_pruning and alpha >= beta`; a predicate with no contract of its own |
| MinimaxSearch.Search | main.py:98 | every call counts at least one node: its own `count[0] += 1` |
| MinimaxSearch.Node | main.py:98 | a call with depth left counts at least its own node |
| MinimaxSearch.Run | main.py:98 | the loop state always includes the node itself in its count |
| MinimaxSearch.Child | main.py:110-113 | the recursive call for one cell: search the board with `player` written at the cell, one depth less, for the opponent, in the current window; no contract of its own, stated by `TryCell` and `RunStep` |
| MinimaxSearch.SearchNode | main.py:100-109 | a node that is not a leaf runs the loop over its open cells, from `best` = (-1, -1, worst) and the window it was given |
| MinimaxSearch.RunStep | main.py:109-129 | one more iteration from a state that has not broken off: search the child in the current window, update, test the cut-off |
| MinimaxSearch.RunStopped | main.py:127-129 | once the loop has broken off, later cells change nothing |
| MinimaxSearch.Minimax | main.py:98-131 | the in-place search restores every cell of the board, returns the move of `Search`, and adds its node count to the counter |
| MinimaxSearch.SearchCells | main.py:109-131 | the loop over the open cells restores the board and returns the move and the node count of `Run` |
| MinimaxSearch.VisitCell | main.py:110-129 | one iteration of the loop restores the board and advances `Run` by one cell, reporting the cut-off |
| MinimaxSearch.Record | main.py:116-125 | the score update keeps the child's move only on strict improvement and narrows alpha (for O) or beta (for X) only when pruning |
| MinimaxSearch.TryCell | main.py:110-113 | marking the cell, searching the opponent one level deeper and clearing the cell leaves the board as it was and returns that child search |
| MinimaxProps.ChosenValue | main.py:104-131 | the move of the reference `Chosen` carries the minimax value |
| MinimaxProps.ChosenOfScore | main.py:116-123 | keeping the first strictly better child yields the best child value |
| MinimaxProps.ChosenOfBest | main.py:116-123 | no child value is strictly better for the player than the score of the move kept |
| MinimaxProps.ChosenOfFirst | main.py:116-123 | the move kept is no move or the move of a cell whose value is strictly better than that of every earlier cell: ties go to the first cell in row-major order |
| MinimaxProps.ImprovesOver | main.py:117-123 | a score strictly better than one that `c` does not beat is strictly better than `c` |
| MinimaxProps.ImprovesNotOver | main.py:117-123 | a score that does not beat `m` does not beat a score strictly better than `m` |
| MinimaxProps.SearchUnpruned | main.py:98-131 | without pruning the search returns the `Chosen` move with the minimax value and counts every node of the game tree |
| MinimaxProps.RunUnpruned | main.py:109-129 | the loop without pruning never breaks off, never changes the window, keeps the `ChosenOf` move and counts 1 plus all children's counts |
| MinimaxProps.UnprunedIgnoresWindow | main.py:72 | without pruning the bounds passed in do not matter: any two windows give the same result |
| MinimaxProps.SearchLeaf | main.py:98-102 | at depth 0 or with a winner the search counts exactly one node and returns (-1, -1) with `evaluate(board)`, a finite score within +-10000 |
| MinimaxProps.FullBoardNoMove | main.py:104-131 | with depth left, no winner and no open cell the search counts one node and returns (-1, -1) with -inf for O and +inf for X |
| MinimaxProps.SearchNodesBound | main.py:98-131 | pruned or not, the search never counts more nodes than the game tree has |
| MinimaxProps.RunNodesBound | main.py:109-129 | the loop counts at most 1 plus the sizes of the children's trees |
| MinimaxProps.SearchMoveLegal | main.py:109-118 | a returned move other than (-1, -1) names a cell that was open at entry |
| MinimaxProps.RunMoveFrom | main.py:114-123 | the move kept by the loop is (-1, -1) or one of the cells tried |
| MinimaxProps.ValueFinite | main.py:98-131 | when the depth does not exceed the number of open cells the minimax value is finite |
| MinimaxProps.BestOfFinite | main.py:109-123 | under the same cap the best child value is finite |
| Pruning.MaxStart | main.py:104-105 | an O node starts its loop in the invariant `MaxInv` |
| Pruning.MinStart | main.py:106-107 | an X node starts its loop in the invariant `MinInv` |
| Pruning.MaxStep | main.py:116-120 | one child of an O node answered fail-soft in the window (alpha, beta) keeps `MaxInv`, and the cut-off flag follows alpha >= beta |
| Pruning.MinStep | main.py:121-125 | one child of an X node answered fail-soft in the window (alpha, beta) keeps `MinInv` |
| Pruning.MaxStopped | main.py:127-129 | after the cut-off of an O node the skipped children cannot break `MaxInv` |
| Pruning.MinStopped | main.py:127-129 | after the cut-off of an X node the skipped children cannot break `MinInv` |
| Pruning.MaxFinal | main.py:131 | at the end of an O node's loop the kept score is a fail-soft answer for the true maximum |
| Pruning.MinFinal | main.py:131 | at the end of an X node's loop the kept score is a fail-soft answer for the true minimum |
| Pruning.FailSoft | main.py:98-131 | from a non-empty window the pruned search returns the exact minimax value when it lies strictly inside the window, and a score on the same side as the value when the value is at or beyond a bound |
| Pruning.RunMax | main.py:116-129 | the pruned loop of an O node never changes beta and keeps `MaxInv` against the true maximum of the children so far |
| Pruning.RunMin | main.py:116-129 | the pruned loop of an X node never changes alpha and keeps `MinInv` against the true minimum |
| Pruning.PrunedRootValue | main.py:70 | from (-inf, +inf) the pruned search returns the exact minimax value |
| Pruning.PrunedRootMove | main.py:70 | from (-inf, +inf) the pruned search returns the `Chosen` move, the same as without pruning |
| Pruning.RootMax | main.py:116-129 | from the full window an O node keeps the `ChosenOf` move, alpha follows its score, and the loop breaks off only at +inf |
| Pruning.RootMin | main.py:116-129 | from the full window an X node keeps the `ChosenOf` move, beta follows its score, and the loop breaks off only at -inf |
| Pruning.PruningAgrees | main.py:69-72 | at the root pruning changes neither the move nor the score and never counts more nodes |
| Deepening.Root | main.py:69-72 | the search at one depth from the full window (-inf, +inf), or with no window when pruning is off; no contract of its own, stated through `Pruning.PruningAgrees` and `MinimaxProps.SearchUnpruned` |
| Deepening.Keep | main.py:73-76 | the current move replaces the kept one exactly when its score is strictly better for the player (greater for O, smaller for X); on a tie the kept move stays; the kept score is the better of the two |
| Deepening.Deepen | main.py:67-79 | with `max_depth < 1` the result is (-1, -1, worst score), which is minus infinity for O and plus infinity for X, with the counter unchanged |
| Deepening.DeepenFrom | main.py:68-78 | what the `for depth` loop returns when it starts at a given depth with a kept move and a counter; no contract of its own, stated by the `Deepen...` lemmas below and by `IterativeDeepening` |
| Deepening.DepthsRun | main.py:68-78 | the number of depths the loop runs before it ends or breaks on an infinite score; no contract of its own, stated by `DeepenCounts`, `DepthsRunAll` and `DeepenRunsAllDepths` |
| Deepening.DeepenCounts | main.py:68-72 | the counter is never reset: every depth run adds at least one node |
| Deepening.DepthsRunAll | main.py:68-78 | when no depth yields an infinite score every depth up to `max_depth` is run |
| Deepening.DeepenFromDepth | main.py:73-76 | the move returned is the initial `best_move` or the root move of one of the depths run |
| Deepening.DeepenFirst | main.py:68-78 | the move returned is the initial one, or the root move of a depth that ran whose score is strictly better than the initial score and than every earlier depth's score, so ties across depths keep the earlier move |
| Deepening.DeepenKeeps | main.py:73-76 | the kept score never gets worse for the player |
| Deepening.DeepenBest | main.py:73-76 | no depth run found a score strictly better than that of the move returned |
| Deepening.ScoresTransitive | main.py:73-76 | "not strictly better" chains through a score in between |
| Deepening.DeepenStops | main.py:77-78 | the loop stops after the first depth with an infinite score: a larger `max_depth` changes neither the move nor the counter |
| Deepening.DeepenPruningAgrees | main.py:69-72 | pruning changes neither the move iterative deepening returns nor the depths it runs, and its counter grows by no more than without pruning |
| Deepening.DeepenRunsAllDepths | main.py:68-78 | under the game's depth cap every depth from 1 to `max_depth` is run (the number of depths run is exactly `max_depth`), and the counter grows by at least `max_depth` |
| Deepening.DeepenStep | main.py:68-78 | one round of the loop: search at the depth, keep on strict improvement, stop on an infinite score or go on at the next depth |
| Deepening.DeepenRound | main.py:69-78 | one round on the mutable board restores the board and advances `DeepenFrom` by one depth, reporting the stop |
| Deepening.IterativeDeepening | main.py:67-79 | the loop on the mutable board returns the move and counter of `Deepen` and leaves the board as it found it |

## Left out

- The whole of gui.py is not part of this model: the tkinter window, dialogs, the turn and tie logic, and the plotting of node counts. It is presentation and I/O. Its depth cap `min(4, empty_count)` appears only as the hypothesis of `MinimaxProps.ValueFinite` and `Deepening.DeepenRunsAllDepths`.
- Floating point: `float('inf')` is modelled by the score type's two infinities, and `abs(score) == float('inf')` by `IsInfinite`. All finite scores are integers.
- The node counter list: each call returns the same one-element list it was given. The model threads its integer instead, so sharing the list between callers is not modelled.
- Move lists are modelled as values. In the program, `score[0], score[1] = x, y` overwrites the list that the child call returned. No other reference to that list survives, so nothing observable is lost.
- Boards other than 4x4 and marks other than `"X"`, `"O"` and `" "` are not modelled. Neither are players other than `"X"` and `"O"`. For such a mark, `minimax` would minimise as for X through its `else` branches, but would search its children for X (main.py:112), and `iterative_deepening_minimax` would never replace its move, because it tests `player == 'X'` explicitly (main.py:75).
- Negative depths are not modelled (the depth is a `nat`). Every caller passes a depth of at least 1, and the recursion stops at 0.
- `Pruning.FailSoft`: stated only for a non-empty window (alpha < beta), which is the only kind the search is ever called with.
- `Pruning.PruningAgrees`: states agreement only at the root, from the full window, as the program calls it. Inside the tree, pruned and unpruned scores may differ, and `Pruning.FailSoft` states how.
- The 3x3 variant of the game with exact +-1/0 scoring does not appear in these sources.
