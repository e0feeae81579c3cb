# Connect Four search engine, modelled in Dafny

This project models the core of a Connect Four bot (`connect4.py`). The core has four parts:

- **The board.** A 6 x 7 grid with row 0 at the bottom. A cell holds nothing, a player piece or a bot piece. The operations are: create an empty board, list the playable columns, find a column's next open row, and drop a piece.
- **The static evaluator.** Every window of four cells along a row, a column or a diagonal earns points from `evaluate_window`. The centre column adds a bonus.
- **Win detection.** A move wins when four of a kind form a line. A node is terminal when either side has won or no column is playable.
- **The search.** A depth-limited minimax with alpha-beta pruning. The bot maximises and the player minimises. Leaves are scored from the bot's side. Columns are explored in ascending order, and a column replaces the running best only when it is strictly better.

The files and their modules:

| file | module | contents |
|---|---|---|
| `options.dfy` | `Options` | `Option`, which stands in for Python's `None` |
| `board.dfy` | `Board` | cells, pieces, the board type, the board operations, the gravity invariant |
| `lines.dfy` | `Lines` | lines of four; the windows the evaluator visits, in its loop order |
| `win.dfy` | `Win` | `winning_move` as the source's four loop nests; `HasFour`, a direction-free reference; the terminal test |
| `heuristic.dfy` | `Heuristic` | `evaluate_window` and `score_position` |
| `extint.dfy` | `ExtInt` | integers extended with minus and plus infinity, for the search's `math.inf` |
| `search.dfy` | `Search` | `minimax`, with pruning |
| `unpruned.dfy` | `Unpruned` | the same minimax without alpha and beta, used as the reference |
| `pruning.dfy` | `Pruning` | proofs that the pruning is sound at every node and exact at the root |
| `engine.dfy` | `Engine` | consequences for the move the game asks for |

The main results are:

- **`Pruning.PruningPreservesResult`:** when called as the game calls it, with alpha = -inf and beta = +inf, the pruned search returns the same column and score as the unpruned search.
- **`Pruning.MinimaxFailSoft`:** for any window with alpha < beta, every node's pruned score has the fail-soft relation to the unpruned one:
  - a score at or below alpha is an upper bound;
  - a score at or above beta is a lower bound;
  - a score strictly inside the window is exact.
- **`Engine.RootChoosesFirstBest`:** the chosen column is the lowest-numbered optimal one.
- **`Engine.BotTakesImmediateWin`:** when nobody has won yet, an available winning drop makes the position score as a win at every depth of 1 or more.
- **`Engine.DepthOneTakesFirstWin`** and **`Engine.DepthTwoTakesFirstWin`:** when nobody has won yet, at depth 1 or 2 the bot plays the lowest-numbered column that completes four, whenever one exists.

## Model

| member | source | states |
|---|---|---|
| Board.CreateBoard | connect4.py:21-23 | every cell of a new board is empty |
| Board.EmptyBoardGravity | connect4.py:21-23 | the empty board satisfies the gravity invariant (no piece sits above an empty cell) |
| Board.CreateBoardIsOpen | connect4.py:48-53 | on the empty board, all seven columns are playable and are listed as 0..6 in order |
| Board.ValidLocations | connect4.py:48-53 | lists exactly the playable columns, each once, in ascending order; empty exactly when no column is playable |
| Board.NextOpenRow | connect4.py:61-64 | returns the lowest empty row of the column; returns None exactly when the column has no empty cell; a playable column always has a row |
| Board.DropPiece | connect4.py:55-56 | the target cell holds the piece; every other cell is unchanged |
| Board.Play | connect4.py:181-183 | the piece lands in the column's lowest empty row; nothing else changes |
| Board.ValidIffOpenRow | connect4.py:58-64 | on a gravity board, `is_valid` holds exactly when `get_next_open_row` finds a row, and every cell from that row up is empty |
| Board.FullIffNoEmptyCell | connect4.py:48-53 | on a gravity board, no column is playable exactly when every cell holds a piece |
| Board.PlayKeepsGravity | connect4.py:55-64 | dropping into a playable column's next open row keeps the gravity invariant |
| Board.OpenColumnsFrom | connect4.py:48-53 | when every column is playable, the list from `start` on is start, start+1, ..., 6 |
| Lines.HorizontalWindowIsRowSlice | connect4.py:76-81 | the window of a horizontal line is the four-cell slice of its row starting at its column |
| Lines.VerticalWindowIsColumnSlice | connect4.py:84-88 | the window of a vertical line is the four-cell slice of its column starting at its row |
| Lines.HorizontalLinesExact | connect4.py:76-81 | the horizontal windows are exactly the 24 horizontal lines that fit, with no repeats |
| Lines.VerticalLinesExact | connect4.py:84-88 | the vertical windows are exactly the 21 vertical lines that fit, with no repeats |
| Lines.AscendingLinesExact | connect4.py:91-95 | the positive-diagonal windows are exactly the 12 ascending lines that fit, with no repeats |
| Lines.DescendingLinesExact | connect4.py:97-101 | the negative-diagonal windows are exactly the 12 descending lines that fit, with no repeats |
| Lines.AllLinesExact | connect4.py:75-101 | the evaluator visits every line of four on the board exactly once: 69 windows |
| Win.RunIffLine | connect4.py:133-156 | each four-cell comparison in `winning_move` tests exactly one line of four |
| Win.WinningMoveIffFour | connect4.py:133-156 | `winning_move` is true exactly when some line of four, in any direction, is held entirely by the piece |
| Win.NoRunOnEmptyBoard | connect4.py:133-156 | `winning_move` finds no run on the empty board |
| Win.TerminalIff | connect4.py:159-160 | a node is terminal exactly when the player or the bot has four in a row or the board is full |
| Win.EmptyBoardNotTerminal | connect4.py:159-160 | the empty board is not terminal |
| Heuristic.CountSplit | connect4.py:107-131 | every cell of a window is empty, a player piece or a bot piece |
| Heuristic.EvaluateWindow | connect4.py:107-131 | the score is one of -4, 0, 2, 5, 100; 100 exactly for four own pieces; 5 exactly for three own and one empty; 2 exactly for two own and two empty; -4 exactly for three opponent pieces and one empty |
| Heuristic.EvaluateWindowIgnoresOrder | connect4.py:107-131 | two windows with the same multiset of cells get the same score |
| Heuristic.EvaluateWindowAsymmetry | connect4.py:125-129 | the penalty is not the mirror of the reward: a window scores -4 for a piece exactly when it scores 5 for the opponent, and a window the opponent has filled scores 0 |
| Heuristic.WindowsScore | connect4.py:75-101 | the total over n windows lies between -4n and 100n |
| Heuristic.ScorePosition | connect4.py:69-104 | the heuristic lies between -276 and 6918 |
| Heuristic.EmptyBoardScoresZero | connect4.py:69-104 | the empty board scores 0 for either piece |
| Search.LeafScore | connect4.py:165-175 | a bot win scores 9999999; a player win scores -9999999; a full board scores 0; any other leaf gets the bot's heuristic; only a bot win reaches 9999999 |
| Search.Minimax | connect4.py:162-207 | the column is None exactly at depth 0 or on a terminal board; otherwise it is a playable column; the score stays within plus or minus 9999999 |
| Search.SearchLoop | connect4.py:176-206 | the result keeps the start or names an explored column; from the initial -inf/+inf with at least one column, a column is always chosen (so the source's random fallback is always overwritten) |
| Search.ChildScore | connect4.py:181-184 | the score of a child stays within plus or minus 9999999 |
| Unpruned.PlainMinimax | connect4.py:162-207 | the unpruned reference: None exactly at a leaf, otherwise a playable column; the score stays in range |
| Unpruned.PlainLoop | connect4.py:176-206 | without cut-offs the loop keeps its start or names an explored column, and a column is always chosen from the initial value |
| Unpruned.ChildValue | connect4.py:181-184 | the unpruned value of a child stays within plus or minus 9999999 |
| Unpruned.PlainLoopAtLeastStart | connect4.py:185-187 | the running best never gets worse for the side to move |
| Unpruned.PlainLoopBeatsChildren | connect4.py:180-191 | the final value is at least as good as every explored child |
| Unpruned.FirstBestStep | connect4.py:185-187 | a strict `>` (or `<`) lets a later column win only by being strictly better |
| Unpruned.PlainLoopPicksFirstBest | connect4.py:180-191 | over ascending columns, the loop keeps its start or picks the first column that attains the best value, strictly better than every column to its left |
| Unpruned.PlainMinimaxPicksFirstBest | connect4.py:176-206 | on a non-terminal board at depth 1 or more, the unpruned search chooses the first optimal playable column, and the score is that column's value |
| Pruning.MaxStep | connect4.py:185-190 | one maximising step either cuts with a value at or above beta that does not exceed the true best, or keeps the loop invariant |
| Pruning.MinStep | connect4.py:201-206 | one minimising step either cuts with a value at or below alpha that is no less than the true best, or keeps the loop invariant |
| Pruning.MaxLoopFailSoft | connect4.py:180-191 | the maximising loop with cut-offs fails soft against the unpruned loop |
| Pruning.MinLoopFailSoft | connect4.py:196-207 | the minimising loop with cut-offs fails soft against the unpruned loop |
| Pruning.ChildFailSoft | connect4.py:184 | a child's pruned score fails soft against its unpruned value |
| Pruning.RootFailSoft | connect4.py:176-207 | a node's loop, started from -inf or +inf, fails soft against the unpruned loop |
| Pruning.MinimaxFailSoft | connect4.py:162-207 | for any window alpha < beta: a pruned score at or below alpha bounds the true value from above; one at or above beta bounds it from below; one strictly inside is exact |
| Pruning.RootLoopsAgree | connect4.py:180-206 | when the outer bound is infinite, no cut happens, and the pruned and unpruned loops choose the same columns step by step |
| Pruning.PruningPreservesResult | connect4.py:162-207 | with alpha = -inf and beta = +inf, the pruned search returns the same column and score as the unpruned search |
| Engine.RootChoosesFirstBest | connect4.py:162-207 | from the full window, at depth 1 or more on a board in play, the move is the first optimal playable column |
| Engine.RootAtLeastChild | connect4.py:185-187 | while nobody has won, the root score is at least as good as every playable column's value |
| Engine.RootBeatsLeft | connect4.py:185-187 | while nobody has won, every playable column left of the chosen one is strictly worse |
| Engine.WinningChildValue | connect4.py:165-169 | a drop that completes four for the bot is worth 9999999, whatever depth remains |
| Engine.NotTerminalWithOpenColumn | connect4.py:159-160 | a board where nobody has won and some column is playable is not terminal |
| Engine.BotTakesImmediateWin | connect4.py:162-191 | if nobody has won yet and some drop wins at once, the bot's search scores 9999999 at every depth of 1 or more |
| Engine.LeafChildWinIff | connect4.py:165-175 | at depth 0, a child is worth 9999999 exactly when the bot has completed four |
| Engine.DepthOneChoiceWins | connect4.py:176-191 | at depth 1, the chosen column wins exactly when the root score is 9999999 |
| Engine.DepthOneTakesFirstWin | connect4.py:176-191 | at depth 1, if nobody has won yet and a winning drop exists, the bot plays the lowest-numbered winning column |
| Engine.PlayerDropKeepsBotLines | connect4.py:196-198 | a player piece dropped by the minimising loop never completes a bot line: any bot four after the drop was already there |
| Engine.NonWinningChildBelowWin | connect4.py:162-207 | a bot drop that does not complete four is worth less than 9999999 when searched one more ply, since no player reply gives the bot four |
| Engine.DepthTwoChoiceWins | connect4.py:176-191 | at depth 2, the chosen column wins at once exactly when the root score is 9999999 |
| Engine.DepthTwoTakesFirstWin | connect4.py:176-191 | at depth 2, if nobody has won yet and a winning drop exists, the bot plays the lowest-numbered winning column |

## Left out

- `print_board`, the game loops (`play_manjaro_vs_bot`, `play_user_vs_bot`, `main`), the statistics code (`collect_statistics`, `save_statistics`) and the console spinner. These are input/output, timing and randomness around the core.
- The multiprocessing variant of `minimax` and its `minimax_worker`. In the source they sit inside a string literal, so they are dead code.
- `random.choice` in `minimax`: the running best starts with no column. `Search.SearchLoop` proves that the first explored column always replaces that start, so the random pick is never returned.
- The game's random search depth: `depth` is a parameter.
- The claim that a pruned node picks the first explored column attaining its score is proved only where it is exact: at the root (`Engine.RootChoosesFirstBest`) and for the unpruned reference (`Unpruned.PlainMinimaxPicksFirstBest`). A node searched with a narrower window is related to the reference only through the fail-soft bounds (`Pruning.MinimaxFailSoft`).
- numpy floats and `board.copy()`:
  - cells are a datatype, and the board is an immutable value, so a search never changes the board it is given (the source searches on copies);
  - `alpha`, `beta` and the running best are integers extended with infinities, which matches what the source compares;
  - `get_next_open_row` returning None for a full column becomes an `Option`.
- Board.CreateBoard: does not model numpy's array layout, only the cell contents.
- Engine.BotTakesImmediateWin: does not claim that the chosen column itself wins at once when the depth is 3 or more. There a lower-numbered column that sets up a double threat scores the same 9999999, and the search picks the first such column. The immediate-win column is guaranteed at depths 1 and 2 (`Engine.DepthOneTakesFirstWin`, `Engine.DepthTwoTakesFirstWin`).
- The mirror of the immediate-win result for the player at a minimising node is not stated.
