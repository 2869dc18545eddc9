# Tic-tac-toe search engine

A Dafny model of the game-tree search in `tictactoe_game.py`. The program plays 3x3 tic-tac-toe: the computer plays O and maximises, and the human plays X and minimises. It has:

- board operations: `Create_Board`, `Is_Move_Valid` and `Make_Move`;
- terminal tests: `Is_Winner` and `Is_Game_Over`;
- a full-depth minimax search: `Minimax`;
- an alpha-beta search: `Minimax_Optimize`;
- two move selectors, one per search: `Find_Best_Move` and `Find_Best_Move_Optimize`.

Modules, one per part of the program:

- `Grid` (grid.dfy): cells, boards, and the board operations.
- `Rules` (rules.dfy): the win and game-over tests.
- `Search` (search.dfy): plain minimax.
- `Pruned` (pruned.dfy): alpha-beta minimax.
- `Selection` (selection.dfy): the selection loop, for any scoring of moves.
- `Selector` (selector.dfy): the two selectors.

How the program is represented:

- **Boards.** A board value is a `seq<Cell>` of nine cells in row-major order, so cell (row, col) is at index `3 * row + col`. The searches and the selectors, which change the board in place, are methods over an `array<Cell>` of nine cells. `Grid.Cells` maps the array to its value.
- **Specifications and methods.** Each search has a pure specification function, `MinimaxValue` or `AlphaBetaValue`. Each method is proved to return that function of the board it received, and to give the board back unchanged. The loops over rows and columns are mirrored as functions walking (row, col).
- **Infinities.** The program's `float("-inf")` and `float("inf")` become the integers -2 and 2. They are only ever compared with scores in {-1, 0, 1}, so this is faithful.
- **Depth.** `depth` is taken and passed on, but no contract mentions it. The proofs show that the result is a function of the board, the side to move and, for the pruned search, the window (alpha, beta) alone.
- **The alpha-beta cut-off.** The `break` at `tictactoe_game.py:91` and `:106` leaves only the inner `for col` loop. After a cut-off the search goes on with the next row: it scores that row's first blank with a window that is already closed, and cuts off again. The model does exactly this. An alpha-beta cut-off is usually described as skipping all remaining moves, and the difference can be seen in an inner call under a narrow window. On _ X X / _ O O / O X X with O to move and window (-inf, 0), the search cuts off after (0, 0), which scores 0, goes on to score (1, 0), and returns 1 (`Pruned.RowRestartScenario`); skipping all remaining moves would return the 0. Both values are within what `Pruned.WindowSound` allows, since each is at or above beta. The result under the full window never differs (`Pruned.FullWindowAgrees`), so the score the selectors see is the plain minimax value.
- **Why alpha-beta agrees with minimax.** `Pruned.AlphaBetaSound` proves a fail-hard bound, and the proof holds with the per-row restart. Under any window alpha < beta, a result at or below alpha bounds the true value from above. A result at or above beta bounds it from below. A result strictly inside the window is exact. At the full window this gives equality with plain minimax (`Pruned.FullWindowAgrees`), so both selectors return the same move.

## Model

| member | source | states |
|---|---|---|
| Grid.EmptyBoard | tictactoe_game.py:3-4 | every one of the nine cells is blank, so every in-range cell is a valid move |
| Grid.CreateBoard | tictactoe_game.py:3-4 | returns a fresh nine-cell grid whose value is the all-blank board |
| Grid.Place | tictactoe_game.py:14-15 | the value after a write: the addressed cell holds the mark and every other cell is unchanged |
| Grid.MakeMove | tictactoe_game.py:14-15 | writes `player` at (row, col) unconditionally and changes no other cell |
| Grid.WriteLowersBlanks | tictactoe_game.py:49-51 | writing a mark over a blank lowers the number of blanks by exactly one |
| Grid.PlaceLowersBlanks | tictactoe_game.py:49-51 | placing a mark on a valid cell lowers the blank count by one, which is the measure that makes the recursion terminate |
| Grid.UndoPlace | tictactoe_game.py:50-52 | resetting the tentatively marked cell to blank gives back the board as it was |
| Grid.IsMoveValid | tictactoe_game.py:11-12 | Is_Move_Valid: the addressed cell is blank; Rules.FullIffNoMove and Rules.NotOverHasMove relate it to the board being full |
| Rules.IsWinner | tictactoe_game.py:17-26 | Is_Winner: some i has row i or column i all p, or one of the two diagonals is all p; Rules.WinnerIffOwnsLine proves it equal to owning one of the eight lines |
| Rules.IsGameOver | tictactoe_game.py:28-29 | Is_Game_Over: X has won, or O has won, or no cell is blank; Search.TerminalValues gives its values in the searches |
| Rules.WinnerIffOwnsLine | tictactoe_game.py:17-26 | `Is_Winner` holds if and only if the player owns one of the eight lines: three rows, three columns and two diagonals |
| Rules.NotOverHasMove | tictactoe_game.py:28-29 | a board that is not over has at least one valid move |
| Rules.FullIffNoMove | tictactoe_game.py:28-29 | a board is full if and only if no in-range cell is a valid move |
| Rules.EmptyBoardNotOver | tictactoe_game.py:28-29 | the freshly created board is not over |
| Rules.DiagonalWinScenario | tictactoe_game.py:17-29 | a full board with X on the main diagonal: X has won, the game is over, and O has not won |
| Search.MinimaxValue | tictactoe_game.py:32-66 | the value of every board, for either side to move, is in {-1, 0, 1} and never a sentinel |
| Search.MaxScan | tictactoe_game.py:43-54 | the maximising fold never falls below its running best, and it is a real score once a blank lies ahead |
| Search.MinScan | tictactoe_game.py:55-66 | the minimising fold never rises above its running best, and it is a real score once a blank lies ahead |
| Search.TerminalValues | tictactoe_game.py:35-42 | the base cases in order: an X line gives -1; otherwise an O line gives 1; otherwise a finished board is full and gives 0 |
| Search.MaxScanIsMax | tictactoe_game.py:47-54 | the maximising fold is at least the value after every later O move, and it equals the running best or one of those values |
| Search.MinScanIsMin | tictactoe_game.py:59-66 | the minimising fold is at most the value after every later X move, and it equals the running best or one of those values |
| Search.BestReply | tictactoe_game.py:43-66 | on a board that is not over, the value is the maximum over O's moves (O to move) or the minimum over X's moves (X to move), and some move attains it |
| Search.Minimax | tictactoe_game.py:32-66 | returns the minimax value of the board it received, for any depth, and gives the board back unchanged |
| Pruned.AlphaBetaValue | tictactoe_game.py:69-107 | the pruned value is in {-1, 0, 1} for every window |
| Pruned.MaxScanAB | tictactoe_game.py:78-92 | the pruned maximising fold, with its per-row cut-off, never falls below its running best, and it is a real score once a blank lies ahead |
| Pruned.MinScanAB | tictactoe_game.py:93-107 | the pruned minimising fold, with its per-row cut-off, never rises above its running best, and it is a real score once a blank lies ahead |
| Pruned.TerminalValuesAgree | tictactoe_game.py:71-76 | on a finished board the pruned search returns the plain minimax value, whatever the window |
| Pruned.AlphaBetaSound | tictactoe_game.py:69-107 | for every window alpha < beta: a result at or below alpha bounds the true value from above, one at or above beta bounds it from below, and one strictly inside the window is exact |
| Pruned.MaxScanSound | tictactoe_game.py:82-91 | the maximising pruned fold is fail-hard sound against the plain fold over the same cells, with alpha raised as the loop goes |
| Pruned.MaxScanSoundAt | tictactoe_game.py:84-91 | one blank of the maximising loop keeps the soundness invariant, both when the window stays open and at a cut-off |
| Pruned.MinScanSound | tictactoe_game.py:97-106 | the minimising pruned fold is fail-hard sound against the plain fold over the same cells, with beta lowered as the loop goes |
| Pruned.MinScanSoundAt | tictactoe_game.py:99-106 | one blank of the minimising loop keeps the soundness invariant, both when the window stays open and at a cut-off |
| Pruned.FullWindowAgrees | tictactoe_game.py:132 | with the full window (-inf, +inf) alpha-beta returns exactly the plain minimax value |
| Pruned.RowRestartOpen | tictactoe_game.py:71-76 | the board _ X X / _ O O / O X X is not over, so the pruned search reaches its loops |
| Pruned.RowRestartFirstScores | tictactoe_game.py:84-91 | on that board under the window (-inf, 0), O's move at (0, 0) scores 0, which already reaches beta |
| Pruned.RowRestartSecondScores | tictactoe_game.py:84-88 | on that board, O's move at (1, 0) completes row 1 and scores 1 |
| Pruned.RowRestartScenario | tictactoe_game.py:82-92 | after the cut-off in row 0 the search goes on with row 1, as the column-only `break` does, and returns 1 rather than the 0 seen before the cut-off |
| Pruned.MinimaxOptimize | tictactoe_game.py:69-107 | returns the pruned value of the board it received for the given window and any depth, breaking as the program does, and gives the board back unchanged |
| Selection.SelectFrom | tictactoe_game.py:113-121 | the selection loop from (row, col) on: each valid move scored by `score` replaces the running best only when strictly greater; its properties are the SelectFrom lemmas below |
| Selection.SelectFromStep | tictactoe_game.py:113-121 | the loop from (row, col) equals the loop from the next cell after one iteration of the strict `>` update |
| Selection.SelectFromNone | tictactoe_game.py:111-122 | the selection returns no move only when there was no running best move and no blank lies ahead |
| Selection.SelectFromKeeps | tictactoe_game.py:119-121 | once there is a running best move, the selection keeps one (it is replaced, never dropped) |
| Selection.SelectFromSome | tictactoe_game.py:113-122 | the selected move is a valid move, and it scores at least the running best score |
| Selection.SelectFromOvertakes | tictactoe_game.py:119-121 | a move other than the running best is selected only if it comes later in row-major order and scores strictly more |
| Selection.SelectFromBeats | tictactoe_game.py:113-122 | every valid move from the current cell on scores no more than the selected move |
| Selection.SelectFromFirst | tictactoe_game.py:119-121 | every valid move that comes before the selected one scores strictly less, so ties go to the earlier cell |
| Selector.MoveScore | tictactoe_game.py:115-118 | the score of O playing at (row, col): the minimax value with X to move of the board after the placement, always in {-1, 0, 1} for a valid move |
| Selector.BestMove | tictactoe_game.py:110-122 | the move both selectors return (line 122 and line 137): the selection loop from (0, 0) with score -inf and no move; Selector.BestMoveIsFirstMaximal states what it is |
| Selector.BestMoveIsFirstMaximal | tictactoe_game.py:110-122 | the chosen move is None exactly when the board is full; otherwise it is a blank whose O-placement score is maximal, and the first such blank in row-major order |
| Selector.ImmediateWinScores | tictactoe_game.py:115-117 | on O O _ / X X _ / _ _ _, O completing the top row scores 1 |
| Selector.ImmediateWinIsChosen | tictactoe_game.py:110-122 | on that board the selector takes the winning cell (0, 2) |
| Selector.FindBestMove | tictactoe_game.py:110-122 | returns the first maximal move under plain minimax (None on a full board) and gives the board back unchanged |
| Selector.FindBestMoveOptimize | tictactoe_game.py:125-137 | returns the same move as FindBestMove, using alpha-beta at the full window, and gives the board back unchanged |

## Left out

- `Print_Board` (tictactoe_game.py:6-9) and `Play_Game` (tictactoe_game.py:139-186) are not modelled. They are console I/O: the menu, reading input, parsing numbers and handling bad input, checking coordinates, and alternating turns.
- Grid.IsMoveValid and Grid.MakeMove require coordinates in range. Every caller in the searches and selectors passes rows and columns 0 to 2, and `Play_Game` checks bounds before calling. Python's negative indexing and its `IndexError` are not modelled.
- The float infinities are modelled as -2 and 2: they are never returned, only compared.
- The program stores the board as a list of three row lists; the model uses one flat array of nine cells. Aliasing between rows cannot arise in this model.
- Node counts and how much pruning saves are not modelled; the only observable result is the score.
- That X and O cannot both have a line is not modelled. It depends on legal alternating play, which only the left-out game loop enforces. The searches rely only on the order of their base cases, which is modelled.
- Facts about the whole game tree are not stated, for example that the empty board has value 0 or that the computer never loses. Proving them would mean evaluating the full tree inside the verifier.
