# Minesweeper engine, modelled and verified in Dafny

This project models the game engine of the text Minesweeper in `minesweeper.py`:

- bounds and mine tests (`valid_index`, `is_mine`);
- the neighbour count (`count_neighbors`);
- board generation (`create_boards`), with its two passes: mine placement, then neighbour counting;
- the recursive flood reveal (`reveal_zeros`);
- the win test (`is_win`);
- one move of the game loop in `play`.

It also covers `main`'s test of the setup values.

A cell is `Hidden` (the blank `" "`), `Mine` (the `"X"` marker) or `Count(n)`.

The two boards are lists of lists that the program rewrites in place. Each is modelled as a `Board` object whose `rows` field holds the current contents. Every write to a cell reassigns that field.

The methods that change a board mirror the source's loops and recursion:

- `RevealZeros` is one recursive method with the two nested offset loops;
- `PlaceMines` is the `while` loop;
- `CountingPass` is the two nested `for` loops;
- `CountNeighbors` and `IsWin` are the counting loops.

Each method is proved against a specification function. The theorems are then proved about those functions.

`reveal_zeros` has two specifications:

- `RevealAt` follows the recursion step by step.
- `Flood` says declaratively what the player's board holds afterwards. A cell reached from the chosen cell through a walk of hidden zero cells gets its true value, unless it is a mine or a zero the player already sees.

`RevealIsFlood` proves the two equal. Termination rests on the set of hidden zero cells: every productive expansion removes one cell from it.

The random source of `create_boards` is a parameter: the sequence of `(r1, r2)` pairs that the two `randint` calls return, one pair per pass of the loop. `DrawsSuffice` and `DrawsFallShort` characterise the runs that finish. Such a run exists exactly when `mine_num <= size * size`.

The modules are `Boards` (cells, boards, shared facts), `Neighbours`, `Reveal`, `Generate`, `Game`, and `Scenarios`. `Scenarios` holds concrete moves on 3-by-3 boards.

`reveal_zeros` accepts any coordinate and returns at once when it is off the board (minesweeper.py:75-76), so `RevealZeros` does the same. `main` bounds the mine count only from above (minesweeper.py:203); see Findings.

## Model

| member | source | states |
|---|---|---|
| Boards.ValidIndex | minesweeper.py:21-30 | a pair of integer coordinates is a valid index exactly when it names one of the n*n cells of the board |
| Boards.IsMine | minesweeper.py:33-41 | on a square board, the cell is a mine exactly when it belongs to the board's mine set |
| Boards.Blank | minesweeper.py:102-103 | the fresh board is size by size and every cell is blank |
| Neighbours.CountNeighbors | minesweeper.py:44-62 | the loops count exactly the in-bounds mines among the eight cells around (row, col), and the count is at most 8 |
| Neighbours.MinesBeforeCount | minesweeper.py:56-60 | one pass of the inner loop adds one to the count exactly when the offset is not (0, 0) and lands on an in-bounds mine |
| Neighbours.MinesBeforeStep | minesweeper.py:56-60 | the offsets visited so far gain the cell at (i, j) exactly when it is an on-board mine other than the centre |
| Neighbours.MinesBeforeRowEnd | minesweeper.py:56-57 | finishing a row of offsets starts the next; after the last row every neighbour has been visited |
| Neighbours.NeighbourCountBound | minesweeper.py:52-62 | a cell has between 0 and 8 mine neighbours |
| Neighbours.SameMinesSameCounts | minesweeper.py:113-116 | the neighbour count depends only on where the mines are, so counting on a board whose other cells have already been overwritten gives the same answer |
| Reveal.RevealZeros | minesweeper.py:65-90 | afterwards the player's board is the step-by-step reveal from (row, col) of the board it started as |
| Reveal.RevealAt | minesweeper.py:65-90 | the step-by-step reveal keeps the board square and never creates a hidden zero |
| Reveal.RevealAround | minesweeper.py:83-86 | the remaining offset loops keep the board square and never create a hidden zero |
| Reveal.Visit | minesweeper.py:85-86 | one pass of the inner loop keeps the board square and never creates a hidden zero |
| Reveal.AroundStep | minesweeper.py:83-86 | after the call at one offset, the loops go on from the next offset with fewer hidden zeros than the call began with |
| Reveal.RevealIsFlood | minesweeper.py:80-90 | the step-by-step reveal equals the declarative flood: reached cells get their true value unless they are mines or already-seen zeros, and nothing else changes |
| Reveal.AroundExpands | minesweeper.py:83-86 | running the offset loops to the end settles every neighbour of p and keeps every change within the flood from p |
| Reveal.RevealZeroShrinks | minesweeper.py:80-81 | revealing a hidden zero removes one hidden zero, the measure that makes the recursion end |
| Reveal.RevealOne | minesweeper.py:81 | writing the true value of a writable cell changes only that cell, to its true value, is a true-value write of a writable cell, and at a hidden zero removes that hidden zero |
| Reveal.RevealOffBoard | minesweeper.py:75-76 | a call off the board changes nothing |
| Reveal.RevealWritesTruth | minesweeper.py:81 | every cell afterwards is unchanged or holds its true value, which is never a mine |
| Reveal.RevealSingle | minesweeper.py:89-90 | on a non-zero cell that is not a mine, exactly that cell changes, to its true value |
| Reveal.RevealIdempotent | minesweeper.py:80-90 | a second call at the same cell leaves the board as the first call left it |
| Reveal.Flood | minesweeper.py:80-90 | the flood has the board's shape and holds, cell by cell, the value the reveal leaves there |
| Reveal.FloodGrows | minesweeper.py:81 | the flood keeps the board square and only writes true values to writable cells |
| Reveal.FloodClosed | minesweeper.py:83-86 | in the flood every hidden zero that was revealed has all its neighbours settled, and so does the starting cell |
| Reveal.FloodNoExpansion | minesweeper.py:80 | a call at a cell that is not a hidden zero writes at most that cell |
| Reveal.ReachedZeroExpanded | minesweeper.py:83-86 | a hidden zero reached by the flood is expanded in it |
| Reveal.TouchedTransfer | minesweeper.py:85-86 | what a nested call reaches, the enclosing call reaches too |
| Reveal.GrowsKeeps | minesweeper.py:80-90 | true-value writes keep settled cells settled and never add hidden zeros or writable cells |
| Reveal.ExpansionOpen | minesweeper.py:81-83 | the expansion begins with p revealed as 0 |
| Reveal.ExpansionNext | minesweeper.py:85-86 | the call at one more offset keeps the expansion's invariant |
| Reveal.ExpansionRow | minesweeper.py:83-84 | finishing a row of offsets keeps the invariant |
| Reveal.ExpansionClose | minesweeper.py:83-86 | when the loops are done the board is the flood from p |
| Reveal.ExpansionStart | minesweeper.py:81 | the board with only p revealed is a valid start of the expansion |
| Reveal.ExpansionStep | minesweeper.py:85-86 | a flood from a neighbour of p stays inside the flood from p |
| Reveal.ExpansionReaches | minesweeper.py:83-86 | at the end of the expansion every reached writable cell holds its true value |
| Reveal.ExpansionDone | minesweeper.py:83-86 | at the end of the expansion the board equals the flood |
| Reveal.WalkExpanded | minesweeper.py:83-86 | every hidden zero on a walk from p is expanded at the end |
| Reveal.WalkTouches | minesweeper.py:83-86 | a walk of hidden zeros from p reaches every neighbour of its last cell |
| Reveal.ZeroPathExtend | minesweeper.py:83-86 | a walk of hidden zeros extended by a neighbouring hidden zero is again a walk |
| Generate.CreateBoards | minesweeper.py:93-118 | two new, distinct boards of size by size; the player's board is all blank; the mines are exactly the drawn cells, max(mine_num, 0) of them; every other cell holds its neighbour-mine count |
| Generate.PlaceMines | minesweeper.py:104-110 | the placement loop consumes at most the given draws and leaves exactly the drawn cells as mines, max(mine_num, 0) of them, and every other cell still blank |
| Generate.CountingPass | minesweeper.py:113-116 | the in-place counting pass keeps the mine cells fixed and leaves every other cell holding the number of mines around it on the final board |
| Generate.DrawStep | minesweeper.py:107-110 | one pass of the placement loop marks the drawn cell and raises the mine count exactly when that cell was not yet a mine |
| Generate.MinesOfPlacement | minesweeper.py:106-110 | after placement the mine set is the set of drawn cells |
| Generate.SameMinesSameSet | minesweeper.py:115-116 | boards with mines in the same cells have the same mine set |
| Generate.HiddenBlank | minesweeper.py:103 | every cell of the fresh player's board is hidden |
| Generate.AllCellsCard | minesweeper.py:102 | an n by n board has n*n cells |
| Generate.DrawsSuffice | minesweeper.py:106-110 | when mine_num <= size*size there are draws on the board with which the placement loop finishes |
| Generate.DrawsFallShort | minesweeper.py:106-110 | when mine_num > size*size no draws on the board let the placement loop finish |
| Generate.ListOf | minesweeper.py:106-107 | a listing of a set of cells holds each cell once |
| Game.IsWin | minesweeper.py:154-164 | the result is true exactly when the blank cells summed over the rows equal mine_num, and on a square board when the hidden cells number mine_num |
| Game.CountHidden | minesweeper.py:163 | a row has no more blanks than cells |
| Game.SpacesAreHiddenCells | minesweeper.py:161-164 | the blanks counted row by row are the hidden cells of the board |
| Game.RowCount | minesweeper.py:163 | the blanks in a row prefix are that row's hidden cells |
| Game.SpacesBelow | minesweeper.py:161-163 | the blanks in the first rows are the hidden cells there |
| Game.Step | minesweeper.py:180-195 | a move is lost exactly when the chosen cell is a mine, and then the player's board is left as it was; the board stays square |
| Game.PlayMove | minesweeper.py:180-195 | the status and the player's board after the move are those of the move step |
| Game.StepMine | minesweeper.py:180-183 | choosing a mine loses and leaves the player's board unchanged |
| Game.StepZero | minesweeper.py:184-186 | choosing a zero leaves the flood from it, and the game is won exactly when the hidden cells then number mine_num |
| Game.StepCount | minesweeper.py:190-192 | choosing another count changes only that cell, to its value, and the game is won exactly when the hidden cells then number mine_num |
| Game.StepConsistent | minesweeper.py:180-195 | a move keeps every cell of the player's board blank or equal to a non-mine true value |
| Game.NewBoardsConsistent | minesweeper.py:102-103 | a fresh blank player's board is consistent with any true board |
| Game.WinIffCleared | minesweeper.py:164 | on a consistent board the hidden cells number the mines exactly when every safe cell is revealed |
| Game.StepWins | minesweeper.py:184-195 | with the real mine count, a safe move wins exactly when every safe cell then shows its true value |
| Game.SetupAccepted | minesweeper.py:202-203 | the setup test as written; every mine count it accepts fits on the board |
| Game.SetupValid | minesweeper.py:202-203 | the corrected setup test holds exactly when the test as written holds and the mine count is not negative |
| Game.NegativeMinesNeverWin | minesweeper.py:202-203 | as written, setup accepts -1 mines, and with -1 mines no move wins |
| Game.ValidSetupFits | minesweeper.py:202-203 | with the intended setup test the mines fit on the board, some draws let the placement loop finish, and is_win's target is the number of mines placed |
| Game.NewGame | minesweeper.py:208-210 | with the intended setup test, the new game's two new, distinct boards are consistent, the true board is a counted board, and the announced count is its number of mines |
| Scenarios.NoMinesFirstMoveWins | minesweeper.py:184-189 | on a 3 by 3 board without mines, any first move floods the board and wins |
| Scenarios.CornerZeroWins | minesweeper.py:184-189 | on the one-mine layout, choosing the bottom-right zero shows every cell but the mine and wins |
| Scenarios.MineLoses | minesweeper.py:180-183 | on the one-mine layout, choosing the mine loses |
| Scenarios.CountShowsOneCell | minesweeper.py:190-192 | on the one-mine layout, choosing the 1 next to the mine shows that cell alone and the game goes on |
| Scenarios.ZerosReached | minesweeper.py:83-86 | without mines the flood from any cell reaches every cell |
| Scenarios.ZerosFlood | minesweeper.py:80-86 | without mines the flood from any cell reveals the whole board |
| Scenarios.CornerReached | minesweeper.py:83-86 | on the one-mine layout the flood from the bottom-right corner shows every cell but the mine |
| Scenarios.CornerFlood | minesweeper.py:80-86 | on the one-mine layout the flood from the bottom-right corner is the cleared board |

## Left out

- `is_int` (minesweeper.py:8-18): string parsing with Python's `int()` and its exceptions. Coordinates and setup values are integers in the model, so `ValidIndex` is the range test on its own.
- `print_board` and the messages printed in `play` and `main`: terminal output only.
- `player_choose` and `main`'s `input()` calls: I/O. `PlayMove` asks for the in-range coordinate that `player_choose` guarantees.
- `randint`: the draws are a parameter, and their uniformity is not modelled. `CreateBoards` and `PlaceMines` take only runs that finish: the draws hold at least mine_num distinct cells. A run on which the source's loop never stops has no counterpart.
- The unbounded outer loop of `play` (minesweeper.py:177): one move is modelled as `PlayMove`. `StepConsistent` is the invariant that carries from move to move.
- Reveal.RevealZeros: the true board is passed as its value (`Grid`) rather than as a `Board`, because `reveal_zeros` only reads it. Aliasing between the two boards therefore does not arise there. `PlayMove` requires the two boards to be distinct objects, as `create_boards` returns them.
- Reveal.RevealZeros: requires a board with at least one row. On an empty board `reveal_zeros` raises IndexError at minesweeper.py:75 (`len(real_board[0])`); `main` never builds one, since it demands a size of at least 3.
- Python's recursion limit: the model's recursion has no depth bound. Each productive call reveals a distinct hidden zero, so the nesting is at most one more than the number of zero cells (82 on a 9-by-9 board without mines), far below Python's default limit.

## Findings

| source | as written | input that shows it | evidently intended | confidence | as-written member | corrected member |
|---|---|---|---|---|---|---|
| minesweeper.py:202-203 | the setup test bounds the mine count only from above, so a negative count is accepted | size 3, mines -1: no mine is placed, and `is_win` compares a count of blank cells with -1, so no move can ever win | the mine count is at least 0 (at most 2 * size, as `main`'s input prompt at minesweeper.py:200 says) | medium, not executed | Game.NegativeMinesNeverWin | Game.ValidSetupFits |

`Game.SetupAccepted` is the test as written and `Game.SetupValid` the corrected one. `Game.NewGame` starts a game only under `SetupValid`.
