# Game engines of the arcade: 2048, Minesweeper and Sudoku

This project is a Dafny model of the three game-logic engines of a small
browser arcade, with proofs about them:

- **2048** (`game2048.dfy`, module `Game2048`). A 4×4 grid of tiles. A move
  slides and merges every row or column toward one side, and a random tile
  is inserted into an empty cell. There are two terminal tests: game over
  and won.
- **Minesweeper** (`minesweeper.dfy`, module `Minesweeper`).
  - A difficulty table and the grid it sizes.
  - Mine placement that keeps the first click and its neighbours clear, then
    the neighbour counts.
  - The recursive flood-fill reveal, flag toggling, the win check, and the
    reveal of every mine at the end of a game.
- **Sudoku** (`sudoku.dfy`, module `Sudoku`).
  - The placement test.
  - A randomised backtracking filler that completes a grid in place and
    undoes its placements on failure.
  - The generator that blanks cells of a completed grid.
  - The validity, completeness, solution and hint queries.

Three small support modules sit beside them:

- `chance.dfy` (`Chance`): draws of `Math.random()` as explicit real numbers
  in [0, 1).
- `counting.dfy` (`Counting`): counts of the cells of a board that satisfy a
  property, with update and partition lemmas.
- `optional.dfy` (`Optional`): an `Option` type for results that may be
  absent.

Grids the TypeScript engine changes in place are `array2<int>` in the model: the 2048
grid and the Sudoku grids. Their contracts are stated on the value they hold,
read off by `Cells`. The Minesweeper grid is copied by every operation in the
TypeScript engine, so it is a value, `seq<seq<Cell>>`.

Each use of `Math.random()` takes a supplied draw:

- 2048 takes single draws.
- Minesweeper's mine placement takes a list of draw pairs.
- The Sudoku engine takes an endless source `rand: nat -> real` together
  with the position of its next unused draw.

## Model

| member | source | states |
|---|---|---|
| `Game2048.MergeLine` | lib/gameLogic/2048.ts:97-127 | the merged line is `Slide(line)`, the score is `SlideScore(line)` (the sum of the merged tiles' new values), and `lineMoved` holds exactly when the merged line differs from the input |
| `Game2048.SlideShape` | lib/gameLogic/2048.ts:101-122 | a slid line has four cells and every tile comes before every empty cell |
| `Game2048.SlideSum` | lib/gameLogic/2048.ts:101-117 | sliding preserves the sum of a line |
| `Game2048.SlideNeverAddsTiles` | lib/gameLogic/2048.ts:101-117 | sliding never increases the number of occupied cells |
| `Game2048.SlideKeepsTiles` | lib/gameLogic/2048.ts:106-117 | a line of powers of two (at least 2) slides to a line of such tiles and empty cells |
| `Game2048.SlideScoreBounds` | lib/gameLogic/2048.ts:103-117 | the score is between 0 and the line's sum, at least 4 per tile that disappears, and 0 exactly when no tile disappears |
| `Game2048.MergeExamples` | lib/gameLogic/2048.ts:106-117 | each tile merges at most once: [2,2,2,2] gives [4,4,0,0] with score 8, and [2,2,0,0] gives [4,0,0,0] with score 4 |
| `Game2048.CombineWithoutPair` | lib/gameLogic/2048.ts:107-117 | without two equal neighbouring tiles the merge pass leaves the tiles as they are; with them it shortens the line |
| `Game2048.SlideFixed` | lib/gameLogic/2048.ts:97-127 | a line slides to itself exactly when it is packed and has no two equal neighbouring tiles |
| `Game2048.ArraysEqual` | lib/gameLogic/2048.ts:166-168 | holds exactly when the two lines are equal |
| `Game2048.MoveLines` | lib/gameLogic/2048.ts:48-91 | line k of the moved board, read in the move's direction, is line k of the old board slid; right and down read lines reversed |
| `Game2048.MovedIff` | lib/gameLogic/2048.ts:48-93 | a move changes the board exactly when it changes one of its four lines |
| `Game2048.MoveKeepsTiles` | lib/gameLogic/2048.ts:48-91 | a board of valid tiles moves to a board of valid tiles |
| `Game2048.MoveConserves` | lib/gameLogic/2048.ts:48-91 | a move preserves the sum of the board and never increases the number of tiles |
| `Game2048.ReadLine` | lib/gameLogic/2048.ts:51-82 | the four cells it reads are line k of the grid in the move's direction: a row for left, a reversed row for right, a column read downward for up and upward for down |
| `Game2048.WriteLine` | lib/gameLogic/2048.ts:52-86 | line k of the grid, in the move's direction, now holds the given line; every cell of the other lines is unchanged |
| `Game2048.MoveLine` | lib/gameLogic/2048.ts:50-89 | one turn of a direction's loop: afterwards the first k + 1 lines hold the moved board's lines and the rest the old board's; the returned score and moved flag are the slide score of line k and whether sliding changed it |
| `Game2048.Move` | lib/gameLogic/2048.ts:43-94 | returns a fresh grid holding `MoveBoard` of the input, with the summed line scores; `moved` holds exactly when the new grid differs from the input; the input grid is not in its frame, so it is unchanged |
| `Game2048.LinesMovedIff` | lib/gameLogic/2048.ts:54-88 | the accumulated `moved || lineMoved` over the first k lines holds exactly when one of them changed |
| `Game2048.IsGameOver` | lib/gameLogic/2048.ts:130-153 | true exactly when no cell is empty and no two horizontally or vertically adjacent cells are equal |
| `Game2048.GameOverIffStuck` | lib/gameLogic/2048.ts:130-153 | the game is over exactly when the board is full and no direction changes it |
| `Game2048.HasWon` | lib/gameLogic/2048.ts:156-163 | true exactly when some cell holds 2048 or more |
| `Game2048.EmptyCellsExact` | lib/gameLogic/2048.ts:24-32 | every entry of the collected list is an empty cell, and every empty cell is listed |
| `Game2048.CollectEmpty` | lib/gameLogic/2048.ts:24-32 | the scan's list is the list of empty cells |
| `Game2048.Chosen` | lib/gameLogic/2048.ts:36 | the drawn entry of the list is an empty cell of the board |
| `Game2048.NewTile` | lib/gameLogic/2048.ts:37 | the new tile is 2 or 4 |
| `Game2048.AddRandomTile` | lib/gameLogic/2048.ts:23-40 | returns false and leaves the grid unchanged exactly when no cell is empty; otherwise the drawn empty cell gets a 2 or 4 and every other cell is unchanged |
| `Game2048.InitializeGrid` | lib/gameLogic/2048.ts:10-20 | a fresh grid with exactly two distinct cells holding 2 or 4 and every other cell empty |
| `Minesweeper.DifficultyConfig` | lib/gameLogic/minesweeper.ts:16-20 | each configuration is square, and the mines fit outside a 3×3 first-click block |
| `Minesweeper.GetGridDimensions` | lib/gameLogic/minesweeper.ts:177-180 | the table's rows and columns, which are equal |
| `Minesweeper.GetMineCount` | lib/gameLogic/minesweeper.ts:183-185 | the table's mine count, which leaves room for the first-click block |
| `Minesweeper.InitializeGrid` | lib/gameLogic/minesweeper.ts:23-40 | a rectangular grid of the table's size in which every cell is blank |
| `Minesweeper.BlankGrid` | lib/gameLogic/minesweeper.ts:30-35 | a blank grid has no mines, no flags and no revealed cells |
| `Minesweeper.DirectionsAdjacent` | lib/gameLogic/minesweeper.ts:77-85 | each of the eight offsets leads to an adjacent cell |
| `Minesweeper.AdjacentDirection` | lib/gameLogic/minesweeper.ts:77-85 | every adjacent cell is reached by one of the eight offsets |
| `Minesweeper.CountNeighborMines` | lib/gameLogic/minesweeper.ts:75-98 | the count of mines among the in-bounds neighbours, at most 8 |
| `Minesweeper.NoNeighborMines` | lib/gameLogic/minesweeper.ts:75-98 | the count is 0 exactly when no adjacent in-bounds cell is a mine |
| `Minesweeper.MinesAroundSameMines` | lib/gameLogic/minesweeper.ts:83-95 | the count depends only on where the mines are |
| `Minesweeper.DrawnCell` | lib/gameLogic/minesweeper.ts:49-50 | the row and column a pair of draws selects lie on the grid |
| `Minesweeper.DistinctDrawsAccepted` | lib/gameLogic/minesweeper.ts:47-60 | when the first n draws select n different cells, none holding a mine and none in the first-click block, all n of them are accepted |
| `Minesweeper.PlaceDraw` | lib/gameLogic/minesweeper.ts:49-59 | one turn of the placement loop: the selected cell gets a mine exactly when it has none and lies outside the first-click block, so the mines added so far are exactly the accepted cells |
| `Minesweeper.PlaceMineLoop` | lib/gameLogic/minesweeper.ts:47-60 | adds `placed` mines, none next to the first click, and changes nothing else; `placed` is the number of cells the draws accept, capped at the configured mine count |
| `Minesweeper.FillCounts` | lib/gameLogic/minesweeper.ts:63-69 | every non-mine cell gets its neighbour count; mines and the other fields stay |
| `Minesweeper.PlaceMines` | lib/gameLogic/minesweeper.ts:43-72 | succeeds exactly when the supplied draws accept at least the configured number of cells; on success it adds exactly the configured number of mines, none in the first-click block; keeps every revealed and flag field; leaves every count right |
| `Minesweeper.MineFreeGetsMines` | lib/gameLogic/minesweeper.ts:47-60 | from a mine-free grid, placement leaves exactly 10, 25 or 50 mines |
| `Minesweeper.RevealsOnlyTrans` | lib/gameLogic/minesweeper.ts:115-131 | revealing only hidden unflagged cells composes |
| `Minesweeper.ConsistentSafeZeros` | lib/gameLogic/minesweeper.ts:63-69 | on a grid with right counts, no mine lies next to a safe cell showing 0 |
| `Minesweeper.RevealCell` | lib/gameLogic/minesweeper.ts:101-136 | out of bounds, revealed or flagged: the grid comes back unchanged; otherwise the cell is revealed; only hidden unflagged cells become revealed and no other field changes; the number of hidden cells never grows; a mine or a numbered cell is revealed alone; every cell the call opened that is safe and shows 0 has all its neighbours revealed or flagged; the ghost `order` lists every cell the call revealed, starts at the clicked cell, and each later entry lies next to an earlier entry that was opened as a safe cell showing 0, so only cells the click reaches through opened zeros are revealed; when the counts are right, every cell revealed besides the clicked one is safe |
| `Minesweeper.RevealNeighbour` | lib/gameLogic/minesweeper.ts:125-131 | one turn of the neighbour loop keeps the flood fill's invariant one neighbour further |
| `Minesweeper.ToggleFlag` | lib/gameLogic/minesweeper.ts:139-147 | an unrevealed cell's flag is flipped, a revealed cell is left alone, and every other cell is unchanged |
| `Minesweeper.ToggleFlagTwice` | lib/gameLogic/minesweeper.ts:139-147 | toggling twice restores the grid |
| `Minesweeper.ToggleFlagCount` | lib/gameLogic/minesweeper.ts:139-147 | a toggle moves the flag count by one, or not at all on a revealed cell |
| `Minesweeper.CountFlags` | lib/gameLogic/minesweeper.ts:188-196 | the number of flagged cells |
| `Minesweeper.CheckWin` | lib/gameLogic/minesweeper.ts:150-164 | true exactly when the revealed safe cells number rows × columns − mines |
| `Minesweeper.WinIffSafeRevealed` | lib/gameLogic/minesweeper.ts:150-164 | with the configured number of mines, that count is reached exactly when every safe cell is revealed |
| `Minesweeper.RevealAllMines` | lib/gameLogic/minesweeper.ts:167-174 | every mine becomes revealed; every other field and every safe cell is unchanged |
| `Minesweeper.RevealAllMinesIdempotent` | lib/gameLogic/minesweeper.ts:167-174 | revealing all mines twice is revealing them once |
| `Minesweeper.RevealAllMinesKeepsSafeCells` | lib/gameLogic/minesweeper.ts:167-174 | the revealed safe count is unchanged, and the hidden cells left are the hidden safe ones |
| `Sudoku.IsValidPlacement` | lib/gameLogic/sudoku.ts:42-68 | true exactly when num occurs neither in the row, nor in the column, nor in the box starting at (row − row % 3, col − col % 3), with JavaScript's `%` |
| `Sudoku.BoxOfCell` | lib/gameLogic/sudoku.ts:59-65 | for a cell on the grid, that box is the cell's own 3×3 box |
| `Sudoku.PlacementKeepsConflictFree` | lib/gameLogic/sudoku.ts:26-27 | writing an accepted number into a conflict-free board keeps it conflict-free |
| `Sudoku.ShuffleArray` | lib/gameLogic/sudoku.ts:153-160 | the result is a permutation of the input (same length, same multiset), using one draw per position from the last down to the second |
| `Sudoku.DigitsPermutation` | lib/gameLogic/sudoku.ts:24-25 | a shuffle of 1..9 holds only digits, and every digit |
| `Sudoku.RejectedExcluded` | lib/gameLogic/sudoku.ts:26 | a number the placement test rejects for an empty cell is that cell's value in no solution |
| `Sudoku.FillGrid` | lib/gameLogic/sudoku.ts:20-39 | on success, filled cells are kept, empty cells hold digits, and a conflict-free grid stays conflict-free; on failure, the grid is exactly as on entry and has no solution; each recursion has one empty cell fewer |
| `Sudoku.FillCell` | lib/gameLogic/sudoku.ts:23-34 | the same for the first empty cell: every shuffled digit is tried, so failure means no solution |
| `Sudoku.TryDigit` | lib/gameLogic/sudoku.ts:26-32 | one digit: place, recurse, and undo on failure; on failure no solution has that digit there |
| `Sudoku.EmptySolvable` | lib/gameLogic/sudoku.ts:10-17 | the empty grid has a solution |
| `Sudoku.GenerateCompleteGrid` | lib/gameLogic/sudoku.ts:10-17 | a fresh grid that is a complete, conflict-free board of digits |
| `Sudoku.CopyGrid` | lib/gameLogic/sudoku.ts:76 | a fresh grid holding the same board |
| `Sudoku.ClearingKeepsSolution` | lib/gameLogic/sudoku.ts:89-92 | emptying a filled cell keeps the solution and adds one empty cell |
| `Sudoku.CarvePick` | lib/gameLogic/sudoku.ts:87-88 | the row and column a pick draws lie on the 9×9 grid |
| `Sudoku.DistinctPicks` | lib/gameLogic/sudoku.ts:85-93 | when the first n picks select n different cells, they select n cells |
| `Sudoku.CarveOne` | lib/gameLogic/sudoku.ts:87-92 | one pick of the carving loop: the picked cell is emptied if it is filled, the puzzle keeps its solution, and the empty cells are exactly the different cells picked so far |
| `Sudoku.Carve` | lib/gameLogic/sudoku.ts:85-93 | the solution stays a solution of the puzzle; succeeds exactly when the allowed picks select at least `target` different cells, and then exactly `target` cells are empty |
| `Sudoku.CellsToRemove` | lib/gameLogic/sudoku.ts:79-83 | 40, 50 or 60 cells to empty for easy, medium and hard |
| `Sudoku.GeneratePuzzle` | lib/gameLogic/sudoku.ts:71-96 | succeeds exactly when the carving picks, which follow the draws of the complete grid, select at least `CellsToRemove(d)` different cells; on success: fresh, distinct puzzle and solution grids; the solution is complete and conflict-free; every filled puzzle cell equals the solution's; exactly 40, 50 or 60 cells are empty |
| `Sudoku.SolvableConflictFree` | lib/gameLogic/sudoku.ts:71-96 | a puzzle that has a solution has no conflict, so a generated puzzle passes `isGridValid` |
| `Sudoku.IsPuzzleComplete` | lib/gameLogic/sudoku.ts:99-106 | true exactly when no cell is 0 |
| `Sudoku.CompleteIffNoZeros` | lib/gameLogic/sudoku.ts:99-106 | a board is complete exactly when it has no empty cell |
| `Sudoku.ElementsSize` | lib/gameLogic/sudoku.ts:113 | a list's set is as large as the list exactly when no value repeats |
| `Sudoku.NonZeroDistinct` | lib/gameLogic/sudoku.ts:112 | the non-zero values are distinct exactly when no non-zero value repeats |
| `Sudoku.ColsNoRepeat` | lib/gameLogic/sudoku.ts:117-123 | the board has no column conflict exactly when no column repeats a non-zero value |
| `Sudoku.BoxesNoRepeat` | lib/gameLogic/sudoku.ts:126-137 | the board has no box conflict exactly when none of the nine boxes repeats a non-zero value |
| `Sudoku.NoDuplicates` | lib/gameLogic/sudoku.ts:113 | the set-size test accepts exactly the lists without a repeated value |
| `Sudoku.RowsValid` | lib/gameLogic/sudoku.ts:111-114 | true exactly when no row repeats a non-zero value |
| `Sudoku.ColsValid` | lib/gameLogic/sudoku.ts:117-123 | true exactly when no column repeats a non-zero value |
| `Sudoku.BoxValid` | lib/gameLogic/sudoku.ts:128-135 | true exactly when the box repeats no non-zero value |
| `Sudoku.BoxRowValid` | lib/gameLogic/sudoku.ts:127-136 | true exactly when none of the three boxes in band `boxRow` repeats a non-zero value |
| `Sudoku.BoxesValid` | lib/gameLogic/sudoku.ts:126-137 | true exactly when no box repeats a non-zero value |
| `Sudoku.IsGridValid` | lib/gameLogic/sudoku.ts:109-140 | true exactly when the board is conflict-free, zeros ignored |
| `Sudoku.CheckSolution` | lib/gameLogic/sudoku.ts:143-150 | true exactly when the two boards are equal cell by cell |
| `Sudoku.GetHint` | lib/gameLogic/sudoku.ts:163-175 | None exactly when the puzzle is complete; otherwise the first empty cell in row-major order, with the solution's value there |

## Left out

- Probability distributions are not modelled. This covers the 90 % / 10 % split between 2 and 4 tiles and the uniformity of the picks. A draw is any real in [0, 1), and the model states what each draw selects.
- Draws that never run out are not modelled:
  - `Minesweeper.PlaceMines` returns None when its supplied draws accept fewer cells than the configured mine count. The TypeScript engine keeps drawing.
  - `Sudoku.GeneratePuzzle` returns None when its `attempts` picks select fewer different cells than it must empty. The TypeScript engine keeps drawing. The position in the stream where the carving picks start is returned as a ghost value, because it depends on how many draws the shuffles of the complete grid used.
  - Termination of the TypeScript engine's loops depends on the random source.
- `Minesweeper.RevealCell` models the recursive call's cell-by-cell copy back into the caller's grid as assigning the whole returned grid. The two are equal because the recursive call returns a grid of the same shape. Grids are values, so aliasing between copies is not modelled.
- `Minesweeper.RevealCell` requires a rectangular grid. The TypeScript engine reads the width from row 0 and only ever builds rectangular grids.
- `Sudoku.IsValidPlacement` requires the row to exist. With a row outside the grid, the TypeScript engine reads past the grid and throws.
- `Minesweeper.ToggleFlag` requires the cell to exist. The TypeScript engine does not check bounds.
- `Sudoku.GeneratePuzzle` does not state that the puzzle has a unique solution. The TypeScript engine does not establish it either.
- All numbers are unbounded integers. Every value in these engines stays far below 2^53, where JavaScript numbers stop being exact.
