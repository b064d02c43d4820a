# Two grid puzzle engines, modelled in Dafny

This project models the game logic of two browser games:

- the 4×4 sliding-tile puzzle ("15-puzzle") of `Lab02/script.js`;
- the 9×9, ten-mine Minesweeper of `Lab03/script.js`.

The models are pure functions over immutable values. All DOM work is dropped, and random draws are turned into inputs.

**Sliding puzzle.** The modules are `PuzzleBoard`, `Inversions` and `SlidingPuzzle`. A board is a `seq<int>` of 16 tiles holding a permutation of 0..15, with 0 as the blank. The model covers:
- `canMove`, the orthogonal-adjacency test;
- the tile click of `onTileClick`, which swaps the tile with the blank and counts the move;
- `isSolved` / `isAlreadySolved`;
- `isSolvable`, exactly as written, as a method whose nested loops mirror those of script.js;
- `generateSolvableBoard`: a Fisher–Yates shuffle, then rejection.

The central lemma, `MovePreservesParity`, proves that every legal move preserves `(inversions + emptyRowFromBottom) % 2`. This is the quantity `isSolvable` tests. Together with the parity of the goal board, it exposes the finding below.

**Minesweeper.** The modules are `MineBoard`, `MinePlacement` and `Minesweeper`. A board is a `seq<seq<Cell>>` of 9 rows of 9 cell records. A `Game` holds:
- the board;
- `mineCount`, the flag counter shown as "mines left";
- `cellsOpened`;
- the `gameOver` and `firstClick` flags.

The model covers:
- deferred mine placement that never mines the first-clicked cell;
- 8-neighbour mine counting, proved to equal the size of the geometric set of mined neighbours;
- the recursive flood fill `openCell`, whose termination measure is the set of closed cells. Its result is pinned down exactly: it opens precisely the cells reachable from the clicked cell through closed, unflagged, mine-free cells with no neighbouring mines;
- left and right clicks;
- `checkWin`.

A game invariant `GameInv` holds initially and is preserved by both clicks. It states:
- no cell is both open and flagged;
- no open cell is a mine;
- `cellsOpened` equals the number of open cells;
- `mineCount` plus the number of flags is 10;
- ten annotated mines exist once the first click has happened.

The shuffle starts from `[0, 1, ..., 15]` (`Lab02/script.js:83`), and `PuzzleBoard.Identity` models that.

## Model

| member | source | states |
|---|---|---|
| SlidingPuzzle.CanMove | Lab02/script.js:57-68 | legal exactly when the two positions are horizontal neighbours in one row, or are 4 apart (vertical neighbours); Manhattan distance 1, no diagonals, no wrap across rows |
| SlidingPuzzle.CanMoveSymmetricIrreflexive | Lab02/script.js:57-68 | adjacency is symmetric, and no position is adjacent to itself |
| PuzzleBoard.IndexOf | Lab02/script.js:41 | `indexOf`: -1 exactly when the value is absent, otherwise the first position holding it |
| PuzzleBoard.Blank | Lab02/script.js:41 | on a permutation board the blank's position is where `indexOf(0)` points, and no other cell holds 0 |
| PuzzleBoard.Swap | Lab02/script.js:45 | the destructuring swap exchanges the two entries and leaves every other entry alone |
| PuzzleBoard.SwapKeepsPermutation | Lab02/script.js:45 | swapping a tile with the blank keeps the board a permutation of 0..15, and the blank lands on the clicked position |
| SlidingPuzzle.Click | Lab02/script.js:39-53 | accepted iff the tile is adjacent to the blank; then exactly the tile and blank entries are exchanged, the counter grows by one and the win flag is "board is the goal"; a rejected click changes neither tiles nor counter |
| SlidingPuzzle.ClickIsReversible | Lab02/script.js:41-46 | clicking where the blank came from undoes a move, restoring the tiles with two moves counted |
| SlidingPuzzle.SolvedFrom | Lab02/script.js:94-99 | the `isAlreadySolved` loop from position i on accepts iff `arr[k] == k + 1` for k in i..14 and `arr[15] == 0` |
| SlidingPuzzle.IsSolved | Lab02/script.js:71-76 | `isSolved` accepts exactly the goal board 1..15 followed by the blank |
| SlidingPuzzle.EmptyRowFromBottom | Lab02/script.js:111-112 | on a permutation board the value lies in 1..4 and is 4 minus the blank's row |
| Inversions.InvCountsPairs | Lab02/script.js:103-109 | the recursive inversion count equals the number of position pairs i < j with both entries non-blank and `arr[i] > arr[j]` |
| SlidingPuzzle.IsSolvable | Lab02/script.js:102-116 | the nested loops return true iff the number of inverted non-blank pairs plus the blank's row from the bottom is even |
| Inversions.BlankExchange | Lab02/script.js:114 | moving a tile past a block of k other tiles into the blank changes the inversions by an amount of the same parity as k |
| SlidingPuzzle.MovePreservesParity | Lab02/script.js:102-116 | every legal move keeps the board a permutation and keeps `(inversions + emptyRowFromBottom) % 2` unchanged |
| SlidingPuzzle.Play | Lab02/script.js:39-53 | any sequence of clicks keeps the board a permutation, with at most one counted move per click |
| SlidingPuzzle.PlayPreservesParity | Lab02/script.js:39-53 | no sequence of clicks changes the parity `isSolvable` tests |
| SlidingPuzzle.GoalParityIsOdd | Lab02/script.js:112-115 | the goal board has parity 1, so `isSolvable` rejects it |
| SlidingPuzzle.OneMoveFromGoalRejected | Lab02/script.js:115 | the board `1..11, blank, 13, 14, 15, 12` is rejected by `isSolvable`, yet one click on position 15 wins |
| SlidingPuzzle.AcceptedBoardNeverReachesGoal | Lab02/script.js:115 | a board that `isSolvable` accepts can never reach the goal, whatever is clicked |
| SlidingPuzzle.IsSolvableIntended | Lab02/script.js:114 | the corrected test: inverted pairs plus blank row from the bottom is odd |
| SlidingPuzzle.ReachesGoalOnlyIfIntended | Lab02/script.js:114 | every board from which some click sequence reaches the goal passes the corrected test |
| PuzzleBoard.Identity | Lab02/script.js:83 | the shuffle starts from 0, 1, ..., 15 |
| SlidingPuzzle.FisherYates | Lab02/script.js:85-88 | the shuffle loop with draws `j` in 0..i yields a rearrangement (same multiset) of its input, and leaves positions above i untouched |
| SlidingPuzzle.Shuffle | Lab02/script.js:82-88 | one round of the generator yields a permutation of 0..15 |
| SlidingPuzzle.FirstAccepted | Lab02/script.js:81-89 | the do-while's result, when one exists, is the shuffle of some supplied round and meets the exit condition |
| SlidingPuzzle.NoneMeansAllRejected | Lab02/script.js:81-89 | the generator finds no board only when every supplied round fails the exit condition |
| SlidingPuzzle.GenerateSolvableBoard | Lab02/script.js:79-92 | the returned board is the first accepted shuffle: a permutation of 0..15 that `isSolvable` accepts and that is not the goal |
| SlidingPuzzle.AcceptedMeans | Lab02/script.js:89 | the exit condition in the terms of script.js: an even count of inverted pairs plus blank row, and not the solved board |
| SlidingPuzzle.NewGame | Lab02/script.js:119-124 | the new game is exactly the generator's first accepted board with zero moves (none only when the supplied rounds run out); it is a permutation from which no click sequence reaches the goal |
| MineBoard.FreshBoard | Lab03/script.js:38-53 | the 9×9 grid of cells, each at its own row and column, none mined, open or flagged, with count 0 |
| MineBoard.OffsetsAreNeighbours | Lab03/script.js:99-104 | the eight (dr, dc) offsets of the double loop, skipping (0, 0), reach exactly the cells adjacent to a cell |
| MineBoard.OffsetInjective | Lab03/script.js:99-101 | distinct offsets lead to distinct neighbours, so no neighbour is counted twice |
| MineBoard.CountFrom | Lab03/script.js:99-108 | the counting loop from offset k on counts exactly the in-grid mined neighbours reached by offsets k..7 |
| MineBoard.CountNeighborMines | Lab03/script.js:97-110 | `countNeighborMines` equals the number of in-grid adjacent cells that are mines, and lies in 0..8 |
| MineBoard.AllCellsCount | Lab03/script.js:219 | the grid has 81 cells |
| MinePlacement.PlaceLoop | Lab03/script.js:76-86 | the placement loop keeps the board well-formed and its counter between its start and 10 |
| MinePlacement.PlaceLoopSpec | Lab03/script.js:76-86 | the loop only adds mines, only on drawn cells other than the excluded one, adds one mine per count, and stops short of 10 only when every usable draw is already mined |
| MinePlacement.EnoughPicksPlaceAll | Lab03/script.js:77 | on a mine-free board with at least ten distinct usable draws, the loop places exactly ten mines |
| MinePlacement.Annotate | Lab03/script.js:89-94 | every non-mine cell gets its neighbour-mine count; nothing else changes, and mine cells are untouched |
| MinePlacement.PlaceMines | Lab03/script.js:75-95 | `placeMines` keeps open and flag state, never mines the excluded cell, labels every safe cell with its count, and on a fresh board with enough usable draws yields exactly ten mines |
| Minesweeper.InitGame | Lab03/script.js:22-53 | a new game: a fresh grid, counter 10, nothing opened, not over, first click pending |
| Minesweeper.InitGameInv | Lab03/script.js:22-53 | the new game satisfies the game invariant |
| Minesweeper.OpenCell | Lab03/script.js:168-198 | no-op on an open or flagged cell; otherwise the cell is opened and the fill terminates; a numbered cell opens only itself and adds one to `cellsOpened`; the fill only opens cells, never a flagged one and never a mine other than the start cell, and keeps `cellsOpened` in step with the open cells; every newly opened cell is reached from the start through cells with no neighbouring mines; around every newly opened zero cell each non-mine, unflagged neighbour ends open |
| Minesweeper.FloodIsExact | Lab03/script.js:168-198 | a cell is newly opened by the fill iff the fill can travel to it from the clicked cell: a chain of adjacent cells through closed, unflagged, mine-free cells with no neighbouring mines |
| Minesweeper.PathOpened | Lab03/script.js:180-196 | along such a chain from a newly opened cell, a reveal closed under the neighbour loop opens every cell |
| Minesweeper.OpenNeighbors | Lab03/script.js:185-196 | the loop over the eight neighbours of a cell with no neighbouring mines opens no mine or flagged cell, opens only cells reached from that cell, keeps the counter in step, and leaves every in-grid non-mine, unflagged neighbour open |
| Minesweeper.OpenCellKeepsInv | Lab03/script.js:168-198 | a reveal from a safe cell keeps the game invariant |
| Minesweeper.CheckWin | Lab03/script.js:218-228 | the game is over afterwards iff it already was or exactly 81 - 10 cells are open; nothing else changes |
| Minesweeper.WinMeansAllSafeOpen | Lab03/script.js:218-222 | under the game invariant, `cellsOpened == 71` holds exactly when the open cells are all the safe cells |
| Minesweeper.LeftClick | Lab03/script.js:112-141 | a no-op once the game is over; the first click places the mines and ends the first-click phase; after that, a flagged or open cell changes nothing, hitting a closed mine ends the game with nothing opened, and a closed safe cell is revealed by the flood fill (exactly the cells reached from it), after which the game is over iff 71 cells are open |
| Minesweeper.Armed | Lab03/script.js:120-125 | the game after the first-click block: on the first click the clicked cell is not made a mine, open and flag state and the counters are kept, every safe cell is labelled with its count, and a mine-free board gets exactly ten mines given ten usable draws; later clicks leave the game unchanged, and the phase flag is cleared |
| Minesweeper.SafeClickWinsIffAllSafeOpen | Lab03/script.js:139-140 | under the game invariant, a click that reveals a safe cell ends the game exactly when every safe cell is then open |
| Minesweeper.FirstPlacementInv | Lab03/script.js:120-125 | after the first click's placement the game invariant holds and the clicked cell is a closed, unflagged non-mine |
| Minesweeper.LeftClickKeepsInv | Lab03/script.js:112-141 | a left click keeps the game invariant |
| Minesweeper.FirstClickIsSafe | Lab03/script.js:120-139 | the first left click never hits a mine: the clicked cell ends open and safe, and the game can only be over because it was won |
| Minesweeper.RightClick | Lab03/script.js:143-166 | no-op when over, before the first click, or on an open cell; otherwise toggles only that cell's flag and moves the counter so that counter plus flags is unchanged |
| Minesweeper.RightClickTwice | Lab03/script.js:152-164 | flagging the same cell twice restores the game exactly |
| Minesweeper.RightClickKeepsInv | Lab03/script.js:143-166 | a right click keeps the game invariant |

## Left out

- DOM and display work is not modelled, because it never changes game state. This covers element creation, `classList`, `textContent`, `renderBoard`, `createBoardCells`, the `element` field of cells, the status messages, `pointerEvents`, `revealMine` and `showAllMines`.
- The Minesweeper timer (`startTimer` / `stopTimer`, `timeElapsed`) is not modelled, because it is asynchronous periodic I/O.
- `Math.random` is replaced by supplied draws:
  - one sequence of Fisher–Yates indices per generator round;
  - one sequence of (row, column) picks for mine placement.

  The uniformity of the shuffle and the probability-one termination of both rejection loops are out of scope.
- SlidingPuzzle.ReachesGoalOnlyIfIntended: only proves the necessary half of the intended rule, that a board which can reach the goal passes the corrected test. Sufficiency (every board passing the test can be solved) would need a constructive solver and is not proved.
- SlidingPuzzle.GenerateSolvableBoard returns `None` when the supplied rounds run out before one is accepted. script.js would keep drawing.
- MinePlacement.PlaceLoop stops when the supplied picks run out, where script.js keeps drawing. So ten mines are only guaranteed when the picks hold at least ten distinct cells other than the clicked one. Minesweeper.FirstPlacementInv, Minesweeper.LeftClickKeepsInv, Minesweeper.FirstClickIsSafe and Minesweeper.SafeClickWinsIffAllSafeOpen assume this.
- SlidingPuzzle.Click requires the tiles to be a permutation of 0..15. In script.js `tiles` always is one, and `NewGame` and `Click` preserve it.
- `parseInt` of `dataset.index`, `dataset.row` and `dataset.col` is not modelled. Clicks take grid positions directly.

## Findings

| source | as written | input that shows it | evidently intended | confidence | as-written member | corrected member |
|---|---|---|---|---|---|---|
| Lab02/script.js:115 | the board is accepted when inversions plus the blank's row from the bottom is even | the goal board has 0 inversions and the blank in row 1 from the bottom, so its sum is odd; the board `1..11, blank, 13, 14, 15, 12` is rejected although one click solves it; every accepted board is unsolvable | for width 4 a board is solvable when that sum is odd | not executed | SlidingPuzzle.AcceptedBoardNeverReachesGoal | SlidingPuzzle.ReachesGoalOnlyIfIntended |
