# Minesweeper board and game, modelled in Dafny

This project models the core of a small Java Minesweeper game: the `Board` class (`src/Board.java`) and the
`MineSweeper` game controller (`src/MineSweeper.java`). Cells are numbered row by row: the cell in row `i`,
column `j` of a board `width` cells wide is `i * width + j`.

- `cells.dfy`, module `Cells`: the board geometry. It defines `Neighbours(width, height, c)`, the clipped 3x3
  block around `c` without `c` itself. `AdjacentCells` builds that set with the source's two nested loops and is
  proved equal to it.
- `board.dfy`, module `Minefield`: the rest of the board.
  - The constants `MINE` (9) and `COVERED` (10).
  - Mine placement (`PlaceMines`) and the mine-field counting pass (`BuildMineField`, `MarkMines`, `CountMine`).
  - The reveal step on the cleared-cell bitmap (`Board.Clear`, `Board.Sweep`) and the win test (`Board.AllClear`).
  - The two views: `Cover` and `Reshape`, used by `Board.ClearedView` and `Board.CoveredView`.
  - `class Board` keeps the source's fields. `width`, `height`, `mines`, `mineField` and `clearedCells` are
    `const`, as they are `final` in the source. Only the contents of `clearedCells` change.
- `minesweeper.dfy`, module `Game`: `class MineSweeper`, with the `running` and `won` flags and the `Update` move.

The specification functions are `Neighbours`, `MineCount(width, height, mines, c)` (the number of mines among
the neighbours of `c`), `FieldValue` (`MINE` on a mine, otherwise `MineCount`), `CoverOf` (the covered view of a
field) and the grid predicates `RowsOf` and `EntriesIn`.

`Board.Valid()` is the board invariant:
- the shape is positive;
- both arrays have `width * height` entries;
- every mine is a cell of the board;
- every mine-field entry equals `FieldValue`;
- no mine is ever cleared.

Every `Board` method that changes the bitmap keeps it.

Two sources of nondeterminism in the Java code become arbitrary choices:
- Each random mine draw, retried until it hits a free cell, is one choice of any cell not yet holding a mine.
- Every iteration over a `HashSet` takes its elements in any order. `Pick` supplies the next element.

So every property proved here holds for every draw and every iteration order.

The reveal step is modelled as the code behaves, which differs from the usual flood fill. The flag in `sweep`
starts false and turns true at the first neighbour holding a mine. Only after that are covered non-mine neighbours
cleared and swept in turn. Two consequences are proved:
- A cell with no mine next to it reveals only itself. See `Board.Sweep` and the example
  `FarCornerClick`: on a 5x5 board whose only mine is cell 0, clicking cell 24 clears cell 24 alone.
- Every other cell the step reveals is next to a cell with a mine neighbour. This is the predicate `SweptFrom`.

The standard Minesweeper design instead reveals the whole connected zero region and its numbered border. Where
that design and the code disagree, this model follows the code.

## Model

| member | source | states |
|---|---|---|
| Cells.AdjacentCells | src/Board.java:111-120 | the set the loops build is exactly the board cells whose row and column each differ from c's by at most one, c excluded; it has at most 8 members |
| Cells.BlockMinusCentre | src/Board.java:115-118 | the clipped block the two loops enumerate, less c itself, is the neighbour set of c |
| Cells.BlockCellsMember | src/Board.java:115-117 | the outer loop over rows adds exactly the cells of the row range and column range |
| Cells.RowCellsMember | src/Board.java:116-117 | the inner loop over columns adds exactly the cells of one row in the column range |
| Cells.ClipBlock | src/Board.java:115-116 | clipping the rows and columns with max and min keeps exactly the in-board rows and columns within one of c's |
| Cells.NeighboursSymmetric | src/Board.java:111-120 | a is adjacent to c if and only if c is adjacent to a |
| Cells.NeighboursOnBoard | src/Board.java:115-118 | every adjacent cell lies in [0, width*height) and differs from c |
| Cells.NeighboursCard | src/Board.java:115-118 | a cell has at most 8 adjacent cells |
| Cells.NeighbourOffset | src/Board.java:115-117 | an adjacent cell lies at one of the eight offsets ±1, ±width, ±width±1 from c |
| Cells.CellAt | src/Board.java:9-10 | row r, column q (0 <= q < width) names cell r*width+q, and that cell has row r and column q |
| Cells.RowInRange | src/Board.java:9-10 | a cell number is below width*height exactly when its row is below height |
| Cells.CellRow | src/Board.java:113-114 | every cell of the board has a row below height and is rebuilt from its row and column |
| Minefield.FieldValueSentinels | src/Board.java:6-7 | a mine-field entry is MINE exactly on a mine; elsewhere it is a count from 0 to 8; it is never COVERED |
| Minefield.MineCountBounded | src/Board.java:43-46 | no cell has more than 8 mines next to it |
| Minefield.MineCountStep | src/Board.java:43-46 | counting one more mine adds one to the count of exactly the cells adjacent to it |
| Minefield.FreeCellExists | src/Board.java:32-35 | while fewer mines than cells are placed, a free cell exists for the next draw |
| Minefield.PlaceMines | src/Board.java:28-37 | the result is the too-many-mines error exactly when numMines >= n; otherwise max(0, numMines) distinct mines, all in [0, n) |
| Minefield.Pick | src/Board.java:41 | the element an iteration over a hash set yields next is a member of the set |
| Minefield.MarkMines | src/Board.java:41-42 | after the first pass, every mine holds MINE and every other cell 0 |
| Minefield.NothingCounted | src/Board.java:39-42 | before the counting pass, the entries are the counts of no mines |
| Minefield.CountMine | src/Board.java:43-46 | after one mine's pass, every non-mine entry counts that mine as well; mines keep MINE |
| Minefield.BuildMineField | src/Board.java:39-47 | a fresh field of width*height entries: MINE on every mine, elsewhere the number of adjacent mines |
| Minefield.SweptFromExtend | src/Board.java:102-105 | clearing a covered neighbour of a cell with a mine next to it keeps every revealed cell traceable to such a cell |
| Minefield.SweptFromCompose | src/Board.java:105-106 | the cells a nested sweep reveals are traceable in the same way as those of the outer sweep |
| Minefield.FarCornerHasNoMineNeighbour | src/Board.java:111-120 | on a 5x5 board whose only mine is cell 0, no neighbour of cell 24 is a mine |
| Minefield.FarCornerClick | src/Board.java:77-110 | on a 5x5 board whose only mine is cell 0, a click on cell 24 clears cell 24 and changes nothing else in the bitmap, for every iteration order |
| Minefield.Cover | src/Board.java:122-128 | a fresh array of the same length: COVERED exactly where the cell is not cleared, the input's entry elsewhere; the input is left unchanged |
| Minefield.CoverHidesCovered | src/Board.java:122-128 | the covered view depends only on the entries of cleared cells |
| Minefield.CoverAllCleared | src/Board.java:122-128 | once every cell is cleared, the covered view equals the field |
| Minefield.RowIndexInRange | src/Board.java:132-133 | every row copied lies inside the vector |
| Minefield.RowsOfInverse | src/Board.java:130-135 | a grid that holds v row by row holds every entry c of v at row c/n, column c%n |
| Minefield.Reshape | src/Board.java:130-135 | a fresh grid of v.length/n rows of n entries with m[i,j] == v[i*n+j], and every entry of v in a full row found at (c/n, c%n) |
| Minefield.FullRows | src/Board.java:59-66 | a board of width*height cells fills exactly height rows of width entries |
| Minefield.Board.constructor | src/Board.java:23-49 | a valid board of the given shape with max(0, numMines) mines, the counted mine field, and no cell cleared |
| Minefield.Board.AllClear | src/Board.java:68-74 | true exactly when the decrementing count of covered cells is at most the number of mines, and exactly when every cell without a mine is cleared |
| Minefield.Board.WonByCount | src/Board.java:68-74 | on a valid board, at most as many covered cells as mines is the same as every safe cell being cleared |
| Minefield.Board.Clear | src/Board.java:77-82 | false exactly on a mine, which leaves the bitmap unchanged; otherwise cell c ends up cleared, with the guarantees of Sweep |
| Minefield.Board.Sweep | src/Board.java:84-110 | keeps the board valid, so no mine is cleared; clears c; changes entries only from false to true; clears nothing but c when c has no mine neighbour; every other revealed cell is next to c or to a revealed cell that has a mine neighbour; terminates because the covered cells shrink |
| Minefield.Board.ClearedView | src/Board.java:59-61 | a fresh height x width grid holding the mine field row by row |
| Minefield.Board.CoveredView | src/Board.java:63-66 | a fresh height x width grid holding the covered view of the mine field row by row |
| Minefield.Board.CoveredViewHidesMines | src/Board.java:63-66 | on a valid board every entry of the covered view is COVERED or a count from 0 to 8, never MINE |
| Game.MineSweeper.constructor | src/MineSweeper.java:8-12 | a new game on a fresh valid board is running and not won |
| Game.MineSweeper.Update | src/MineSweeper.java:26-34 | no effect once the game is over; a mine ends the game as lost with the bitmap unchanged; otherwise the cell is swept, and the game is won and stopped exactly when every safe cell is cleared; won implies not running and all safe cells cleared |

## Left out

- The random draw of mine cells (`java.util.Random`) is left out. Each draw that the source retries until it hits a free cell is one arbitrary choice of a free cell. Uniformity and the probabilistic termination of the retry loop are not modelled.
- The iteration order of `HashSet` is left open. `Pick` may return any element, so the proved properties hold for every order.
- Minefield.Board.constructor requires `width > 0`, `height > 0` and `numMines < width * height`:
  - Where the source throws `AssertionError` for too many mines, `PlaceMines` returns `TooManyMines`. A Dafny constructor cannot fail, so the constructor leaves that case to `PlaceMines`.
  - Boards with a zero or negative dimension are not modelled. In the source their behaviour depends on the signs:
    - If `width * height` is negative, the constructor throws: `AssertionError` when `numMines >= width * height`, otherwise a negative array size when it allocates the mine field.
    - If the board has no cells (`width * height == 0`, possible only with `numMines < 0`), `clear` throws on any cell and `allClear` returns true. With `width == 0` both views divide by zero.
    - If both dimensions are negative, construction, `clear` and `allClear` run. The row loop of `adjacentCells` is empty, so a sweep clears only its own cell. Only the two views throw, when `reshape` allocates a negative number of rows.
- Game.MineSweeper.constructor has the same requirements as Minefield.Board.constructor.
- Minefield.Board.Clear requires `0 <= c < width * height`. The source throws `ArrayIndexOutOfBoundsException` when it clears a cell outside the board.
- Game.MineSweeper.Update requires the same of `c` while the game is running.
- Java's 32-bit `int` arithmetic is not modelled. Integers are unbounded, so an overflow of `width * height` or of a cell number is out of scope.
- `getWidth`, `getHeight`, `getBoard`, `isRunning` and `isWon` each return a field. The model reads `width`, `height`, `board`, `running` and `won` directly.
- `Arrays.copyOf` and `System.arraycopy` are specified by their results only. The copy is an array initialiser; the row copy is a parallel assignment.
- `reshape` returns `int[][]` with every row of the same length. The model returns a rectangular `array2<int>`.
- Minefield.Board.Sweep does not state exactly which cells a sweep from a cell with a mine neighbour reveals, because that set depends on the iteration order. It states where each revealed cell comes from (`SweptFrom`) and the frame and safety facts.
- Minefield.Board.Clear: idempotence is not claimed. The model leaves the order of every iteration over `adjacentCells` open, and may pick a different order on each call. Under that abstraction a second click on a cleared cell can clear more cells. The source always builds the neighbour set the same way and walks it in the same order, so a repeated click there changes nothing. The model does not capture that.
