# Tetris engine core, modelled in Dafny

This project models the pure game-engine layer of a falling-block puzzle
game (`Tetris/TetrisEngine`), at the stage of the engine where it holds:

- **Matrix**: a square `int[,]` of cell codes that the engine never writes. Its constructor
  rejects non-square arrays. It can turn a quarter turn clockwise or
  counter-clockwise through one shared loop driven by an index delegate. It
  reports its first non-empty row and its number of non-zero cells. The
  engine's argument error for a non-square array is `Failure(NotSquare)`.
- **Shapes**: the seven tetromino matrices I, J, L, O, S, T, Z with ids
  1 to 7, the positioned `Shape` record, and the random pick of a catalog
  entry.
- **Board**: a rows × columns array of cell codes with set, empty and
  check operations addressed as `(x, y)`, where `y` is the row.
- **Scoring**: points and cleared lines under the "normal game" reward
  table. A fall is worth 0, a soft drop 1, a landing 2 per block, and a line
  clear 50, or (2n − 1) × 50 for n > 1 lines at once.
- **Utils**: the layout of the look-ahead queue into the 8 × 4 preview
  array, each queued matrix drawn 3 rows below the previous one.
- **TetrisGame**: the game's dimensions and its queue, which
  `InitializeGame` extends by three random catalog shapes.

Every `int[,]` is a `Grids.Grid`: explicit row and column counts plus
rectangular cells. An array with no rows still has a column count, so the
constructor's square check is exact. Boards, scorings and games are
immutable values. Each mutating call of the engine becomes a function from
the old value to the new one, and its contract says what changes and what
stays the same. The random draw `Random.Next(6)` is a parameter, `draw`,
in `[0, 6)`.

Where the engine's code and its own documentation disagree, the model
follows the code:

- `LinesCleared` is documented as the handler "for when 1 or more lines are
  cleared" (Tetris/TetrisEngine/Scoring.cs:69). Its formula pays 50 for every
  `n <= 1`, so a count of 0, or a negative count, still pays 50. Only
  `n > 1` uses the super-linear formula.
- The comment of `CellIsSet` promises a cell "not equal to 0"
  (Tetris/TetrisEngine/Board.cs:49). The code returns `== 0`, so the check
  is true for an EMPTY cell (see Findings).
- The catalog documentation lists "Z: 7" (Tetris/TetrisEngine/Shapes.cs:33),
  and `RandomShape` promises "a random shape from the list"
  (Tetris/TetrisEngine/Shapes.cs:89). Yet it draws with
  `Random.Next(shapes.Count - 1)`, whose upper bound is exclusive, so the Z
  shape (index 6) is never returned. The model keeps this and proves it
  (`Shapes.RandomShapeRange`). The game keeps drawing through this picker,
  as the code does. `Shapes.IntendedRandomShape` is the documented pick over
  all seven shapes (see Findings).

## Model

| member | source | states |
|---|---|---|
| Matrices.NewMatrix | Tetris/TetrisEngine/Matrix.cs:29-37 | construction succeeds exactly for square arrays and keeps the array unchanged; any other array gives the NotSquare error |
| Matrices.SourceCell | Tetris/TetrisEngine/Matrix.cs:58-79 | the two rotation delegates pick a source cell inside the N × N matrix for every target cell |
| Matrices.Rotate | Tetris/TetrisEngine/Matrix.cs:87-96 | the shared rotation loop builds a new matrix of the same size whose cell (i, j) is the delegate's source cell |
| Matrices.Rotate90 | Tetris/TetrisEngine/Matrix.cs:58 | clockwise: N × N result with result[i, j] = src[N−1−j, i] |
| Matrices.Rotate90CounterClockwise | Tetris/TetrisEngine/Matrix.cs:79 | counter-clockwise: N × N result with result[i, j] = src[j, N−1−i] |
| Matrices.CounterClockwiseUndoesClockwise | Tetris/TetrisEngine/Matrix.cs:58-79 | a clockwise turn followed by a counter-clockwise turn gives back the original matrix |
| Matrices.ClockwiseUndoesCounterClockwise | Tetris/TetrisEngine/Matrix.cs:58-79 | a counter-clockwise turn followed by a clockwise turn gives back the original matrix |
| Matrices.ThreeClockwiseTurns | Tetris/TetrisEngine/Matrix.cs:58-79 | three clockwise turns equal one counter-clockwise turn |
| Matrices.FourClockwiseTurns | Tetris/TetrisEngine/Matrix.cs:58 | four clockwise turns give back the original matrix |
| Matrices.HalfTurn | Tetris/TetrisEngine/Matrix.cs:58-79 | two counter-clockwise turns give the same half turn as two clockwise turns |
| Matrices.FourCounterClockwiseTurns | Tetris/TetrisEngine/Matrix.cs:79 | four counter-clockwise turns give back the original matrix |
| Matrices.ClockwiseDocExample | Tetris/TetrisEngine/Matrix.cs:40-58 | the documented example: [[0,0,1],[1,1,1],[0,0,0]] turns clockwise into [[0,1,0],[0,1,0],[0,1,1]] |
| Matrices.CounterClockwiseDocExample | Tetris/TetrisEngine/Matrix.cs:61-79 | the documented example: [[0,0,1],[1,1,1],[0,0,0]] turns counter-clockwise into [[1,1,0],[0,1,0],[0,1,0]] |
| Matrices.GetNonZeroCount | Tetris/TetrisEngine/Matrix.cs:115-119 | the number of non-zero cells is at most N² |
| Grids.NonZeroCountBound | Tetris/TetrisEngine/Matrix.cs:115-119 | the count of non-zero cells of any array lies in [0, rows × columns] |
| Matrices.ClockwiseKeepsNonZeroCount | Tetris/TetrisEngine/Matrix.cs:87-96 | a clockwise turn keeps the number of occupied cells (it is a transpose followed by reversing each row) |
| Matrices.RotationKeepsNonZeroCount | Tetris/TetrisEngine/Matrix.cs:87-119 | rotation in either direction keeps the number of occupied cells, so a piece scores the same landing reward in every orientation |
| Matrices.FirstNonEmptyRowFrom | Tetris/TetrisEngine/Matrix.cs:103-106 | the search from a start row finds the least row at or after it that holds a non-zero cell, and 0 when there is none |
| Matrices.GetFirstNonEmptyRow | Tetris/TetrisEngine/Matrix.cs:100-107 | the smallest row index holding a non-zero cell; 0, the empty search's default, when every cell is 0 |
| Shapes.SetXPos | Tetris/TetrisEngine/Shapes.cs:7 | setting the column anchor leaves the matrix and the row anchor as they were |
| Shapes.SetYPos | Tetris/TetrisEngine/Shapes.cs:8 | setting the row anchor leaves the matrix and the column anchor as they were |
| Shapes.CatalogSizes | Tetris/TetrisEngine/Shapes.cs:35-86 | the catalog holds 7 square matrices of sizes 4, 3, 3, 2, 3, 3, 3 (I, J, L, O, S, T, Z) |
| Shapes.CatalogIds | Tetris/TetrisEngine/Shapes.cs:24-86 | every non-zero cell of the shape at index k is k + 1, the documented id I = 1 … Z = 7 |
| Shapes.CatalogFourCells | Tetris/TetrisEngine/Shapes.cs:38-85 | every catalog shape has exactly 4 non-zero cells |
| Shapes.CatalogRows | Tetris/TetrisEngine/Shapes.cs:38-85 | every catalog shape has a block in row 0, so its first non-empty row is 0, and no block below row 1 |
| Shapes.RandomShape | Tetris/TetrisEngine/Shapes.cs:92-94 | for a draw in [0, 6) the result is one of the first six catalog shapes, with id draw + 1 < 7 |
| Shapes.IntendedRandomShape | Tetris/TetrisEngine/Shapes.cs:88-91 | the documented pick "a random shape from the list": a draw in [0, 7) yields a catalog shape with id draw + 1 |
| Shapes.IntendedRandomShapeReachesCatalog | Tetris/TetrisEngine/Shapes.cs:24-91 | every catalog shape, the Z shape included, is the documented pick of some draw |
| Shapes.RandomShapeRange | Tetris/TetrisEngine/Shapes.cs:92-94 | no draw yields the Z shape; each of the other six shapes is the pick for its index |
| Boards.NewBoard | Tetris/TetrisEngine/Board.cs:17-19 | a new board has the requested rows and columns and every cell 0; a negative dimension is an error |
| Boards.SetCell | Tetris/TetrisEngine/Board.cs:31-33 | writes the code at row y, column x; every other cell and the dimensions are unchanged |
| Boards.EmptyCell | Tetris/TetrisEngine/Board.cs:40-42 | the cell becomes 0; every other cell and the dimensions are unchanged |
| Boards.EmptyCellIsSetCellZero | Tetris/TetrisEngine/Board.cs:40-42 | emptying a cell has exactly the effect of setting it to 0 |
| Boards.CellIsSet | Tetris/TetrisEngine/Board.cs:50-52 | as written, true exactly when the cell holds 0 |
| Boards.CellOccupied | Tetris/TetrisEngine/Board.cs:44-49 | the documented check: true exactly when the cell holds a non-zero code |
| Boards.CellIsSetIsInverted | Tetris/TetrisEngine/Board.cs:44-52 | the written check is the negation of the documented one; it is true right after EmptyCell and false right after a piece code is written |
| Boards.CellIsSetCounterexample | Tetris/TetrisEngine/Board.cs:50-52 | on a 16 × 10 board with an I block written at (0, 0), the written check says "not set" while the cell is occupied |
| Boards.CellOccupiedFollowsWrites | Tetris/TetrisEngine/Board.cs:44-49 | the documented check is true after writing a non-zero code, false after EmptyCell, and unchanged for every other cell |
| Scores.NormalGame | Tetris/TetrisEngine/Scoring.cs:21-44 | a fresh normal game has 0 points and 0 lines and the normal reward table |
| Scores.Fall | Tetris/TetrisEngine/Scoring.cs:49-51 | under the normal table a fall leaves the points unchanged; lines and the table are never touched |
| Scores.SoftDrop | Tetris/TetrisEngine/Scoring.cs:56-58 | under the normal table a soft drop adds exactly 1 point; lines and the table are never touched |
| Scores.Land | Tetris/TetrisEngine/Scoring.cs:64-66 | under the normal table landing a piece of `cells` blocks adds exactly 2 × cells points; lines and the table are never touched |
| Scores.LinesCleared | Tetris/TetrisEngine/Scoring.cs:72-75 | lines grow by exactly n; under the normal table points grow by 50 for n ≤ 1 and by (2n − 1) × 50 for n > 1 |
| Scores.LineClearExamples | Tetris/TetrisEngine/Scoring.cs:14-31 | 0 or 1 line pays 50, 2 lines 150, 4 lines 350 |
| Scores.LineClearIsSuperLinear | Tetris/TetrisEngine/Scoring.cs:27-31 | clearing a + b lines at once pays exactly 50 more than clearing a and then b lines |
| Scores.ReplayIsMonotone | Tetris/TetrisEngine/Scoring.cs:49-75 | any run of events with non-negative arguments keeps the normal table, never lowers points, and raises lines by exactly the rows it reports cleared |
| Utils.DrawMatrix | Tetris/TetrisEngine/Utils.cs:16-23 | drawing one queued matrix at a row offset writes each of its non-zero cells at that offset and leaves every other preview cell as it was |
| Utils.QueueToIntArr | Tetris/TetrisEngine/Utils.cs:11-27 | the result is always 8 × 4; a cell no non-zero queued cell lands on stays 0; any other cell shows the block of the latest queue entry landing on it, so later entries win overlaps |
| Utils.PreviewUncovered | Tetris/TetrisEngine/Utils.cs:12-23 | in the reference layout (the first k matrices drawn in queue order), a cell no non-zero queued cell lands on is 0 |
| Utils.PreviewLatestCover | Tetris/TetrisEngine/Utils.cs:13-23 | in the reference layout, a covered cell holds the block of the latest queue entry covering it |
| Utils.CatalogQueueFits | Tetris/TetrisEngine/Utils.cs:15-23 | every block of up to three unrotated catalog shapes lands inside the 8 × 4 preview, so the writes are in bounds |
| Utils.FourthShapeDoesNotFit | Tetris/TetrisEngine/Utils.cs:15-23 | in a queue of four or more entries, a catalog shape in fourth place would be written at row 9 or below, outside the preview |
| Game.NewTetrisGame | Tetris/TetrisEngine/Game.cs:11-15 | a new game stores its rows and columns and has an empty queue |
| Game.QueueNewShape | Tetris/TetrisEngine/Game.cs:29-31 | appends one random catalog shape and keeps the earlier entries and the dimensions |
| Game.InitializeGame | Tetris/TetrisEngine/Game.cs:20-25 | appends exactly three random catalog shapes after the existing queue, which it does not clear; dimensions unchanged |

## Left out

- Tetromino coordinates, collision, rotation validation, line clearing and compaction, the ghost piece, spawning, locking, game states, the gravity timer and its locking discipline, and the difficulty ramp: this stage of the engine has no code for any of them.
- The WPF client (grids, pages, key bindings, timers, colour map) and the SignalR relay with its JSON snapshots: user interface and networking, outside the engine.
- `new Random()`: ambient randomness. Each draw is a parameter, constrained to the values `Next(6)` can return.
- 32-bit integer arithmetic: points, lines and the line-clear formula are unbounded integers. C#'s `int` wraps past 2^31 − 1, which takes far more than any game can score.
- Out-of-range board indices: the engine raises an index error. The model makes in-bounds indices a precondition of `SetCell`, `EmptyCell` and `CellIsSet`.
- Other reward tables: the scoring constructor is private and only builds the normal table. The model keeps the table as data, but its contracts state rewards for the normal table only.
- Object identity and mutation: `Matrix` keeps the caller's array by reference and hands it out through `Value`, so every drawn shape shares the catalog's arrays; no engine code writes through `Value`, so the model treats matrices as values. `Shape` setters, `Board` writes, scoring events and queue appends likewise return new values. The input queue of the preview is an immutable sequence, so it cannot be modified.
- Utils.QueueToIntArr: the engine does no bounds check on the preview write (Tetris/TetrisEngine/Utils.cs:23), so a queue with a block past row 7 or column 3 raises an index error, for example a fourth catalog shape after two `InitializeGame` calls. The model requires `QueueFits(queue)` instead of modelling that error; `Utils.FourthShapeDoesNotFit` states when it fails.
- Utils.DrawMatrix: for the same reason, it requires every block of the matrix to land inside the 8 × 4 preview.

## Findings

| source | as written | input that shows it | evidently intended | confidence | as-written member | corrected member |
|---|---|---|---|---|---|---|
| Tetris/TetrisEngine/Board.cs:50-52 | `CellIsSet` returns `_board[y, x] == 0` | a 16 × 10 board after `SetCell(0, 0, 1)`: `CellIsSet(0, 0)` is false although the cell holds 1 | true when the cell is not 0, as its documentation says | high; not executed | Boards.CellIsSetCounterexample | Boards.CellOccupied |
| Tetris/TetrisEngine/Shapes.cs:92-94 | `RandomShape` returns `shapes[new Random().Next(shapes.Count - 1)]`, and the bound of `Next` is exclusive | every draw `Next(6)` can return, 0 to 5: none yields the Z shape at index 6 | `Next(shapes.Count)`, so any of the seven documented shapes, Z: 7 included, can be drawn | high; not executed | Shapes.RandomShapeRange | Shapes.IntendedRandomShape |
