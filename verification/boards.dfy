/**
 * The playing field (Tetris/TetrisEngine/Board.cs): a rows x columns array of
 * cell codes addressed as `(x, y)`, where `y` picks the row and `x` the column.
 */
module Boards {
  import opened Wrappers
  import opened Grids

  datatype Board = Board(cells: Grid) {
    function Rows(): nat { cells.rows }
    function Columns(): nat { cells.cols }
  }

  /** `new int[rows, columns]` raises an overflow error for a negative dimension. */
  datatype BoardError = NegativeDimension

  predicate InBounds(b: Board, x: int, y: int) {
    0 <= x < b.Columns() && 0 <= y < b.Rows()
  }

  /** The code stored at column `x` of row `y`. */
  function Cell(b: Board, x: int, y: int): int
    requires InBounds(b, x, y)
  {
    At(b.cells, y, x)
  }

  /** A new board has the requested dimensions and every cell empty. */
  function NewBoard(rows: int, columns: int): (r: Result<Board, BoardError>)
    ensures r.Success? <==> rows >= 0 && columns >= 0
    ensures r.Success? ==> r.value.Rows() == rows && r.value.Columns() == columns
    ensures r.Success? ==> forall x, y | InBounds(r.value, x, y) :: Cell(r.value, x, y) == 0
    ensures r.Failure? ==> r.error == NegativeDimension
  {
    if rows < 0 || columns < 0 then Failure(NegativeDimension)
    else Success(Board(Filled(rows, columns, 0)))
  }

  /**
   * Stores `t` at column `x` of row `y` and nothing else. The engine does no
   * bounds check: an index outside the board raises, so callers must stay inside.
   */
  function SetCell(b: Board, x: int, y: int, t: int): (r: Board)
    requires InBounds(b, x, y)
    ensures r.Rows() == b.Rows() && r.Columns() == b.Columns()
    ensures Cell(r, x, y) == t
    ensures forall x', y' | InBounds(b, x', y') && (x' != x || y' != y) :: Cell(r, x', y') == Cell(b, x', y')
  {
    Board(Update(b.cells, y, x, t))
  }

  /** Clears column `x` of row `y` and nothing else. */
  function EmptyCell(b: Board, x: int, y: int): (r: Board)
    requires InBounds(b, x, y)
    ensures r.Rows() == b.Rows() && r.Columns() == b.Columns()
    ensures Cell(r, x, y) == 0
    ensures forall x', y' | InBounds(b, x', y') && (x' != x || y' != y) :: Cell(r, x', y') == Cell(b, x', y')
  {
    SetCell(b, x, y, 0)
  }

  /** Emptying a cell is the same as setting it to 0. */
  lemma EmptyCellIsSetCellZero(b: Board, x: int, y: int)
    requires InBounds(b, x, y)
    ensures EmptyCell(b, x, y) == SetCell(b, x, y, 0)
  {
  }

  /**
   * The check as written: it answers true exactly when the cell is EMPTY,
   * the opposite of what its documentation promises.
   */
  function CellIsSet(b: Board, x: int, y: int): (r: bool)
    requires InBounds(b, x, y)
    ensures r <==> Cell(b, x, y) == 0
  {
    Cell(b, x, y) == 0
  }

  /** The documented check: true exactly when the cell holds a non-zero code. */
  function CellOccupied(b: Board, x: int, y: int): (r: bool)
    requires InBounds(b, x, y)
    ensures r <==> Cell(b, x, y) != 0
  {
    Cell(b, x, y) != 0
  }

  /**
   * The written check disagrees with the documented one on every cell: right
   * after a cell is emptied it reports the cell as set, and right after a
   * piece code is written it reports the cell as not set.
   */
  lemma CellIsSetIsInverted(b: Board, x: int, y: int, t: int)
    requires InBounds(b, x, y) && t != 0
    ensures CellIsSet(b, x, y) == !CellOccupied(b, x, y)
    ensures CellIsSet(EmptyCell(b, x, y), x, y)
    ensures !CellIsSet(SetCell(b, x, y, t), x, y)
  {
  }

  /** A concrete witness: the top-left cell of a 16 x 10 board after writing an I block. */
  lemma CellIsSetCounterexample()
    ensures var b := NewBoard(16, 10).value;
            var set1 := SetCell(b, 0, 0, 1);
            !CellIsSet(set1, 0, 0) && CellOccupied(set1, 0, 0)
  {
  }

  /** The documented check follows the writes: set by a piece code, cleared by EmptyCell. */
  lemma CellOccupiedFollowsWrites(b: Board, x: int, y: int, t: int, x': int, y': int)
    requires InBounds(b, x, y) && InBounds(b, x', y')
    ensures CellOccupied(SetCell(b, x, y, t), x, y) <==> t != 0
    ensures !CellOccupied(EmptyCell(b, x, y), x, y)
    ensures (x' != x || y' != y) ==>
              CellOccupied(SetCell(b, x, y, t), x', y') == CellOccupied(b, x', y')
  {
  }
}
