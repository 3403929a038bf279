/**
 * The immutable square cell pattern of one piece in one orientation
 * (Tetris/TetrisEngine/Matrix.cs): construction, rotation by a quarter turn
 * either way, the first non-empty row and the count of occupied cells.
 */
module Matrices {
  import opened Wrappers
  import opened Grids

  /** A matrix is a square `int[,]`; its size is the length of a row. */
  type Matrix = g: Grid | g.rows == g.cols witness RawGrid(0, 0, [])

  datatype MatrixError = NotSquare

  /** The constructor: accepts exactly the square arrays and keeps them as they are. */
  function NewMatrix(value: Grid): (r: Result<Matrix, MatrixError>)
    ensures r.Success? <==> value.rows == value.cols
    ensures r.Success? ==> r.value == value
    ensures r.Failure? ==> r.error == NotSquare
  {
    if value.rows != value.cols then Failure(NotSquare) else Success(value)
  }

  // ---------------------------------------------------------------------------
  // Rotation

  /** The two rotation delegates handed to the shared rotation loop. */
  datatype Turn = Clockwise | CounterClockwise

  /** The source cell `(row, column)` whose value lands at `(i, j)` after `turn`. */
  function SourceCell(turn: Turn, size: nat, i: nat, j: nat): (p: (nat, nat))
    requires i < size && j < size
    ensures p.0 < size && p.1 < size
  {
    match turn
    case Clockwise => (size - 1 - j, i)
    case CounterClockwise => (j, size - 1 - i)
  }

  /** A new matrix of the same size filled cell by cell through `turn`. */
  function Rotate(m: Matrix, turn: Turn): (r: Matrix)
    ensures r.rows == m.rows
    ensures forall i, j | 0 <= i < m.rows && 0 <= j < m.rows ::
              At(r, i, j) == At(m, SourceCell(turn, m.rows, i, j).0, SourceCell(turn, m.rows, i, j).1)
  {
    var n := m.rows;
    RawGrid(n, n, seq(n, i requires 0 <= i < n =>
      seq(n, j requires 0 <= j < n => At(m, SourceCell(turn, n, i, j).0, SourceCell(turn, n, i, j).1))))
  }

  /** Clockwise quarter turn: the cell at `(i, j)` comes from `(N-1-j, i)`. */
  function Rotate90(m: Matrix): (r: Matrix)
    ensures r.rows == m.rows
    ensures forall i, j | 0 <= i < m.rows && 0 <= j < m.rows :: At(r, i, j) == At(m, m.rows - 1 - j, i)
  {
    Rotate(m, Clockwise)
  }

  /** Counter-clockwise quarter turn: the cell at `(i, j)` comes from `(j, N-1-i)`. */
  function Rotate90CounterClockwise(m: Matrix): (r: Matrix)
    ensures r.rows == m.rows
    ensures forall i, j | 0 <= i < m.rows && 0 <= j < m.rows :: At(r, i, j) == At(m, j, m.rows - 1 - i)
  {
    Rotate(m, CounterClockwise)
  }

  /** Turning back the other way undoes a clockwise turn. */
  lemma CounterClockwiseUndoesClockwise(m: Matrix)
    ensures Rotate90CounterClockwise(Rotate90(m)) == m
  {
    var r := Rotate90CounterClockwise(Rotate90(m));
    Extensionality(r, m);
  }

  /** Turning back the other way undoes a counter-clockwise turn. */
  lemma ClockwiseUndoesCounterClockwise(m: Matrix)
    ensures Rotate90(Rotate90CounterClockwise(m)) == m
  {
    var r := Rotate90(Rotate90CounterClockwise(m));
    Extensionality(r, m);
  }

  /** Three clockwise turns make one counter-clockwise turn. */
  lemma ThreeClockwiseTurns(m: Matrix)
    ensures Rotate90(Rotate90(Rotate90(m))) == Rotate90CounterClockwise(m)
  {
    var r := Rotate90(Rotate90(Rotate90(m)));
    Extensionality(r, Rotate90CounterClockwise(m));
  }

  /** Four clockwise turns return the original matrix. */
  lemma FourClockwiseTurns(m: Matrix)
    ensures Rotate90(Rotate90(Rotate90(Rotate90(m)))) == m
  {
    ThreeClockwiseTurns(m);
    ClockwiseUndoesCounterClockwise(m);
  }

  /** Two turns either way make the same half turn. */
  lemma HalfTurn(m: Matrix)
    ensures Rotate90CounterClockwise(Rotate90CounterClockwise(m)) == Rotate90(Rotate90(m))
  {
    Extensionality(Rotate90CounterClockwise(Rotate90CounterClockwise(m)), Rotate90(Rotate90(m)));
  }

  /** Four counter-clockwise turns return the original matrix. */
  lemma FourCounterClockwiseTurns(m: Matrix)
    ensures Rotate90CounterClockwise(Rotate90CounterClockwise(Rotate90CounterClockwise(Rotate90CounterClockwise(m)))) == m
  {
    HalfTurn(m);
    HalfTurn(Rotate90CounterClockwise(Rotate90CounterClockwise(m)));
    FourClockwiseTurns(m);
  }

  /** The example in the clockwise rotation's documentation. */
  lemma ClockwiseDocExample()
    ensures Rotate90(RawGrid(3, 3, [[0, 0, 1], [1, 1, 1], [0, 0, 0]]))
         == RawGrid(3, 3, [[0, 1, 0], [0, 1, 0], [0, 1, 1]])
  {
    var m: Matrix := RawGrid(3, 3, [[0, 0, 1], [1, 1, 1], [0, 0, 0]]);
    Extensionality(Rotate90(m), RawGrid(3, 3, [[0, 1, 0], [0, 1, 0], [0, 1, 1]]));
  }

  /** The example in the counter-clockwise rotation's documentation. */
  lemma CounterClockwiseDocExample()
    ensures Rotate90CounterClockwise(RawGrid(3, 3, [[0, 0, 1], [1, 1, 1], [0, 0, 0]]))
         == RawGrid(3, 3, [[1, 1, 0], [0, 1, 0], [0, 1, 0]])
  {
    var m: Matrix := RawGrid(3, 3, [[0, 0, 1], [1, 1, 1], [0, 0, 0]]);
    Extensionality(Rotate90CounterClockwise(m), RawGrid(3, 3, [[1, 1, 0], [0, 1, 0], [0, 1, 0]]));
  }

  // ---------------------------------------------------------------------------
  // Occupied cells

  /** The number of cells that are not 0, i.e. the number of blocks of the piece. */
  function GetNonZeroCount(m: Matrix): (n: nat)
    ensures n <= m.rows * m.rows
  {
    NonZeroCountBound(m);
    NonZeroCount(m)
  }

  /** A clockwise turn moves cells around but keeps how many are occupied. */
  lemma ClockwiseKeepsNonZeroCount(m: Matrix)
    ensures GetNonZeroCount(Rotate90(m)) == GetNonZeroCount(m)
  {
    var n := m.rows;
    var t := Transpose(m.cells, n);
    var r := Rotate90(m);
    assert r.cells == seq(|t|, i requires 0 <= i < |t| => Reverse(t[i])) by {
      forall i | 0 <= i < n
        ensures r.cells[i] == Reverse(t[i])
      {
        assert forall j | 0 <= j < n :: r.cells[i][j] == At(r, i, j);
      }
    }
    CellsCountReverseRows(t);
    CellsCountTranspose(m.cells, n);
  }

  /** Rotation in either direction keeps the number of occupied cells. */
  lemma RotationKeepsNonZeroCount(m: Matrix)
    ensures GetNonZeroCount(Rotate90(m)) == GetNonZeroCount(m)
    ensures GetNonZeroCount(Rotate90CounterClockwise(m)) == GetNonZeroCount(m)
  {
    ClockwiseKeepsNonZeroCount(m);
    ClockwiseKeepsNonZeroCount(Rotate90(m));
    ClockwiseKeepsNonZeroCount(Rotate90(Rotate90(m)));
    ThreeClockwiseTurns(m);
  }

  // ---------------------------------------------------------------------------
  // First non-empty row

  predicate RowIsEmpty(m: Matrix, y: nat)
    requires y < m.rows
  {
    forall x | 0 <= x < m.cols :: At(m, y, x) == 0
  }

  /** Scans rows `start`, `start + 1`, ... for one holding a non-zero cell; 0 when none does. */
  function FirstNonEmptyRowFrom(m: Matrix, start: nat): (y: nat)
    requires start <= m.rows
    ensures (exists k | start <= k < m.rows :: !RowIsEmpty(m, k)) ==>
              start <= y < m.rows && !RowIsEmpty(m, y) && forall k | start <= k < y :: RowIsEmpty(m, k)
    ensures (forall k | start <= k < m.rows :: RowIsEmpty(m, k)) ==> y == 0
    decreases m.rows - start
  {
    if start == m.rows then 0
    else if !RowIsEmpty(m, start) then start
    else FirstNonEmptyRowFrom(m, start + 1)
  }

  /**
   * The smallest row index holding a non-zero cell; 0, the default of an
   * empty search, when every cell is 0.
   */
  function GetFirstNonEmptyRow(m: Matrix): (y: nat)
    ensures (exists k | 0 <= k < m.rows :: !RowIsEmpty(m, k)) ==>
              y < m.rows && !RowIsEmpty(m, y) && forall k | 0 <= k < y :: RowIsEmpty(m, k)
    ensures (forall k | 0 <= k < m.rows :: RowIsEmpty(m, k)) ==> y == 0
  {
    FirstNonEmptyRowFrom(m, 0)
  }
}
