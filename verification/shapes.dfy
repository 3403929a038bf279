/**
 * The seven tetromino shapes and the positioned `Shape` record
 * (Tetris/TetrisEngine/Shapes.cs).
 */
module Shapes {
  import opened Grids
  import opened Matrices

  /** A matrix with a board anchor; the matrix is read-only, the anchor settable. */
  datatype Shape = Shape(matrix: Matrix, xPos: int, yPos: int)

  function SetXPos(s: Shape, x: int): (r: Shape)
    ensures r.xPos == x && r.matrix == s.matrix && r.yPos == s.yPos
  {
    s.(xPos := x)
  }

  function SetYPos(s: Shape, y: int): (r: Shape)
    ensures r.yPos == y && r.matrix == s.matrix && r.xPos == s.xPos
  {
    s.(yPos := y)
  }

  /** The shapes in catalog order; the shape at index k is drawn with id k + 1. */
  const I: Matrix := RawGrid(4, 4, [[1, 1, 1, 1], [0, 0, 0, 0], [0, 0, 0, 0], [0, 0, 0, 0]])
  const J: Matrix := RawGrid(3, 3, [[2, 0, 0], [2, 2, 2], [0, 0, 0]])
  const L: Matrix := RawGrid(3, 3, [[0, 0, 3], [3, 3, 3], [0, 0, 0]])
  const O: Matrix := RawGrid(2, 2, [[4, 4], [4, 4]])
  const S: Matrix := RawGrid(3, 3, [[0, 5, 5], [5, 5, 0], [0, 0, 0]])
  const T: Matrix := RawGrid(3, 3, [[0, 6, 0], [6, 6, 6], [0, 0, 0]])
  const Z: Matrix := RawGrid(3, 3, [[7, 7, 0], [0, 7, 7], [0, 0, 0]])

  const Catalog: seq<Matrix> := [I, J, L, O, S, T, Z]

  /** Every cell of a matrix is either empty or the given id. */
  predicate HasId(m: Matrix, id: int) {
    forall y, x | 0 <= y < m.rows && 0 <= x < m.rows :: At(m, y, x) == 0 || At(m, y, x) == id
  }

  /** Every occupied cell of a matrix lies in one of its first `k` rows. */
  predicate OccupiesRowsBelow(m: Matrix, k: nat) {
    forall y, x | 0 <= y < m.rows && 0 <= x < m.rows :: At(m, y, x) != 0 ==> y < k
  }

  /** The catalog holds seven square matrices of sizes 4, 3, 3, 2, 3, 3, 3. */
  lemma CatalogSizes()
    ensures |Catalog| == 7
    ensures Catalog[0].rows == 4 && Catalog[3].rows == 2
    ensures forall k | k in {1, 2, 4, 5, 6} :: Catalog[k].rows == 3
  {
  }

  /** The shape at index k uses only the id k + 1: I = 1, J = 2, ..., Z = 7. */
  lemma CatalogIds()
    ensures forall k | 0 <= k < |Catalog| :: HasId(Catalog[k], k + 1)
  {
    assert HasId(I, 1);
    assert HasId(J, 2);
    assert HasId(L, 3);
    assert HasId(O, 4);
    assert HasId(S, 5);
    assert HasId(T, 6);
    assert HasId(Z, 7);
  }

  lemma RowCountUnfold(row: seq<int>)
    requires |row| >= 1
    ensures RowCount(row) == RowCount(row[..|row| - 1]) + Occupied(row[|row| - 1])
  {
  }

  lemma RowCountOfThree(row: seq<int>)
    requires |row| == 3
    ensures RowCount(row) == Occupied(row[0]) + Occupied(row[1]) + Occupied(row[2])
  {
    RowCountUnfold(row);
    RowCountUnfold(row[..2]);
    assert row[..2][..1] == [row[0]];
    RowCountUnfold([row[0]]);
    assert [row[0]][..0] == [];
  }

  lemma RowCountOfFour(row: seq<int>)
    requires |row| == 4
    ensures RowCount(row) == Occupied(row[0]) + Occupied(row[1]) + Occupied(row[2]) + Occupied(row[3])
  {
    RowCountUnfold(row);
    assert row[..3][..2] == row[..2];
    RowCountOfThree(row[..3]);
  }

  /** The occupied cells of a 3 x 3 matrix, counted row by row. */
  lemma NonZeroCountOfThree(m: Matrix)
    requires m.rows == 3
    ensures GetNonZeroCount(m) == RowCount(m.cells[0]) + RowCount(m.cells[1]) + RowCount(m.cells[2])
  {
    var c := m.cells;
    assert c[..2][..1] == [c[0]];
    assert [c[0]][..0] == [];
    assert CellsCount(c) == CellsCount(c[..2]) + RowCount(c[2]);
    assert CellsCount(c[..2]) == CellsCount([c[0]]) + RowCount(c[1]);
    assert CellsCount([c[0]]) == RowCount(c[0]);
  }

  /** The occupied cells of a 4 x 4 matrix, counted row by row. */
  lemma NonZeroCountOfFour(m: Matrix)
    requires m.rows == 4
    ensures GetNonZeroCount(m) == RowCount(m.cells[0]) + RowCount(m.cells[1]) + RowCount(m.cells[2]) + RowCount(m.cells[3])
  {
    var c := m.cells;
    assert CellsCount(c) == CellsCount(c[..3]) + RowCount(c[3]);
    var c3 := c[..3];
    assert c3[..2][..1] == [c3[0]];
    assert [c3[0]][..0] == [];
    assert CellsCount(c3) == CellsCount(c3[..2]) + RowCount(c3[2]);
    assert CellsCount(c3[..2]) == CellsCount([c3[0]]) + RowCount(c3[1]);
    assert CellsCount([c3[0]]) == RowCount(c3[0]);
  }

  /** Every shape of the catalog is a tetromino: exactly four occupied cells. */
  lemma CatalogFourCells()
    ensures forall k | 0 <= k < |Catalog| :: GetNonZeroCount(Catalog[k]) == 4
  {
    NonZeroCountOfFour(I);
    RowCountOfFour(I.cells[0]);
    RowCountOfFour(I.cells[1]);
    RowCountOfFour(I.cells[2]);
    RowCountOfFour(I.cells[3]);
    assert GetNonZeroCount(O) == 4;
    forall m | m in [J, L, S, T, Z]
      ensures GetNonZeroCount(m) == 4
    {
      NonZeroCountOfThree(m);
      RowCountOfThree(m.cells[0]);
      RowCountOfThree(m.cells[1]);
      RowCountOfThree(m.cells[2]);
    }
  }

  /** Every shape of the catalog has a block in its top row and none below its second row. */
  lemma CatalogRows()
    ensures forall k | 0 <= k < |Catalog| :: !RowIsEmpty(Catalog[k], 0) && GetFirstNonEmptyRow(Catalog[k]) == 0
    ensures forall k | 0 <= k < |Catalog| :: OccupiesRowsBelow(Catalog[k], 2)
  {
    assert At(I, 0, 0) != 0 && At(J, 0, 0) != 0 && At(L, 0, 2) != 0 && At(O, 0, 0) != 0;
    assert At(S, 0, 1) != 0 && At(T, 0, 1) != 0 && At(Z, 0, 0) != 0;
    assert forall k | 0 <= k < |Catalog| :: !RowIsEmpty(Catalog[k], 0);
  }

  /** A value the random draw `Random.Next(Count - 1)` can return: 0 to 5. */
  predicate ValidDraw(draw: int) {
    0 <= draw < |Catalog| - 1
  }

  /**
   * The shape for a draw of `Random.Next(Count - 1)`, which returns a value in
   * [0, 6): index 6, the Z shape, is never drawn.
   */
  function RandomShape(draw: int): (m: Matrix)
    requires ValidDraw(draw)
    ensures m in Catalog[..6]
    ensures HasId(m, draw + 1) && draw + 1 < 7
  {
    CatalogIds();
    Catalog[draw]
  }

  /** No draw yields the Z shape, and every other shape is drawn by some value. */
  lemma RandomShapeRange()
    ensures forall draw | ValidDraw(draw) :: RandomShape(draw) != Z
    ensures forall k | 0 <= k < 6 :: RandomShape(k) == Catalog[k]
  {
    forall draw | ValidDraw(draw)
      ensures RandomShape(draw) != Z
    {
      assert At(Z, 0, 0) == 7;
      assert HasId(RandomShape(draw), draw + 1);
    }
  }

  /**
   * The pick the documentation describes, "a random shape from the list":
   * a draw of `Random.Next(Count)`, in [0, 7), so every shape can come up.
   */
  function IntendedRandomShape(draw: int): (m: Matrix)
    requires 0 <= draw < |Catalog|
    ensures m in Catalog
    ensures HasId(m, draw + 1)
  {
    CatalogIds();
    Catalog[draw]
  }

  /** Every catalog shape, the Z shape included, is the intended pick of some draw. */
  lemma IntendedRandomShapeReachesCatalog()
    ensures forall k | 0 <= k < |Catalog| :: exists draw | 0 <= draw < |Catalog| :: IntendedRandomShape(draw) == Catalog[k]
    ensures exists draw | 0 <= draw < |Catalog| :: IntendedRandomShape(draw) == Z
  {
    forall k | 0 <= k < |Catalog|
      ensures exists draw | 0 <= draw < |Catalog| :: IntendedRandomShape(draw) == Catalog[k]
    {
      assert IntendedRandomShape(k) == Catalog[k];
    }
    assert IntendedRandomShape(6) == Z;
  }
}
