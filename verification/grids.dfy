/**
 * Two-dimensional integer arrays, the `int[,]` the engine stores matrices,
 * boards and the queue preview in, and the count of their non-zero cells.
 */
module Grids {

  /**
   * A C# `int[,]`: `rows` is GetLength(0), `cols` is GetLength(1) and
   * `cells[y][x]` is the element `[y, x]`. The dimensions are kept apart from
   * the cells so that an array with no rows still has a column count.
   */
  datatype RawGrid = RawGrid(rows: nat, cols: nat, cells: seq<seq<int>>)

  predicate Rectangular(g: RawGrid) {
    |g.cells| == g.rows && forall y | 0 <= y < |g.cells| :: |g.cells[y]| == g.cols
  }

  /** Every `int[,]` is rectangular by construction. */
  type Grid = g: RawGrid | Rectangular(g) witness RawGrid(0, 0, [])

  function At(g: Grid, y: nat, x: nat): int
    requires y < g.rows && x < g.cols
  {
    g.cells[y][x]
  }

  /** The array whose every cell holds `v`; `new int[rows, cols]` is the case `v == 0`. */
  function Filled(rows: nat, cols: nat, v: int): (g: Grid)
    ensures g.rows == rows && g.cols == cols
    ensures forall y, x | 0 <= y < rows && 0 <= x < cols :: At(g, y, x) == v
  {
    RawGrid(rows, cols, seq(rows, _ => seq(cols, _ => v)))
  }

  /** The array after the assignment `g[y, x] = v`. */
  function Update(g: Grid, y: nat, x: nat, v: int): (r: Grid)
    requires y < g.rows && x < g.cols
    ensures r.rows == g.rows && r.cols == g.cols
    ensures At(r, y, x) == v
    ensures forall y', x' | 0 <= y' < g.rows && 0 <= x' < g.cols && (y' != y || x' != x) ::
              At(r, y', x') == At(g, y', x')
  {
    RawGrid(g.rows, g.cols, g.cells[y := g.cells[y][x := v]])
  }

  /** Two arrays with the same dimensions and the same elements are the same array. */
  lemma Extensionality(a: Grid, b: Grid)
    requires a.rows == b.rows && a.cols == b.cols
    requires forall y, x | 0 <= y < a.rows && 0 <= x < a.cols :: At(a, y, x) == At(b, y, x)
    ensures a == b
  {
    forall y | 0 <= y < a.rows
      ensures a.cells[y] == b.cells[y]
    {
      assert forall x | 0 <= x < a.cols :: a.cells[y][x] == At(a, y, x) == At(b, y, x) == b.cells[y][x];
    }
  }

  // ---------------------------------------------------------------------------
  // Counting non-zero cells

  function Occupied(v: int): nat {
    if v != 0 then 1 else 0
  }

  /** The number of non-zero entries of one row. */
  function RowCount(row: seq<int>): nat {
    if |row| == 0 then 0 else RowCount(row[..|row| - 1]) + Occupied(row[|row| - 1])
  }

  /** The number of non-zero entries of a sequence of rows, in row-major order. */
  function CellsCount(rows: seq<seq<int>>): nat {
    if |rows| == 0 then 0 else CellsCount(rows[..|rows| - 1]) + RowCount(rows[|rows| - 1])
  }

  function NonZeroCount(g: Grid): nat {
    CellsCount(g.cells)
  }

  lemma {:induction false} RowCountBound(row: seq<int>)
    ensures RowCount(row) <= |row|
  {
    if |row| > 0 {
      RowCountBound(row[..|row| - 1]);
    }
  }

  lemma {:induction false} CellsCountBound(rows: seq<seq<int>>, w: nat)
    requires forall y | 0 <= y < |rows| :: |rows[y]| == w
    ensures CellsCount(rows) <= |rows| * w
  {
    if |rows| > 0 {
      CellsCountBound(rows[..|rows| - 1], w);
      RowCountBound(rows[|rows| - 1]);
    }
  }

  /** The count of non-zero cells never exceeds the number of cells. */
  lemma NonZeroCountBound(g: Grid)
    ensures 0 <= NonZeroCount(g) <= g.rows * g.cols
  {
    CellsCountBound(g.cells, g.cols);
  }

  lemma {:induction false} RowCountAppend(s: seq<int>, t: seq<int>)
    ensures RowCount(s + t) == RowCount(s) + RowCount(t)
  {
    if |t| > 0 {
      var t' := t[..|t| - 1];
      assert (s + t)[..|s + t| - 1] == s + t';
      RowCountAppend(s, t');
    } else {
      assert s + t == s;
    }
  }

  function Reverse(s: seq<int>): (r: seq<int>)
    ensures |r| == |s|
    ensures forall i | 0 <= i < |s| :: r[i] == s[|s| - 1 - i]
  {
    seq(|s|, i requires 0 <= i < |s| => s[|s| - 1 - i])
  }

  /** Reading a row backwards meets the same non-zero entries. */
  lemma {:induction false} RowCountReverse(s: seq<int>)
    ensures RowCount(Reverse(s)) == RowCount(s)
  {
    if |s| > 0 {
      var s' := s[..|s| - 1];
      assert Reverse(s) == [s[|s| - 1]] + Reverse(s');
      RowCountAppend([s[|s| - 1]], Reverse(s'));
      RowCountReverse(s');
      assert RowCount([s[|s| - 1]]) == Occupied(s[|s| - 1]) by {
        assert [s[|s| - 1]][..0] == [];
      }
    }
  }

  /** Reversing every row of an array keeps its count. */
  lemma {:induction false} CellsCountReverseRows(rows: seq<seq<int>>)
    ensures CellsCount(seq(|rows|, i requires 0 <= i < |rows| => Reverse(rows[i]))) == CellsCount(rows)
  {
    var rev := seq(|rows|, i requires 0 <= i < |rows| => Reverse(rows[i]));
    if |rows| > 0 {
      var init := rows[..|rows| - 1];
      CellsCountReverseRows(init);
      assert rev[..|rev| - 1] == seq(|init|, i requires 0 <= i < |init| => Reverse(init[i]));
      RowCountReverse(rows[|rows| - 1]);
    }
  }

  /** Column `x` of a rectangular array of width `w`, read top to bottom. */
  function Transpose(rows: seq<seq<int>>, w: nat): (t: seq<seq<int>>)
    requires forall y | 0 <= y < |rows| :: |rows[y]| == w
    ensures |t| == w
    ensures forall x | 0 <= x < w :: |t[x]| == |rows|
    ensures forall x, y | 0 <= x < w && 0 <= y < |rows| :: t[x][y] == rows[y][x]
  {
    seq(w, x requires 0 <= x < w => seq(|rows|, y requires 0 <= y < |rows| => rows[y][x]))
  }

  lemma {:induction false} CellsCountOfEmptyRows(rows: seq<seq<int>>)
    requires forall y | 0 <= y < |rows| :: rows[y] == []
    ensures CellsCount(rows) == 0
  {
    if |rows| > 0 {
      CellsCountOfEmptyRows(rows[..|rows| - 1]);
    }
  }

  /** Appending one entry to each row adds the count of the appended column. */
  lemma {:induction false} CellsCountAppendColumn(a: seq<seq<int>>, b: seq<int>, t: seq<seq<int>>)
    requires |a| == |b| == |t|
    requires forall x | 0 <= x < |a| :: t[x] == a[x] + [b[x]]
    ensures CellsCount(t) == CellsCount(a) + RowCount(b)
  {
    if |a| > 0 {
      var n := |a| - 1;
      CellsCountAppendColumn(a[..n], b[..n], t[..n]);
      assert t[n][..|t[n]| - 1] == a[n];
      assert RowCount(t[n]) == RowCount(a[n]) + Occupied(b[n]);
    }
  }

  /** Counting column by column meets the same cells as counting row by row. */
  lemma {:induction false} CellsCountTranspose(rows: seq<seq<int>>, w: nat)
    requires forall y | 0 <= y < |rows| :: |rows[y]| == w
    ensures CellsCount(Transpose(rows, w)) == CellsCount(rows)
  {
    if |rows| == 0 {
      CellsCountOfEmptyRows(Transpose(rows, w));
    } else {
      var h := |rows| - 1;
      var init := rows[..h];
      CellsCountTranspose(init, w);
      var t := Transpose(rows, w);
      var ti := Transpose(init, w);
      forall x | 0 <= x < w
        ensures t[x] == ti[x] + [rows[h][x]]
      {
      }
      CellsCountAppendColumn(ti, rows[h], t);
    }
  }
}
