/**
 * The queue preview (Tetris/TetrisEngine/Utils.cs): the queued matrices are
 * drawn, in queue order, into an 8 x 4 array, each one 3 rows below the
 * previous; only non-zero cells are written.
 */
module Utils {
  import opened Grids
  import opened Matrices
  import Shapes

  const PreviewRows: nat := 8
  const PreviewColumns: nat := 4
  /** Rows between the tops of two consecutive queued matrices. */
  const Spacing: nat := 3

  /** Cell `(y, x)` of `m` exists and holds a block. */
  predicate Covers(m: Matrix, y: int, x: int) {
    0 <= y < m.rows && 0 <= x < m.rows && At(m, y, x) != 0
  }

  /** Every block of every queued matrix lands inside the preview. */
  predicate QueueFits(queue: seq<Matrix>) {
    forall i, y, x | 0 <= i < |queue| && 0 <= y < queue[i].rows && 0 <= x < queue[i].rows && Covers(queue[i], y, x) ::
      y + Spacing * i < PreviewRows && x < PreviewColumns
  }

  /**
   * The reference layout: cell `(r, c)` after the first `k` matrices are drawn
   * holds the block of the latest of them covering it, and 0 if none does.
   */
  function Preview(queue: seq<Matrix>, k: nat, r: int, c: int): int
    requires k <= |queue|
  {
    if k == 0 then 0
    else if Covers(queue[k - 1], r - Spacing * (k - 1), c) then At(queue[k - 1], r - Spacing * (k - 1), c)
    else Preview(queue, k - 1, r, c)
  }

  /** A block of matrix `m`, drawn at row offset `start`, already written by the scan at `(y, x)`. */
  predicate Drawn(m: Matrix, start: int, r: int, c: int, y: int, x: int) {
    Covers(m, r - start, c) && (r - start < y || (r - start == y && c < x))
  }

  /**
   * Draws the blocks of one queued matrix into the preview, `start` rows down:
   * a cell covered by a block takes the block's code, every other cell keeps its value.
   */
  method DrawMatrix(out: Grid, m: Matrix, start: nat) returns (res: Grid)
    requires out.rows == PreviewRows && out.cols == PreviewColumns
    requires forall y, x | 0 <= y < m.rows && 0 <= x < m.rows && Covers(m, y, x) ::
               y + start < PreviewRows && x < PreviewColumns
    ensures res.rows == PreviewRows && res.cols == PreviewColumns
    ensures forall r, c | 0 <= r < PreviewRows && 0 <= c < PreviewColumns ::
              At(res, r, c) == if Covers(m, r - start, c) then At(m, r - start, c) else At(out, r, c)
  {
    res := out;
    for y := 0 to m.rows
      invariant res.rows == PreviewRows && res.cols == PreviewColumns
      invariant forall r, c | 0 <= r < PreviewRows && 0 <= c < PreviewColumns ::
                  At(res, r, c) == if Drawn(m, start, r, c, y, 0) then At(m, r - start, c) else At(out, r, c)
    {
      for x := 0 to m.cols
        invariant res.rows == PreviewRows && res.cols == PreviewColumns
        invariant forall r, c | 0 <= r < PreviewRows && 0 <= c < PreviewColumns ::
                    At(res, r, c) == if Drawn(m, start, r, c, y, x) then At(m, r - start, c) else At(out, r, c)
      {
        if At(m, y, x) != 0 {
          assert Covers(m, y, x);
          res := Update(res, y + start, x, At(m, y, x));
        }
      }
    }
  }

  /**
   * The queue laid out into the 8 x 4 preview array, matrix `i` drawn from
   * row `3 * i` on. A cell no queued block lands on stays 0; any other cell
   * shows the block of the LATEST queue entry landing on it. The queue itself
   * is only read.
   */
  method QueueToIntArr(queue: seq<Matrix>) returns (out: Grid)
    requires QueueFits(queue)
    ensures out.rows == PreviewRows && out.cols == PreviewColumns
    ensures forall r, c | 0 <= r < PreviewRows && 0 <= c < PreviewColumns &&
                          (forall i | 0 <= i < |queue| :: !Covers(queue[i], r - Spacing * i, c)) ::
              At(out, r, c) == 0
    ensures forall r, c, j | 0 <= r < PreviewRows && 0 <= c < PreviewColumns && 0 <= j < |queue| &&
                             Covers(queue[j], r - Spacing * j, c) &&
                             (forall i | j < i < |queue| :: !Covers(queue[i], r - Spacing * i, c)) ::
              At(out, r, c) == At(queue[j], r - Spacing * j, c)
  {
    out := Filled(PreviewRows, PreviewColumns, 0);
    for i := 0 to |queue|
      invariant out.rows == PreviewRows && out.cols == PreviewColumns
      invariant forall r, c | 0 <= r < PreviewRows && 0 <= c < PreviewColumns ::
                  At(out, r, c) == Preview(queue, i, r, c)
    {
      out := DrawMatrix(out, queue[i], i * Spacing);
    }
    forall r, c | 0 <= r < PreviewRows && 0 <= c < PreviewColumns &&
                  (forall i | 0 <= i < |queue| :: !Covers(queue[i], r - Spacing * i, c))
      ensures At(out, r, c) == 0
    {
      PreviewUncovered(queue, |queue|, r, c);
    }
    forall r, c, j | 0 <= r < PreviewRows && 0 <= c < PreviewColumns && 0 <= j < |queue| &&
                     Covers(queue[j], r - Spacing * j, c) &&
                     (forall i | j < i < |queue| :: !Covers(queue[i], r - Spacing * i, c))
      ensures At(out, r, c) == At(queue[j], r - Spacing * j, c)
    {
      PreviewLatestCover(queue, |queue|, r, c, j);
    }
  }

  /** A preview cell no queued block covers stays 0: zero cells are never written. */
  lemma {:induction false} PreviewUncovered(queue: seq<Matrix>, k: nat, r: int, c: int)
    requires k <= |queue|
    requires forall i | 0 <= i < k :: !Covers(queue[i], r - Spacing * i, c)
    ensures Preview(queue, k, r, c) == 0
  {
    if k > 0 {
      assert !Covers(queue[k - 1], r - Spacing * (k - 1), c);
      PreviewUncovered(queue, k - 1, r, c);
    }
  }

  /**
   * A covered preview cell shows the block of the LATEST queue entry that
   * covers it: entries are drawn in queue order, so later ones win overlaps.
   */
  lemma {:induction false} PreviewLatestCover(queue: seq<Matrix>, k: nat, r: int, c: int, j: nat)
    requires j < k <= |queue|
    requires Covers(queue[j], r - Spacing * j, c)
    requires forall i | j < i < k :: !Covers(queue[i], r - Spacing * i, c)
    ensures Preview(queue, k, r, c) == At(queue[j], r - Spacing * j, c)
  {
    if k - 1 > j {
      assert !Covers(queue[k - 1], r - Spacing * (k - 1), c);
      PreviewLatestCover(queue, k - 1, r, c, j);
    }
  }

  /** Up to three unrotated catalog shapes always fit into the preview. */
  lemma CatalogQueueFits(queue: seq<Matrix>)
    requires |queue| <= 3
    requires forall i | 0 <= i < |queue| :: queue[i] in Shapes.Catalog
    ensures QueueFits(queue)
  {
    Shapes.CatalogRows();
    forall i, y, x | 0 <= i < |queue| && 0 <= y < queue[i].rows && 0 <= x < queue[i].rows && Covers(queue[i], y, x)
      ensures y + Spacing * i < PreviewRows && x < PreviewColumns
    {
      assert Shapes.OccupiesRowsBelow(queue[i], 2);
      assert queue[i].rows <= 4;
    }
  }

  /**
   * A queue of any length whose fourth entry is a catalog shape, such as the six
   * entries two `InitializeGame` calls leave, has a block from row 9 on, below
   * the 8-row preview.
   */
  lemma FourthShapeDoesNotFit(queue: seq<Matrix>)
    requires |queue| >= 4 && queue[3] in Shapes.Catalog
    ensures !QueueFits(queue)
  {
    Shapes.CatalogRows();
    var m := queue[3];
    assert !RowIsEmpty(m, 0);
    var x :| 0 <= x < m.cols && At(m, 0, x) != 0;
    assert Covers(queue[3], 0, x);
  }
}
