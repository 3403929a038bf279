/**
 * The game object at this stage of the engine (Tetris/TetrisEngine/Game.cs):
 * its dimensions and a look-ahead queue of matrices filled from the catalog.
 */
module Game {
  import opened Matrices
  import opened Shapes

  datatype TetrisGame = TetrisGame(rows: int, columns: int, queue: seq<Matrix>)

  /** A new game records its dimensions and has nothing queued. */
  function NewTetrisGame(rows: int, columns: int): (g: TetrisGame)
    ensures g.rows == rows && g.columns == columns
    ensures |g.queue| == 0
  {
    TetrisGame(rows, columns, [])
  }

  /** Appends the shape picked by `draw` to the queue and changes nothing else. */
  function QueueNewShape(g: TetrisGame, draw: int): (r: TetrisGame)
    requires ValidDraw(draw)
    ensures r.rows == g.rows && r.columns == g.columns
    ensures |r.queue| == |g.queue| + 1 && r.queue[..|g.queue|] == g.queue
    ensures r.queue[|g.queue|] in Catalog
    ensures r.queue[|g.queue|] == RandomShape(draw)
  {
    g.(queue := g.queue + [RandomShape(draw)])
  }

  /**
   * Queues three shapes, one per draw, after whatever is queued already:
   * the queue is not cleared, so a second call leaves six entries.
   */
  method InitializeGame(g: TetrisGame, draws: seq<int>) returns (r: TetrisGame)
    requires |draws| == 3 && forall k | 0 <= k < 3 :: ValidDraw(draws[k])
    ensures r.rows == g.rows && r.columns == g.columns
    ensures |r.queue| == |g.queue| + 3
    ensures r.queue[..|g.queue|] == g.queue
    ensures forall k | 0 <= k < 3 :: r.queue[|g.queue| + k] == RandomShape(draws[k])
    ensures forall k | |g.queue| <= k < |r.queue| :: r.queue[k] in Catalog
  {
    r := g;
    for i := 0 to 3
      invariant r.rows == g.rows && r.columns == g.columns
      invariant |r.queue| == |g.queue| + i
      invariant r.queue[..|g.queue|] == g.queue
      invariant forall k | 0 <= k < i :: r.queue[|g.queue| + k] == RandomShape(draws[k])
      invariant forall k | |g.queue| <= k < |r.queue| :: r.queue[k] in Catalog
    {
      r := QueueNewShape(r, draws[i]);
    }
  }
}
