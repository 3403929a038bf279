/**
 * Points and cleared lines (Tetris/TetrisEngine/Scoring.cs) under a reward
 * table fixed at construction; the engine builds only the "normal game" table.
 */
module Scores {

  /**
   * The accumulated `points` and `lines` plus the reward table: points per
   * automatic fall, per soft drop, per landed cell, and the line-clear formula.
   */
  datatype Scoring = Scoring(
    points: int,
    lines: int,
    pointsPerFall: int,
    pointsPerSoft: int,
    multiplierPerLand: int,
    lineClearRewards: int -> int)

  /** The normal line-clear formula: 50 for at most one line, (2n - 1) * 50 for n > 1. */
  function NormalLineClear(lines: int): int {
    if lines > 1 then (lines * 2 - 1) * 50 else 50
  }

  /** The reward table is the normal game's. */
  ghost predicate Normal(s: Scoring) {
    && s.pointsPerFall == 0
    && s.pointsPerSoft == 1
    && s.multiplierPerLand == 2
    && forall n :: s.lineClearRewards(n) == NormalLineClear(n)
  }

  /** Two scorings share their reward table. */
  ghost predicate SameRewards(a: Scoring, b: Scoring) {
    && a.pointsPerFall == b.pointsPerFall
    && a.pointsPerSoft == b.pointsPerSoft
    && a.multiplierPerLand == b.multiplierPerLand
    && forall n :: a.lineClearRewards(n) == b.lineClearRewards(n)
  }

  /** A fresh normal game: nothing scored yet, normal rewards. */
  function NormalGame(): (s: Scoring)
    ensures s.points == 0 && s.lines == 0
    ensures Normal(s)
  {
    Scoring(0, 0, 0, 1, 2, n => NormalLineClear(n))
  }

  /** An automatic one-row fall; worth nothing in a normal game. */
  function Fall(s: Scoring): (r: Scoring)
    ensures SameRewards(r, s) && r.lines == s.lines
    ensures Normal(s) ==> r.points == s.points
  {
    s.(points := s.points + s.pointsPerFall)
  }

  /** A player-initiated one-row drop; one point in a normal game. */
  function SoftDrop(s: Scoring): (r: Scoring)
    ensures SameRewards(r, s) && r.lines == s.lines
    ensures Normal(s) ==> r.points == s.points + 1
  {
    s.(points := s.points + s.pointsPerSoft)
  }

  /** A piece of `cells` blocks comes to rest; two points per block in a normal game. */
  function Land(s: Scoring, cells: int): (r: Scoring)
    ensures SameRewards(r, s) && r.lines == s.lines
    ensures Normal(s) ==> r.points == s.points + 2 * cells
  {
    s.(points := s.points + s.multiplierPerLand * cells)
  }

  /** `amountOfLines` rows were cleared at once. */
  function LinesCleared(s: Scoring, amountOfLines: int): (r: Scoring)
    ensures SameRewards(r, s)
    ensures r.lines == s.lines + amountOfLines
    ensures Normal(s) && amountOfLines <= 1 ==> r.points == s.points + 50
    ensures Normal(s) && amountOfLines > 1 ==> r.points == s.points + (2 * amountOfLines - 1) * 50
  {
    s.(points := s.points + s.lineClearRewards(amountOfLines), lines := s.lines + amountOfLines)
  }

  /** The documented rewards: one line 50, two lines 150, four lines 350; no line still 50. */
  lemma LineClearExamples(s: Scoring)
    requires Normal(s)
    ensures LinesCleared(s, 0).points == s.points + 50
    ensures LinesCleared(s, 1).points == s.points + 50
    ensures LinesCleared(s, 2).points == s.points + 150
    ensures LinesCleared(s, 4).points == s.points + 350
  {
  }

  /** Clearing lines together pays exactly 50 more than clearing them in two separate batches. */
  lemma LineClearIsSuperLinear(a: int, b: int)
    requires a >= 1 && b >= 1
    ensures NormalLineClear(a + b) == NormalLineClear(a) + NormalLineClear(b) + 50
  {
  }

  // ---------------------------------------------------------------------------
  // Sequences of scoring events

  datatype Event = FallEvent | SoftDropEvent | LandEvent(cells: int) | LinesClearedEvent(amount: int)

  function Apply(s: Scoring, e: Event): Scoring {
    match e
    case FallEvent => Fall(s)
    case SoftDropEvent => SoftDrop(s)
    case LandEvent(cells) => Land(s, cells)
    case LinesClearedEvent(n) => LinesCleared(s, n)
  }

  function Replay(s: Scoring, events: seq<Event>): Scoring
    decreases |events|
  {
    if |events| == 0 then s else Replay(Apply(s, events[0]), events[1..])
  }

  predicate NonNegative(e: Event) {
    match e
    case LandEvent(cells) => cells >= 0
    case LinesClearedEvent(n) => n >= 0
    case _ => true
  }

  /** The lines reported by the events, in total. */
  function ClearedLines(events: seq<Event>): int {
    if |events| == 0 then 0
    else (if events[0].LinesClearedEvent? then events[0].amount else 0) + ClearedLines(events[1..])
  }

  /**
   * Under the normal table, events with non-negative arguments never lower
   * the points or the lines, the table stays the same, and the lines grow by
   * exactly the number of cleared rows the events report.
   */
  lemma {:induction false} ReplayIsMonotone(s: Scoring, events: seq<Event>)
    requires Normal(s)
    requires forall k | 0 <= k < |events| :: NonNegative(events[k])
    ensures Normal(Replay(s, events))
    ensures Replay(s, events).points >= s.points
    ensures Replay(s, events).lines == s.lines + ClearedLines(events)
    ensures Replay(s, events).lines >= s.lines
    decreases |events|
  {
    if |events| > 0 {
      var s' := Apply(s, events[0]);
      assert NonNegative(events[0]);
      assert Normal(s');
      ReplayIsMonotone(s', events[1..]);
    }
  }
}
