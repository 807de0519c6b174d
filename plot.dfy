/**
 * The arithmetic of the result card: the canvas side, the plotted point of a
 * result's two scores, and the position of each axis-score indicator.
 * Scores are taken as exact reals.
 */
module Plot {
  import opened Wrappers

  /** The largest side the square canvas is drawn at. */
  const MaxSide: nat := 280

  /** Canvas side: the parent's width capped at 280; a missing parent or a width of 0 means 280. */
  function CanvasSide(parentWidth: Option<nat>): (side: nat)
    ensures 0 < side <= MaxSide
    ensures parentWidth.Some? && parentWidth.value > 0 ==> side <= parentWidth.value
    ensures parentWidth.Some? && 0 < parentWidth.value <= MaxSide ==> side == parentWidth.value
    ensures parentWidth.None? || parentWidth.value == 0 || parentWidth.value >= MaxSide ==> side == MaxSide
  {
    var w := if parentWidth.Some? && parentWidth.value != 0 then parentWidth.value else MaxSide;
    if MaxSide < w then MaxSide else w
  }

  datatype Point = Point(x: real, y: real)

  /** Distance from the centre at which a score of ±10 is drawn: ten twelfths of the half side. */
  function PlotRange(side: real): real {
    (side / 2.0) * (10.0 / 12.0)
  }

  /** Where scores (s1, s2) are drawn on a square canvas of the given side; y grows downwards. */
  function PlotPoint(side: real, s1: real, s2: real): Point {
    var cx := side / 2.0;
    var cy := side / 2.0;
    Point(cx + (s1 / 10.0) * PlotRange(side), cy - (s2 / 10.0) * PlotRange(side))
  }

  /** Reference inverse of the plot: the scores a point on the canvas stands for. */
  function ScoresAt(side: real, p: Point): (real, real)
    requires side > 0.0
  {
    ((p.x - side / 2.0) * 10.0 / PlotRange(side), (side / 2.0 - p.y) * 10.0 / PlotRange(side))
  }

  /** Scores (0, 0) are drawn at the centre of the canvas. */
  lemma PlotCentre(side: real)
    ensures PlotPoint(side, 0.0, 0.0) == Point(side / 2.0, side / 2.0)
  {
  }

  /** On a canvas of positive size, x grows with the first score and y falls with the second, and only then. */
  lemma PlotMonotone(side: real, s1: real, s2: real, t1: real, t2: real)
    requires side > 0.0
    ensures PlotPoint(side, s1, s2).x < PlotPoint(side, t1, t2).x <==> s1 < t1
    ensures PlotPoint(side, s1, s2).y < PlotPoint(side, t1, t2).y <==> t2 < s2
  {
    assert PlotPoint(side, t1, t2).x - PlotPoint(side, s1, s2).x == (t1 - s1) * side / 24.0;
    assert PlotPoint(side, s1, s2).y - PlotPoint(side, t1, t2).y == (t2 - s2) * side / 24.0;
  }

  /** The plot is invertible: each point stands for exactly one pair of scores, and back. */
  lemma PlotRoundTrip(side: real, s1: real, s2: real, p: Point)
    requires side > 0.0
    ensures ScoresAt(side, PlotPoint(side, s1, s2)) == (s1, s2)
    ensures PlotPoint(side, ScoresAt(side, p).0, ScoresAt(side, p).1) == p
  {
    var r := PlotRange(side);
    assert r == side * 5.0 / 12.0 && r > 0.0;
    var q := PlotPoint(side, s1, s2);
    assert q.x - side / 2.0 == (s1 / 10.0) * r;
    assert (s1 / 10.0) * r * 10.0 / r == s1;
    assert side / 2.0 - q.y == (s2 / 10.0) * r;
    assert (s2 / 10.0) * r * 10.0 / r == s2;
    var (t1, t2) := ScoresAt(side, p);
    assert (t1 / 10.0) * r == p.x - side / 2.0;
    assert (t2 / 10.0) * r == side / 2.0 - p.y;
  }

  /** The plotted point's offsets from the centre: side/24 per score unit, y pointing down. */
  lemma PlotOffsets(side: real, s1: real, s2: real)
    ensures PlotPoint(side, s1, s2).x - side / 2.0 == s1 * side / 24.0
    ensures PlotPoint(side, s1, s2).y - side / 2.0 == -s2 * side / 24.0
  {
    assert PlotRange(side) == side * 5.0 / 12.0;
  }

  /** A score within [-10, 10] moves a coordinate at most 5/12 of the side from the centre, so it stays on the canvas. */
  lemma OffsetInside(side: real, s: real, offset: real)
    requires side > 0.0 && -10.0 <= s <= 10.0
    requires offset == s * side / 24.0
    ensures -side * 5.0 / 12.0 <= offset <= side * 5.0 / 12.0
    ensures 0.0 < side / 2.0 + offset < side
  {
    assert offset + side * 5.0 / 12.0 == (s + 10.0) * side / 24.0;
    assert side * 5.0 / 12.0 - offset == (10.0 - s) * side / 24.0;
  }

  /** Scores within [-10, 10] land within 5/12 of the side from the centre, strictly inside the canvas. */
  lemma PlotInside(side: real, s1: real, s2: real)
    requires side > 0.0
    requires -10.0 <= s1 <= 10.0 && -10.0 <= s2 <= 10.0
    ensures var p := PlotPoint(side, s1, s2);
      -side * 5.0 / 12.0 <= p.x - side / 2.0 <= side * 5.0 / 12.0 &&
      -side * 5.0 / 12.0 <= p.y - side / 2.0 <= side * 5.0 / 12.0
    ensures var p := PlotPoint(side, s1, s2); 0.0 < p.x < side && 0.0 < p.y < side
  {
    var p := PlotPoint(side, s1, s2);
    PlotOffsets(side, s1, s2);
    OffsetInside(side, s1, p.x - side / 2.0);
    OffsetInside(side, -s2, p.y - side / 2.0);
  }

  /** Position of an axis-score indicator, as a percentage of the bar's width. */
  function Pct(score: real): real {
    ((score + 10.0) / 20.0) * 100.0
  }

  /** Reference inverse of the indicator: the score a bar position stands for. */
  function ScoreAtPct(pct: real): real {
    pct / 5.0 - 10.0
  }

  /** The indicator puts -10 at the left end, 0 in the middle and 10 at the right end. */
  lemma PctEndpoints()
    ensures Pct(-10.0) == 0.0 && Pct(0.0) == 50.0 && Pct(10.0) == 100.0
  {
  }

  /** The indicator moves right exactly when the score grows. */
  lemma PctMonotone(s: real, t: real)
    ensures Pct(s) < Pct(t) <==> s < t
  {
  }

  /** Scores within [-10, 10] keep the indicator on the bar. */
  lemma PctRange(s: real)
    requires -10.0 <= s <= 10.0
    ensures 0.0 <= Pct(s) <= 100.0
  {
  }

  /** The indicator position determines the score, and back. */
  lemma PctRoundTrip(s: real, pct: real)
    ensures ScoreAtPct(Pct(s)) == s
    ensures Pct(ScoreAtPct(pct)) == pct
  {
  }
}
