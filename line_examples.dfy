/** Worked evaluations on concrete tables, showing the integer slope, the
    truncation of a negative slope toward zero, the wraparound and the
    `line_minmax_y` accumulator's `.x`. */
module LineExamples {
  import opened CInt
  import opened Lines
  import opened LineEvaluation
  import opened LineMinmax
  import opened LinePath

  function Song(): (l: Line)
    ensures WellFormed(l) && l.length == 6
  {
    Line(6, [Point(0, 1600), Point(30000, 1600), Point(31000, 3000),
             Point(60000, 3000), Point(61000, 1300), Point(120000, 1600)])
  }

  /** Half-way up the ramp from 1600 to 3000 the slope 1400 / 1000 is cut to
      1, so the value is 1600 + 500 = 2100, not the 2300 a real slope gives. */
  lemma RampUsesIntegerSlope()
    ensures EvalDefined(Song(), 30500) && Eval(Song(), 30500) == 2100
  {
    var ps := Song().points;
    EvalInterior(Song(), 1, 30500);
    assert CDiv(ps[2].y - ps[1].y, ps[2].x - ps[1].x) == 1;
  }

  /** Half-way down the ramp from 3000 to 1300 the slope -1700 / 1000 is cut
      toward zero to -1, so the value is 3000 - 500 = 2500. */
  lemma DescentTruncatesTowardZero()
    ensures EvalDefined(Song(), 60500) && Eval(Song(), 60500) == 2500
  {
    var ps := Song().points;
    EvalInterior(Song(), 3, 60500);
    assert CDiv(ps[4].y - ps[3].y, ps[4].x - ps[3].x) == -1;
  }

  /** Past the last knot the table repeats: 130000 is read as 10000, on the
      flat first segment. */
  lemma PastTheEndWraps()
    ensures EvalDefined(Song(), 130000) && Eval(Song(), 130000) == 1600
  {
    var ps := Song().points;
    ClipRange(ps, 130000);
    ModSmall(10000, 120000);
    ModAddDivisor(10000, 120000);
    assert Clip(ps, 130000) == 10000;
    EvalWraps(Song(), 130000);
    EvalInterior(Song(), 0, 10000);
  }

  /** The accumulator's `.x` is the least x, here 0, although the least y is 1. */
  lemma MinmaxYReportsLeastX()
    ensures MinmaxYOf([Point(0, 5), Point(10, 1), Point(20, 9)]) == Point(0, 9)
  {
    var ps := [Point(0, 5), Point(10, 1), Point(20, 9)];
    assert ps[..2] == [Point(0, 5), Point(10, 1)];
    assert ps[..2][..1] == [Point(0, 5)];
    assert ps[..2][..1][..0] == [];
  }

  /** On a table whose first knot is not at a multiple of its width the
      wraparound is not a shift by the width: 350 = 200 + 150 is read as
      350 % 150 + 100 = 150, not as 200. */
  lemma OffsetTableNotPeriodic()
    ensures var l := Line(2, [Point(100, 0), Point(250, 150)]);
            EvalDefined(l, 200) && EvalDefined(l, 350) &&
            Eval(l, 200) == 100 && Eval(l, 350) == 50
  {
    var l := Line(2, [Point(100, 0), Point(250, 150)]);
    EvalInterior(l, 0, 200);
    ModSmall(50, 150);
    ModAddDivisor(50, 150);
    ModAddDivisor(200, 150);
    CDivModNonNegative(350, 150);
    assert Clip(l.points, 350) == 150;
    EvalWraps(l, 350);
    EvalInterior(l, 0, 150);
  }

  /** `line_to_gpathinfo` scales raw coordinates: on a table that does not
      start at x = 0 the last knot lands right of the closing corner
      `(150, 100)`, and above the screen. */
  lemma OffsetTableOffScreen()
    ensures var l := Line(2, [Point(100, 0), Point(250, 150)]);
            Projectable(l) && Projection(l, 150, 100, 20)[2] == GPoint(250, -140)
  {
    var l := Line(2, [Point(100, 0), Point(250, 150)]);
    var ps := l.points;
    assert ps[..1][..0] == [] && ps[..1] == [Point(100, 0)];
    assert MinmaxYOf(ps) == Point(100, 150);
    assert YSpan(l) == 50;
    ProjectionShape(l, 150, 100, 20, 1);
    CDivExact(250, 150);
    CDivExact(-140, 50);
  }
}
