/** `line_to_gpathinfo`: scaling a table's raw coordinates by width / (x span)
    and (height - plus_y) / (y span), flipping y about `height`, and closing
    the result with two corners on the baseline at `height`, as the vertices
    of a drawable path. */
module LinePath {
  import opened CInt
  import opened Lines
  import opened LineMinmax

  datatype Option<T> = None | Some(value: T)

  /** A screen point (the SDK's `GPoint`). */
  datatype GPoint = GPoint(x: int, y: int)

  /** The SDK's `GPathInfo`: a point count and the buffer of points. */
  class GPathInfo {
    var numPoints: int
    var points: array<GPoint>

    constructor (n: int, buffer: array<GPoint>)
      ensures numPoints == n && points == buffer
    {
      numPoints := n;
      points := buffer;
    }
  }

  /** What a fit depends on: the two spans the scales divide by and the
      box, `width` wide and `height` tall, of which `plusY` is kept below
      the lowest knot. */
  datatype Fit = Fit(xspan: int, yspan: int, width: int, height: int, plusY: int) {
    predicate Defined() {
      xspan != 0 && yspan != 0
    }
  }

  /** One knot on screen.  The source scales by float factors,
      `transform_x = width / xspan` and `transform_y = (height - plus_y) / yspan`,
      flips y about `height` (the screen's y grows downward) and converts to
      integers by truncation toward zero.  Read in exact arithmetic, the
      truncated x * width / xspan is C's integer quotient of x * width by
      xspan, and the truncated height - y * (height - plus_y) / yspan that of
      height * yspan - y * (height - plus_y) by yspan, which is how they are
      written here. */
  function ScreenPoint(p: Point, f: Fit): (r: GPoint)
    requires f.Defined()
    ensures p.x == 0 ==> r.x == 0
    ensures p.y == 0 ==> r.y == f.height
  {
    CDivExact(f.height, f.yspan);
    GPoint(CDiv(p.x * f.width, f.xspan),
           CDiv(f.height * f.yspan - p.y * (f.height - f.plusY), f.yspan))
  }

  /** The knots on screen, in order. */
  function Interior(ps: seq<Point>, f: Fit): (r: seq<GPoint>)
    requires f.Defined()
    ensures |r| == |ps|
    decreases |ps|
  {
    if |ps| == 0 then [] else Interior(ps[..|ps| - 1], f) + [ScreenPoint(ps[|ps| - 1], f)]
  }

  /** Each interior point is computed from its own knot alone. */
  lemma {:induction false} InteriorAt(ps: seq<Point>, f: Fit, i: nat)
    requires f.Defined() && i < |ps|
    ensures Interior(ps, f)[i] == ScreenPoint(ps[i], f)
    decreases |ps|
  {
    if i < |ps| - 1 {
      InteriorAt(ps[..|ps| - 1], f, i);
    }
  }

  /** A path: the bottom-left corner, the knots on screen, the bottom-right
      corner. */
  function Path(ps: seq<Point>, f: Fit): (r: seq<GPoint>)
    requires f.Defined()
    ensures |r| == |ps| + 2
    ensures r[0] == GPoint(0, f.height) && r[|ps| + 1] == GPoint(f.width, f.height)
  {
    [GPoint(0, f.height)] + Interior(ps, f) + [GPoint(f.width, f.height)]
  }

  /** `minmax_x.y - minmax_x.x`: the span the horizontal scale divides by. */
  function XSpan(l: Line): (r: int)
    requires l.Valid() && l.length >= 1
    ensures r == l.points[l.length - 1].x - l.points[0].x
    ensures l.length == 1 ==> r == 0
    ensures Increasing(l.points) && l.length >= 2 ==> r > 0
  {
    LineMinmaxX(l).y - LineMinmaxX(l).x
  }

  /** `minmax_y.y - minmax_y.x`: the span the vertical scale divides by,
      the maximum y less the minimum x that `line_minmax_y` reports. */
  function YSpan(l: Line): (r: int)
    ensures forall i, j :: 0 <= i < l.length == |l.points| && 0 <= j < l.length ==>
              l.points[i].y - l.points[j].x <= r
    ensures WellFormed(l) && l.length >= 1 ==> r == MinmaxYOf(l.points).y - l.points[0].x
  {
    if WellFormed(l) && l.length >= 1 then
      MinmaxAgree(l);
      MinmaxYOf(l.points).y - MinmaxYOf(l.points).x
    else
    MinmaxYOf(l.points).y - MinmaxYOf(l.points).x
  }

  /** What the projection needs once both allocations succeed: a non-empty
      table (the x range reads the last point) whose two spans are non-zero
      (a zero span divides by zero and the float-to-int conversion of the
      result is undefined). */
  predicate Projectable(l: Line) {
    l.Valid() && l.length >= 1 && XSpan(l) != 0 && YSpan(l) != 0
  }

  /** The fit `line_to_gpathinfo` uses for a table. */
  function FitOf(l: Line, width: int, height: int, plusY: int): (f: Fit)
    requires Projectable(l)
    ensures f.Defined()
    ensures f.xspan == l.points[l.length - 1].x - l.points[0].x
  {
    Fit(XSpan(l), YSpan(l), width, height, plusY)
  }

  /** The path `line_to_gpathinfo` builds for a table. */
  function Projection(l: Line, width: int, height: int, plusY: int): (r: seq<GPoint>)
    requires Projectable(l)
    ensures |r| == l.length + 2
    ensures r[0] == GPoint(0, height) && r[l.length + 1] == GPoint(width, height)
  {
    Path(l.points, FitOf(l, width, height, plusY))
  }

  /** Two more points than the table, the two corners on the baseline at
      `height`, and the point after knot `i` computed from that knot alone. */
  lemma ProjectionShape(l: Line, width: int, height: int, plusY: int, i: nat)
    requires Projectable(l) && i < l.length
    ensures var out := Projection(l, width, height, plusY);
            |out| == l.length + 2 &&
            out[0] == GPoint(0, height) && out[l.length + 1] == GPoint(width, height) &&
            out[i + 1] == ScreenPoint(l.points[i], FitOf(l, width, height, plusY))
  {
    InteriorAt(l.points, FitOf(l, width, height, plusY), i);
  }

  lemma DivMonotone(a: int, b: int, d: int)
    requires 0 <= a <= b && 0 < d
    ensures 0 <= a / d <= b / d
  {
    DivFloor(a, d);
    DivFloor(b, d);
    MulAwayFromZero(a / d - b / d, d);
  }

  /** Scaling x by width / span keeps the order of non-negative x. */
  lemma ScaledXMonotone(xi: int, xj: int, span: int, width: int)
    requires 0 <= xi <= xj && 0 < span && 0 <= width
    ensures 0 <= CDiv(xi * width, span) <= CDiv(xj * width, span)
  {
    MulLeft(0, xi, width);
    MulLeft(xi, xj, width);
    CDivModNonNegative(xi * width, span);
    CDivModNonNegative(xj * width, span);
    DivMonotone(xi * width, xj * width, span);
  }

  /** An x within the span does not land right of `width`. */
  lemma ScaledXAtMost(x: int, span: int, width: int)
    requires 0 <= x <= span && 0 < span && 0 <= width
    ensures CDiv(x * width, span) <= width
  {
    MulLeft(0, x, width);
    MulLeft(x, span, width);
    CDivModNonNegative(x * width, span);
    DivMonotone(x * width, span * width, span);
    DivUnique(span * width, span, width, 0);
  }

  /** A non-negative y does not land below the baseline at `height`. */
  lemma FlippedY(p: Point, f: Fit)
    requires f.Defined() && 0 <= p.y && 0 < f.yspan && f.plusY <= f.height
    ensures ScreenPoint(p, f).y <= f.height
  {
    var h, d := f.height, f.yspan;
    var n := h * d - p.y * (h - f.plusY);
    MulLeft(0, p.y, h - f.plusY);
    assert n <= h * d;
    CDivTruncates(n, d);
    QuotientAtMost(n, d, CDiv(n, d), h);
  }

  /** A quotient whose remainder is above -d cannot pass h when n <= h * d. */
  lemma QuotientAtMost(n: int, d: int, q: int, h: int)
    requires 0 < d && n <= h * d && -d < n - q * d
    ensures q <= h
  {
    MulAwayFromZero(q - h, d);
    assert (q - h) * d == q * d - h * d;
  }

  /** On an increasing table that starts at x = 0 and a non-negative width,
      the x of the path runs from 0 to `width` without ever going back: the
      interior stays between the two corners. */
  lemma ProjectionSpansWidth(l: Line, width: int, height: int, plusY: int)
    requires Projectable(l) && Increasing(l.points) && l.points[0].x == 0 && 0 <= width
    ensures var out := Projection(l, width, height, plusY);
            (forall k :: 0 <= k < |out| ==> 0 <= out[k].x <= width) &&
            (forall i, j :: 0 <= i < j < |out| ==> out[i].x <= out[j].x)
  {
    var out := Projection(l, width, height, plusY);
    var n, f := l.length, FitOf(l, width, height, plusY);
    var span := f.xspan;
    ProjectionShape(l, width, height, plusY, 0);
    assert 0 < span == l.points[n - 1].x;
    forall k | 1 <= k <= n
      ensures 0 <= l.points[k - 1].x <= span
      ensures out[k].x == CDiv(l.points[k - 1].x * width, span)
    {
      ProjectionShape(l, width, height, plusY, k - 1);
    }
    forall k | 1 <= k <= n
      ensures 0 <= out[k].x <= width
    {
      ScaledXMonotone(l.points[k - 1].x, l.points[k - 1].x, span, width);
      ScaledXAtMost(l.points[k - 1].x, span, width);
    }
    forall i, j | 1 <= i < j <= n
      ensures out[i].x <= out[j].x
    {
      ScaledXMonotone(l.points[i - 1].x, l.points[j - 1].x, span, width);
    }
  }

  /** When every y is non-negative and the vertical span is positive, no
      point of the path lies below the baseline at `height`. */
  lemma ProjectionAboveBaseline(l: Line, width: int, height: int, plusY: int)
    requires Projectable(l) && plusY <= height && 0 < YSpan(l)
    requires forall i :: 0 <= i < l.length ==> 0 <= l.points[i].y
    ensures var out := Projection(l, width, height, plusY);
            forall k :: 0 <= k < |out| ==> out[k].y <= height
  {
    var out := Projection(l, width, height, plusY);
    ProjectionShape(l, width, height, plusY, 0);
    forall k | 1 <= k <= l.length
      ensures out[k].y <= height
    {
      ProjectionShape(l, width, height, plusY, k - 1);
      FlippedY(l.points[k - 1], FitOf(l, width, height, plusY));
    }
  }

  /** The filling of the path buffer: the left corner, each knot in turn
      mapped to the screen, the right corner. */
  method FillPath(outPoints: array<GPoint>, ps: seq<Point>, f: Fit)
    requires f.Defined() && outPoints.Length == |ps| + 2
    modifies outPoints
    ensures outPoints[..] == Path(ps, f)
  {
    outPoints[0] := GPoint(0, f.height);
    for i := 0 to |ps|
      invariant outPoints[..i + 1] == [GPoint(0, f.height)] + Interior(ps[..i], f)
    {
      outPoints[i + 1] := ScreenPoint(ps[i], f);
      assert ps[..i + 1][..i] == ps[..i];
      assert outPoints[..i + 2] == outPoints[..i + 1] + [outPoints[i + 1]];
    }
    outPoints[|ps| + 1] := GPoint(f.width, f.height);
    assert ps[..|ps|] == ps;
    assert outPoints[..] == outPoints[..|ps| + 1] + [outPoints[|ps| + 1]];
  }

  /** `line_to_gpathinfo`.  Either allocation may fail (`outAllocates` and
      `pointsAllocate` stand for the two `malloc` results); on a failure
      nothing is returned, the first block having been freed.  Otherwise a
      fresh path of `length + 2` points holds the projection. */
  method LineToGPathInfo(l: Line, width: int, height: int, plusY: int,
                         outAllocates: bool, pointsAllocate: bool)
    returns (out: Option<GPathInfo>)
    requires l.Valid()
    requires outAllocates && pointsAllocate ==> Projectable(l)
    ensures out.None? <==> !(outAllocates && pointsAllocate)
    ensures out.Some? ==>
              fresh(out.value) && fresh(out.value.points) &&
              out.value.numPoints == l.length + 2 &&
              out.value.points[..] == Projection(l, width, height, plusY)
  {
    if !outAllocates {
      return None;
    }
    if !pointsAllocate {
      return None;
    }
    var outPoints := new GPoint[l.length + 2];
    var info := new GPathInfo(l.length + 2, outPoints);

    var minmaxX := LineMinmaxX(l);
    var minmaxY := LineMinmaxY(l);
    var fit := Fit(minmaxX.y - minmaxX.x, minmaxY.y - minmaxY.x, width, height, plusY);
    assert fit == FitOf(l, width, height, plusY);
    FillPath(outPoints, l.points, fit);
    return Some(info);
  }
}
