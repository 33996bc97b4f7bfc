/** `line_eval`: evaluating a table of control points as a piecewise-linear
    function of x, with wraparound outside the table's domain. */
module LineEvaluation {
  import opened CInt
  import opened Lines

  function Last(ps: seq<Point>): Point
    requires |ps| >= 1
  {
    ps[|ps| - 1]
  }

  /** Width of the domain [first.x, last.x]. */
  function Width(ps: seq<Point>): int
    requires |ps| >= 2
  {
    Last(ps).x - ps[0].x
  }

  /** Domain clipping: an x outside [first.x, last.x] is replaced by
      `(x % width) + first.x`, with C's truncating `%`. */
  function Clip(ps: seq<Point>, x: int): (r: int)
    requires |ps| >= 2 && Width(ps) != 0
    ensures ps[0].x <= x <= Last(ps).x ==> r == x
    ensures !(ps[0].x <= x <= Last(ps).x) ==> Abs(r - ps[0].x) < Abs(Width(ps))
  {
    if x > Last(ps).x || x < ps[0].x then CMod(x, Width(ps)) + ps[0].x else x
  }

  /** Where clipping lands.  An x already in the domain is kept; an x >= 0
      outside it lands in [first.x, last.x); a negative x outside it lands
      at or above first.x only when the width divides it, and below first.x
      (where the search reads an unset `before`) otherwise. */
  lemma ClipRange(ps: seq<Point>, x: int)
    requires |ps| >= 2 && Increasing(ps)
    ensures Width(ps) > 0
    ensures ps[0].x <= x <= Last(ps).x ==> Clip(ps, x) == x
    ensures Clip(ps, x) <= Last(ps).x
    ensures x > Last(ps).x || x < ps[0].x ==>
              (Clip(ps, x) >= ps[0].x <==> 0 <= x || CMod(x, Width(ps)) == 0)
    ensures x > Last(ps).x || x < ps[0].x ==> 0 <= x ==> ps[0].x <= Clip(ps, x) < Last(ps).x
    ensures x > Last(ps).x || x < ps[0].x ==> 0 <= x ==> Clip(ps, x) == x % Width(ps) + ps[0].x
  {
    if 0 <= x {
      CDivModNonNegative(x, Width(ps));
    }
  }

  /** The interpolation step: the slope is a C integer division, computed
      before it is scaled by the offset from `before`. */
  function Interp(before: Point, after: Point, v: int): (r: int)
    requires before.x < after.x
    ensures v == before.x ==> r == before.y
    ensures before.y == after.y ==> r == before.y
  {
    before.y + CDiv(after.y - before.y, after.x - before.x) * (v - before.x)
  }

  /** `r` lies between `lo` (inclusive) and `hi` (exclusive), whichever way
      round they are; when they are equal it is both. */
  predicate Between(lo: int, hi: int, r: int) {
    (lo == hi ==> r == lo) && (lo < hi ==> lo <= r < hi) && (hi < lo ==> hi < r <= lo)
  }

  /** The index of the segment [ps[s].x, ps[s+1].x) that holds `v`, searched
      for from index `k` upward. */
  function SegmentFrom(ps: seq<Point>, v: int, k: nat): (s: nat)
    requires Increasing(ps) && k < |ps| - 1 && ps[k].x <= v < Last(ps).x
    ensures k <= s < |ps| - 1 && ps[s].x <= v < ps[s + 1].x
    decreases |ps| - k
  {
    if v < ps[k + 1].x then k else SegmentFrom(ps, v, k + 1)
  }

  /** The value of the table at a point of its domain: the knot's y on a
      knot, the interpolation across the segment holding `v` otherwise. */
  function EvalClipped(ps: seq<Point>, v: int): (r: int)
    requires |ps| >= 2 && Increasing(ps) && ps[0].x <= v <= Last(ps).x
    ensures v == ps[0].x ==> r == ps[0].y
    ensures v == Last(ps).x ==> r == Last(ps).y
  {
    if v == Last(ps).x then
      Last(ps).y
    else
      var k := SegmentFrom(ps, v, 0);
      if ps[k].x == v then ps[k].y else Interp(ps[k], ps[k + 1], v)
  }

  /** What `line_eval` needs of its caller: a header that matches its points
      and, once there are two points, increasing bounded knots and a query
      that clipping does not push below the first knot. */
  predicate EvalDefined(l: Line, x: int) {
    l.Valid() &&
    (l.length >= 2 ==> WellFormed(l) && Width(l.points) != 0 && Clip(l.points, x) >= l.points[0].x)
  }

  /** The reference value of `line_eval(line, x)`. */
  function Eval(l: Line, x: int): (r: int)
    requires EvalDefined(l, x)
    ensures l.length < 2 ==> r == 0
  {
    if l.length < 2 then
      0
    else
      ClipRange(l.points, x);
      EvalClipped(l.points, Clip(l.points, x))
  }

  lemma SegmentUnique(ps: seq<Point>, v: int, k: nat)
    requires |ps| >= 2 && Increasing(ps) && k < |ps| - 1 && ps[k].x <= v < ps[k + 1].x
    ensures ps[0].x <= v < Last(ps).x && SegmentFrom(ps, v, 0) == k
  {
    assert ps[0].x <= ps[k].x && ps[k + 1].x <= Last(ps).x;
  }

  lemma EvalClippedKnot(ps: seq<Point>, k: nat)
    requires |ps| >= 2 && Increasing(ps) && k < |ps|
    ensures ps[0].x <= ps[k].x <= Last(ps).x && EvalClipped(ps, ps[k].x) == ps[k].y
  {
    assert ps[0].x <= ps[k].x <= Last(ps).x;
    if k < |ps| - 1 {
      SegmentUnique(ps, ps[k].x, k);
    }
  }

  lemma EvalClippedBracket(ps: seq<Point>, v: int, k: nat)
    requires |ps| >= 2 && Increasing(ps) && k < |ps| - 1 && ps[k].x < v < ps[k + 1].x
    ensures ps[0].x <= v <= Last(ps).x && EvalClipped(ps, v) == Interp(ps[k], ps[k + 1], v)
  {
    SegmentUnique(ps, v, k);
  }

  /** (d / dx) * t stays below d for 0 < t < dx: the truncated slope never
      carries the segment past its far end. */
  lemma ScaledStep(d: int, dx: int, t: int)
    requires 0 < d && 0 < t < dx
    ensures 0 <= (d / dx) * t < d
  {
    var n := d / dx;
    assert n * dx <= d;
    if n > 0 {
      assert n * t < n * dx;
    }
  }

  /** The interpolated value lies between the y of `before` (inclusive) and
      the y of `after` (exclusive), for rising and falling segments alike. */
  lemma InterpBetween(before: Point, after: Point, v: int)
    requires before.x < v < after.x
    ensures Between(before.y, after.y, Interp(before, after, v))
  {
    var dy, dx, t := after.y - before.y, after.x - before.x, v - before.x;
    if dy > 0 {
      CDivModNonNegative(dy, dx);
      ScaledStep(dy, dx, t);
    } else if dy < 0 {
      var n := (-dy) / dx;
      assert CDiv(dy, dx) == -n;
      ScaledStep(-dy, dx, t);
      assert CDiv(dy, dx) * t == -(n * t);
    }
  }

  /** The truncated slope is no steeper than the rise itself. */
  lemma SlopeBound(dy: int, dx: int)
    requires 0 < dx
    ensures Abs(CDiv(dy, dx)) <= Abs(dy)
  {
    var d := Abs(dy);
    var n := d / dx;
    assert n * dx <= d by { DivFloor(d, dx); }
    MulGrows(n, dx);
    assert Abs(CDiv(dy, dx)) == n;
  }

  /** Under the coordinate bound every quantity `line_eval` holds in its
      float (the slope, its product with the offset and their sum with
      before.y) is an integer no larger than 2^24 in magnitude, so the float
      arithmetic is exact and computing it on integers loses nothing. */
  lemma InterpExact(before: Point, after: Point, v: int)
    requires InBound(before.x) && InBound(before.y) && InBound(after.x) && InBound(after.y)
    requires before.x < v < after.x
    ensures Abs(after.y - before.y) <= FLOAT_EXACT && after.x - before.x <= FLOAT_EXACT
    ensures Abs(CDiv(after.y - before.y, after.x - before.x)) <= FLOAT_EXACT
    ensures Abs(CDiv(after.y - before.y, after.x - before.x) * (v - before.x)) <= FLOAT_EXACT
    ensures InBound(Interp(before, after, v))
  {
    var dy, dx := after.y - before.y, after.x - before.x;
    SlopeBound(dy, dx);
    InterpBetween(before, after, v);
    var step := CDiv(dy, dx) * (v - before.x);
    assert step == Interp(before, after, v) - before.y;
    assert Abs(step) <= Abs(dy);
  }

  /** Every knot evaluates to its own y, the first one (found by the
      downward scan) and the last one (found by the upward scan) included. */
  lemma EvalAtKnot(l: Line, i: nat)
    requires WellFormed(l) && l.length >= 2 && i < l.length
    ensures EvalDefined(l, l.points[i].x) && Eval(l, l.points[i].x) == l.points[i].y
  {
    ClipRange(l.points, l.points[i].x);
    EvalClippedKnot(l.points, i);
  }

  /** Strictly between two consecutive knots the value is the truncated-slope
      interpolation, and it lies between the two knots' y. */
  lemma EvalInterior(l: Line, k: nat, x: int)
    requires WellFormed(l) && l.length >= 2 && k < l.length - 1
    requires l.points[k].x < x < l.points[k + 1].x
    ensures EvalDefined(l, x)
    ensures var b, a := l.points[k], l.points[k + 1];
            Eval(l, x) == b.y + CDiv(a.y - b.y, a.x - b.x) * (x - b.x) &&
            Between(b.y, a.y, Eval(l, x))
  {
    var ps := l.points;
    assert ps[0].x <= ps[k].x && ps[k + 1].x <= Last(ps).x;
    ClipRange(ps, x);
    EvalClippedBracket(ps, x, k);
    InterpBetween(ps[k], ps[k + 1], x);
  }

  /** An x outside the domain evaluates as its clipped image does, and for
      x >= 0 that image lies in [first.x, last.x). */
  lemma EvalWraps(l: Line, x: int)
    requires EvalDefined(l, x) && l.length >= 2
    requires x > Last(l.points).x || x < l.points[0].x
    ensures EvalDefined(l, Clip(l.points, x))
    ensures Eval(l, x) == Eval(l, Clip(l.points, x))
    ensures 0 <= x ==> l.points[0].x <= Clip(l.points, x) < Last(l.points).x
  {
    ClipRange(l.points, x);
    ClipRange(l.points, Clip(l.points, x));
  }

  /** On a table that starts at x = 0, shifting a positive query by the
      domain width does not change its value, except at x = width itself,
      which is in the domain and reads the last knot while 2 * width wraps to
      the first.  (At x = 0 the same happens one step down.) */
  lemma EvalPeriodic(l: Line, x: int)
    requires WellFormed(l) && l.length >= 2 && l.points[0].x == 0
    requires 0 < x && x != Width(l.points)
    ensures EvalDefined(l, x) && EvalDefined(l, x + Width(l.points))
    ensures Eval(l, x + Width(l.points)) == Eval(l, x)
  {
    ClipShift(l.points, x);
  }

  lemma ClipShift(ps: seq<Point>, x: int)
    requires |ps| >= 2 && Increasing(ps) && ps[0].x == 0
    requires 0 < x && x != Width(ps)
    ensures Width(ps) > 0 && 0 <= Clip(ps, x) < Last(ps).x
    ensures Clip(ps, x + Width(ps)) == Clip(ps, x)
  {
    var w := Width(ps);
    assert w == Last(ps).x > 0;
    RemainderShift(x, w);
    assert Clip(ps, x + w) == CMod(x + w, w);
    assert Clip(ps, x) == if x < w then x else CMod(x, w);
  }

  /** C's remainder by w of a positive x that w does not divide is unchanged
      by adding w, and equals x itself below w. */
  lemma RemainderShift(x: int, w: int)
    requires 0 < x && 0 < w && x != w
    ensures CMod(x + w, w) == (if x < w then x else CMod(x, w)) && 0 <= CMod(x + w, w) < w
  {
    DivUnique(w, w, 1, 0);
    CDivModNonNegative(x + w, w);
    CDivModNonNegative(x, w);
    ModAddDivisor(x, w);
    if x < w {
      ModSmall(x, w);
    }
  }

  /** The evaluator never leaves the envelope of its table: the value lies
      between the y of some knot and the y of another. */
  lemma EvalWithinTable(l: Line, x: int)
    requires EvalDefined(l, x) && l.length >= 2
    ensures exists i, j :: 0 <= i < l.length && 0 <= j < l.length &&
                           l.points[i].y <= Eval(l, x) <= l.points[j].y
  {
    var ps := l.points;
    ClipRange(ps, x);
    var v := Clip(ps, x);
    var r := Eval(l, x);
    if v == Last(ps).x {
      assert ps[|ps| - 1].y <= r <= ps[|ps| - 1].y;
    } else {
      var k := SegmentFrom(ps, v, 0);
      if ps[k].x == v {
        assert ps[k].y <= r <= ps[k].y;
      } else {
        InterpBetween(ps[k], ps[k + 1], v);
        if ps[k].y <= ps[k + 1].y {
          assert ps[k].y <= r <= ps[k + 1].y;
        } else {
          assert ps[k + 1].y <= r <= ps[k].y;
        }
      }
    }
  }

  /** `line_eval`: fewer than two points give 0; an out-of-domain x is
      clipped; an upward scan from index 1 returns a knot's y on an exact hit
      or stops at the first knot beyond x (`after`); a downward scan from
      index length-2 returns a knot's y on an exact hit or stops at the last
      knot before x (`before`); the two are interpolated. */
  method LineEval(l: Line, x: int) returns (r: int)
    requires EvalDefined(l, x)
    ensures r == Eval(l, x)
    ensures l.length < 2 ==> r == 0
  {
    if l.length < 2 {
      return 0;
    }
    var ps := l.points;
    var first, last := ps[0], ps[l.length - 1];
    var v := x;
    if v > last.x || v < first.x {
      v := CMod(v, last.x - first.x) + first.x;
    }
    assert v == Clip(ps, x);
    ClipRange(ps, x);

    // The source leaves `after` and `before` unset until a scan assigns
    // them; both scans are shown to assign them before they are used.
    var after, before := last, first;
    ghost var ai, bi := |ps| - 1, 0;

    var i := 1;
    while i < l.length
      invariant 1 <= i <= l.length
      invariant forall j :: 1 <= j < i ==> ps[j].x < v
    {
      if ps[i].x == v {
        EvalClippedKnot(ps, i);
        return ps[i].y;
      }
      if ps[i].x > v {
        after, ai := ps[i], i;
        break;
      }
      i := i + 1;
    }
    assert 1 <= ai < |ps| && after == ps[ai] && v < ps[ai].x;
    assert forall j :: 1 <= j < ai ==> ps[j].x < v;

    // The knot just below `after` is at or left of v, so the downward scan
    // stops there at the latest.
    assert ps[ai - 1].x <= v;
    i := l.length - 2;
    while i >= 0
      invariant ai - 1 <= i <= l.length - 2
    {
      if ps[i].x == v {
        EvalClippedKnot(ps, i);
        return ps[i].y;
      }
      if ps[i].x < v {
        before, bi := ps[i], i;
        break;
      }
      i := i - 1;
    }
    assert ai - 1 <= bi && before == ps[bi] && ps[bi].x < v;
    assert bi + 1 == ai;
    EvalClippedBracket(ps, v, bi);
    var m := CDiv(after.y - before.y, after.x - before.x);
    r := m * (v - before.x) + before.y;
    assert r == Interp(ps[bi], ps[bi + 1], v);
  }
}
