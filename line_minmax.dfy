/** `line_minmax_x` and `line_minmax_y`: the two range queries.  Both return
    their pair in a `Point`, the minimum in `.x` and the maximum in `.y`. */
module LineMinmax {
  import opened CInt
  import opened Lines

  /** The source's `min` and `max` macros. */
  function Min(a: int, b: int): (r: int)
    ensures r <= a && r <= b && (r == a || r == b)
  {
    if a < b then a else b
  }

  function Max(a: int, b: int): (r: int)
    ensures a <= r && b <= r && (r == a || r == b)
  {
    if a > b then a else b
  }

  /** `line_minmax_x`: the first and the last knot's x, which on an
      increasing table bound every knot's x from below and above. */
  function LineMinmaxX(l: Line): (r: Point)
    requires l.Valid() && l.length >= 1
    ensures r.x == l.points[0].x && r.y == l.points[l.length - 1].x
    ensures Increasing(l.points) ==>
              forall i :: 0 <= i < l.length ==> r.x <= l.points[i].x <= r.y
  {
    Point(l.points[0].x, l.points[l.length - 1].x)
  }

  /** The accumulator of `line_minmax_y` after it has taken in `ps`, starting
      from {INT_MAX, INT_MIN}: `.x` is the least x (not y) and `.y` the
      greatest y, each clamped by its starting value. */
  function MinmaxYOf(ps: seq<Point>): (r: Point)
    ensures |ps| == 0 ==> r == Point(INT_MAX, INT_MIN)
    ensures r.x <= INT_MAX && forall i :: 0 <= i < |ps| ==> r.x <= ps[i].x
    ensures r.x == INT_MAX || exists i :: 0 <= i < |ps| && r.x == ps[i].x
    ensures INT_MIN <= r.y && forall i :: 0 <= i < |ps| ==> ps[i].y <= r.y
    ensures r.y == INT_MIN || exists i :: 0 <= i < |ps| && r.y == ps[i].y
    decreases |ps|
  {
    if |ps| == 0 then
      Point(INT_MAX, INT_MIN)
    else
      var init := ps[..|ps| - 1];
      var acc := MinmaxYOf(init);
      assert forall i :: 0 <= i < |init| ==> init[i] == ps[i];
      Point(Min(acc.x, ps[|ps| - 1].x), Max(acc.y, ps[|ps| - 1].y))
  }

  /** `line_minmax_y`: folds every point into the accumulator. */
  method LineMinmaxY(l: Line) returns (minmax: Point)
    requires l.Valid()
    ensures minmax == MinmaxYOf(l.points)
  {
    minmax := Point(INT_MAX, INT_MIN);
    for i := 0 to l.length
      invariant minmax == MinmaxYOf(l.points[..i])
    {
      assert l.points[..i + 1][..i] == l.points[..i];
      minmax := Point(Min(minmax.x, l.points[i].x), Max(minmax.y, l.points[i].y));
    }
    assert l.points[..l.length] == l.points;
  }

  /** On a non-empty table of C ints, `.x` is a knot's x that no knot's x is
      below, and `.y` a knot's y that no knot's y is above. */
  lemma MinmaxYAttained(ps: seq<Point>)
    requires |ps| >= 1
    requires forall i :: 0 <= i < |ps| ==> ps[i].x <= INT_MAX && INT_MIN <= ps[i].y
    ensures exists i :: 0 <= i < |ps| && MinmaxYOf(ps).x == ps[i].x
    ensures exists j :: 0 <= j < |ps| && MinmaxYOf(ps).y == ps[j].y
  {
    var r := MinmaxYOf(ps);
    if r.x == INT_MAX {
      assert r.x <= ps[0].x;
      assert r.x == ps[0].x;
    }
    if r.y == INT_MIN {
      assert ps[0].y <= r.y;
      assert r.y == ps[0].y;
    }
  }

  /** On an increasing table the two queries agree on the least x: the
      minimum `line_minmax_y` puts in `.x` is the first knot's x. */
  lemma MinmaxAgree(l: Line)
    requires WellFormed(l) && l.length >= 1
    ensures MinmaxYOf(l.points).x == LineMinmaxX(l).x
  {
    var r := MinmaxYOf(l.points);
    assert InBound(l.points[0].x);
    assert r.x <= l.points[0].x;
  }
}
