# joust line library in Dafny

joust is a Pebble watch app. Its line library stores a table as a `Line`: a
header `length` followed by that many control points `Point {x, y}` of C
`int`s, sorted by x. The library in `src/line.c` has four operations:

- `line_eval` reads a line as a piecewise-linear function of x. An x outside
  the domain `[first.x, last.x]` is first wrapped with
  `(x % (last.x - first.x)) + first.x`. Two linear scans then find the knots
  around x: an upward scan finds `after` and a downward scan finds `before`.
  An exact hit returns the knot's y. Otherwise the value is interpolated
  with a slope computed by C integer division.
- `line_minmax_x` returns the first and last knots' x in a `Point`.
- `line_minmax_y` folds the points into a `Point` that starts at
  `{INT_MAX, INT_MIN}`. Its `.y` is the greatest y. Its `.x` is the least
  **x**, not the least y.
- `line_to_gpathinfo` maps each knot to the screen. It multiplies the raw
  `x` by `width / (last.x - first.x)` and the raw `y` by
  `(height - plus_y) / (max y - min x)`, and subtracts the scaled y from
  `height`, because the screen's y grows downward. It closes the path with
  one corner at `(0, height)` and one at `(width, height)`. The knots are
  not shifted by `first.x` or by the least y. The knots therefore fall
  between the two corners only when `first.x == 0`, which is why
  `LinePath.ProjectionSpansWidth` assumes it. On the table
  `(100,0) (250,150)` with width 150, height 100 and plus_y 20, the last
  knot lands at `(250, -140)`, right of the closing corner `(150, 100)`
  (`LineExamples.OffsetTableOffScreen`). The result is a freshly
  allocated `GPathInfo` of `length + 2` points, or NULL when an allocation
  fails.

The model has these modules:

- `CInt` (`cint.dfy`): the 32-bit limits, and C's truncating `/` and `%`
  (`CDiv`, `CMod`), because Dafny's own operators are Euclidean.
- `Lines` (`lines.dfy`): `Point` and `Line` as datatypes. It also defines
  the conditions on a table: `Valid` (the header matches the points),
  `Increasing` and `Bounded`.
- `LineEvaluation` (`line_eval.dfy`): `Eval`, a reference function for
  `line_eval`, built from `Clip`, `SegmentFrom` and `Interp`. It also holds
  the method `LineEval`, which keeps the source's two scans and is proved
  equal to `Eval`. Lemmas prove the knot, interpolation, wraparound,
  periodicity and float-exactness properties.
- `LineMinmax` (`line_minmax.dfy`): `line_minmax_x` as a function.
  `line_minmax_y` is a method with the source's loop, proved equal to a fold
  `MinmaxYOf`.
- `LinePath` (`line_path.dfy`): `GPathInfo` as a class that owns an
  `array<GPoint>`. `LineToGPathInfo` allocates the buffer and fills it with
  the source's loop. It is proved to produce the reference path
  `Projection`, and lemmas bound that path on screen.
- `LineExamples` (`line_examples.dfy`): worked evaluations on concrete
  tables.

Two places in the source use floats. In `line_eval`, the variable `m` only
ever holds integers. `LinePath` models the float scaling as exact
arithmetic followed by truncation toward zero.

- **`line_eval`.** The slope `(after.y - before.y)/(after.x - before.x)` is
  computed in `int`, then stored in the float `m`. At most 2^23 in magnitude
  (`Lines.COORD_BOUND`), every value this float and the following product
  and sum hold is an integer of magnitude at most 2^24, and a 32-bit float
  holds every such integer exactly. `LineEvaluation.InterpExact` proves
  this, so the model computes in integers.
- **`line_to_gpathinfo`.** The model computes exact arithmetic, then
  truncates toward zero, which is C's float-to-int conversion (see
  `LinePath.ScreenPoint`).

The model follows what `src/line.c` computes, not a real-valued reading of
it:

- **The slope is an integer quotient.** On the table
  `(0,1600) (30000,1600) (31000,3000) ...`, the value at 30500 is 2100, not
  the 2300 a real-valued slope would give
  (`LineExamples.RampUsesIntegerSlope`). A falling slope truncates
  toward zero (`LineExamples.DescentTruncatesTowardZero`).
- **Wraparound uses C's `%`.** The comment at src/line.c:7-8 promises that
  an out-of-domain x is brought into the domain. For a negative x, the
  wrapped value lands below `first.x` unless the width divides x, and there
  the source reads an unset `before`. For x >= 0, `(x % w) + first.x`
  equals `first.x + ((x - first.x) mod w)` only when w divides `first.x`, so
  the evaluation is periodic only on such tables. On the table
  `(100,0) (250,150)`, the value at 200 is 100 but the value at 350 is 50.
  This is why `LineEvaluation.EvalPeriodic` assumes `first.x == 0`.
- **`line_minmax_y`'s `.x` is the least x, not the least y.** This value
  feeds the vertical span in `line_to_gpathinfo`, and the model keeps it.

## Model

| member | source | states |
|---|---|---|
| CInt.CDiv | src/line.c:45 | C's `/`: the quotient's magnitude is the quotient of the magnitudes, and a non-zero quotient is negative exactly when the operands' signs differ (truncation toward zero) |
| CInt.CDivExact | src/line.c:104-115 | a multiple of the divisor divides back exactly, whatever the signs |
| CInt.CDivTruncates | src/line.c:45 | C's integer quotient leaves a remainder smaller than the divisor in magnitude, which is zero or has the dividend's sign: truncation toward zero |
| CInt.CMod | src/line.c:22 | C's `%` is the remainder of the truncating quotient: `a == CDiv(a, b) * b + r`, `|r| < |b|`, and `r` is zero or has the sign of `a` |
| CInt.CDivModNonNegative | src/line.c:22 | for a non-negative dividend and a positive divisor, C's `/` and `%` agree with Dafny's |
| LineEvaluation.Clip | src/line.c:20-24 | an x in `[first.x, last.x]` is kept; a wrapped x lies less than one width from `first.x` |
| LineEvaluation.ClipRange | src/line.c:20-24 | an in-domain x is kept; a wrapped x never passes `last.x`; a wrapped x lands at or above `first.x` exactly when x >= 0 or the width divides x; for x >= 0 it lands in `[first.x, last.x)` as `x % width + first.x` |
| LineEvaluation.Interp | src/line.c:44-46 | the interpolation gives `before.y` at `before.x` and on a flat segment; `InterpBetween` and `EvalInterior` bound it between the knots |
| LineEvaluation.SegmentFrom | src/line.c:26-42 | on an increasing table, for `first.x <= v < last.x` there is a segment `[ps[s].x, ps[s+1].x)` that holds v |
| LineEvaluation.SegmentUnique | src/line.c:28-42 | the segment holding v is unique: it is the one the two scans bracket |
| LineEvaluation.EvalClipped | src/line.c:26-46 | in the domain, the first knot's x gives the first knot's y and the last knot's x the last knot's y; `EvalClippedKnot` and `EvalClippedBracket` give the other knots and the segments |
| LineEvaluation.EvalClippedKnot | src/line.c:28-29 | at a knot's x, the in-domain value is that knot's y |
| LineEvaluation.EvalClippedBracket | src/line.c:36-46 | strictly between knots k and k+1, the in-domain value is the interpolation across that segment |
| LineEvaluation.Eval | src/line.c:14-15 | a line of fewer than two points evaluates to 0 |
| LineEvaluation.LineEval | src/line.c:10-47 | the two-scan evaluator returns exactly the reference value `Eval(l, x)`, and 0 for fewer than two points (the body's assertions also show that the scans set `after` and `before` before they are used) |
| LineEvaluation.EvalAtKnot | src/line.c:28-42 | every knot, the first and the last included, evaluates to its own y |
| LineEvaluation.EvalInterior | src/line.c:44-46 | strictly between consecutive knots, the value is `b.y + CDiv(a.y - b.y, a.x - b.x) * (x - b.x)` and lies between `b.y` (inclusive) and `a.y` (exclusive) |
| LineEvaluation.InterpBetween | src/line.c:44-46 | the truncated-slope interpolation stays between the two knots' y, on rising, falling and flat segments |
| LineEvaluation.ScaledStep | src/line.c:45-46 | a truncated positive slope times an offset inside the segment stays below the rise |
| LineEvaluation.SlopeBound | src/line.c:45 | the truncated slope is no larger in magnitude than the rise |
| LineEvaluation.InterpExact | src/line.c:44-46 | under the coordinate bound, the rise, run, slope, scaled step and result all stay within 2^24 in magnitude, so the float `m` and the float product and sum are exact |
| LineEvaluation.EvalWraps | src/line.c:20-24 | an out-of-domain x evaluates as its wrapped image does, and for x >= 0 that image lies in `[first.x, last.x)` |
| LineEvaluation.ClipShift | src/line.c:20-24 | on a table starting at x = 0, for every x > 0 other than the width, wrapping x + width gives the same point as wrapping x, and that point lies in `[0, last.x)` |
| LineEvaluation.RemainderShift | src/line.c:22 | for 0 < x != w, C's remainder of x + w by w is x below w and the remainder of x above it, and lies in `[0, w)` |
| LineEvaluation.EvalPeriodic | src/line.c:20-24 | on a table starting at x = 0, the value at x + width equals the value at x for every x > 0 except x = width (which reads the last knot, while 2 * width wraps to the first) |
| LineEvaluation.EvalWithinTable | src/line.c:10-47 | the value always lies between the y of some knot and the y of another |
| LineMinmax.Min | src/line.c:3 | the result is one of the two arguments and no larger than either |
| LineMinmax.Max | src/line.c:4 | the result is one of the two arguments and no smaller than either |
| LineMinmax.LineMinmaxX | src/line.c:49-55 | the pair is the first and last knots' x, and on an increasing table these bound every knot's x |
| LineMinmax.MinmaxYOf | src/line.c:57-64 | starting from `{INT_MAX, INT_MIN}`, `.x` is no larger than any knot's x and is INT_MAX or some knot's x; `.y` is no smaller than any knot's y and is INT_MIN or some knot's y |
| LineMinmax.LineMinmaxY | src/line.c:57-64 | the loop returns the fold `MinmaxYOf` of all the points |
| LineMinmax.MinmaxYAttained | src/line.c:57-64 | on a non-empty table of C ints, `.x` is attained by some knot's x and `.y` by some knot's y |
| LineMinmax.MinmaxAgree | src/line.c:50-64 | on an increasing bounded table, `line_minmax_y`'s `.x` equals `line_minmax_x`'s `.x` (the first knot's x) |
| LinePath.GPathInfo.constructor | src/line.c:97-98 | the record holds the point count and the buffer it was given |
| LinePath.ScreenPoint | src/line.c:103-116 | a knot at x = 0 lands on the left edge x = 0, and a knot at y = 0 on the baseline `height`; the other bounds are `ScaledXMonotone`, `ScaledXAtMost` and `FlippedY` |
| LinePath.Interior | src/line.c:112-117 | the knots mapped to the screen, one output point per knot (its contract gives the length; `InteriorAt` gives each point) |
| LinePath.InteriorAt | src/line.c:113-116 | the i-th interior point is computed from the i-th knot alone |
| LinePath.XSpan | src/line.c:100-103 | the horizontal span is `last.x - first.x`: zero for one knot, positive on an increasing table of two or more |
| LinePath.YSpan | src/line.c:100-104 | the vertical span is at least every knot's y less every knot's x; on an increasing bounded table it is the greatest y less the first knot's x |
| LinePath.FitOf | src/line.c:100-104 | the horizontal span is `last.x - first.x`, and both spans the scales divide by are non-zero |
| LinePath.Path | src/line.c:109-118 | a path has two more points than the table, `(0, height)` first and `(width, height)` last; `InteriorAt` gives the points between |
| LinePath.Projection | src/line.c:109-118 | the path of a table has `length + 2` points, with the corners `(0, height)` and `(width, height)` |
| LinePath.ProjectionShape | src/line.c:97-118 | the path has `length + 2` points: `(0, height)` first, `(width, height)` last, and point i+1 is the screen image of knot i |
| LinePath.ScaledXMonotone | src/line.c:103-114 | scaling by width / span keeps non-negative x non-negative and in order |
| LinePath.ScaledXAtMost | src/line.c:103-114 | an x in `[0, span]` scaled by width / span lands at or left of `width` |
| LinePath.QuotientAtMost | src/line.c:104-115 | a truncated quotient of n by a positive d cannot exceed h when n <= h * d |
| LinePath.FlippedY | src/line.c:104-115 | with a positive vertical span and `plus_y <= height`, a non-negative y lands on or above the baseline `height` |
| LinePath.ProjectionSpansWidth | src/line.c:103-118 | on an increasing table starting at x = 0 with `width >= 0`, every x of the path lies in `[0, width]` and the x never decrease along the path |
| LinePath.ProjectionAboveBaseline | src/line.c:104-118 | with non-negative y, a positive vertical span and `plus_y <= height`, no point of the path lies below `height` |
| LinePath.FillPath | src/line.c:109-118 | the buffer ends up holding exactly the path: left corner, each knot on screen, right corner |
| LinePath.LineToGPathInfo | src/line.c:79-121 | no result exactly when either allocation fails; otherwise a fresh record and a fresh buffer, `num_points == length + 2`, and the buffer holds `Projection(l, width, height, plus_y)` |
| LineExamples.RampUsesIntegerSlope | src/line.c:45-46 | on the table (0,1600) (30000,1600) (31000,3000) (60000,3000) (61000,1300) (120000,1600) the value at 30500 is 2100: the slope 1400/1000 is cut to 1 |
| LineExamples.DescentTruncatesTowardZero | src/line.c:45-46 | at 60500 the slope -1700/1000 is cut toward zero to -1, giving 2500 |
| LineExamples.PastTheEndWraps | src/line.c:20-24 | 130000 wraps to 10000 on a table of width 120000 and evaluates to 1600 |
| LineExamples.OffsetTableNotPeriodic | src/line.c:20-24 | on the table (100,0) (250,150) the value at 200 is 100 but the value at 350 = 200 + width is 50: the wrap is not a shift by the width |
| LineExamples.OffsetTableOffScreen | src/line.c:103-118 | on the table (100,0) (250,150) with width 150, height 100 and plus_y 20, the last knot lands at (250, -140), right of the closing corner (150, 100) and above the screen |
| LineExamples.MinmaxYReportsLeastX | src/line.c:57-64 | for the points (0,5) (10,1) (20,9) the result is (0, 9): `.x` is the least x, not the least y (1) |

## Left out

- `src/joust.c` (the app's windows, buttons and timers) and the Pebble SDK around the library are not part of this model.
- `APP_LOG` debug logging in `line_eval` and `line_to_gpathinfo` is left out; it has no effect on results.
- LineEvaluation.LineEval: requires an increasing table with coordinates within 2^23. With unsorted knots the source can read an unset `after` or `before`. Beyond the bound the float `m` and its product round, and that rounding is not modelled.
- LineEvaluation.LineEval: requires that wrapping does not push x below `first.x`. This excludes a negative x that the width does not divide, where the source reads an unset `before`.
- LineEvaluation.EvalClipped: its contract states only the first and last knots; the other knots and the segments are in `EvalClippedKnot` and `EvalClippedBracket`.
- LineEvaluation.Interp: its contract states only the start of the segment and the flat case; the bounds are in `InterpBetween` and `EvalInterior`.
- LineEvaluation.Eval: its own contract states only the fewer-than-two-points case. What it computes is stated by the lemmas beside it and by `LineEval`.
- LineMinmax.LineMinmaxX: requires `length >= 1`. The source reads `points[-1]` on an empty line.
- LinePath.LineToGPathInfo: once both allocations succeed, requires a non-empty line and non-zero spans. The source divides by the spans in float and converts infinities or NaN to int, which is undefined.
- LinePath.ScreenPoint: its contract states only the left edge and the baseline; the other bounds are in the lemmas beside it.
- LinePath.ScreenPoint: the float factors `transform_x` and `transform_y` are rounded to 32 bits in the source. The model uses the exact quotient truncated toward zero, so a result can differ by the float rounding error.
- LinePath.ScreenPoint: the `int16_t` range of `GPoint` coordinates is not modelled.
- LinePath.XSpan: the `int` subtraction of the two spans can overflow; the model uses unbounded integers there.
- LinePath.LineToGPathInfo: `malloc` is modelled by two flags. The `free(out)` on the second failure is not modelled, and neither is the caller's duty to free the result, because Dafny has no deallocation.
