/** The types of the line library: a `Point` of two C ints and a `Line`, a
    header length followed by that many points. */
module Lines {

  datatype Point = Point(x: int, y: int)

  /** `length` is the struct's header; `points` is its flexible array member. */
  datatype Line = Line(length: int, points: seq<Point>) {

    /** The header agrees with the number of points that follow it. */
    predicate Valid() {
      length == |points|
    }
  }

  /** Coordinates the evaluator handles exactly: at most 2^23 in magnitude, so
      every difference, slope and product it forms stays within 2^24, the
      range in which a 32-bit float holds every integer exactly, and no C int
      operation overflows. */
  const COORD_BOUND: int := 0x80_0000
  const FLOAT_EXACT: int := 0x100_0000

  predicate InBound(v: int) {
    -COORD_BOUND <= v <= COORD_BOUND
  }

  predicate Bounded(ps: seq<Point>) {
    forall i :: 0 <= i < |ps| ==> InBound(ps[i].x) && InBound(ps[i].y)
  }

  /** Control points sorted by strictly increasing x. */
  predicate Increasing(ps: seq<Point>) {
    forall i, j :: 0 <= i < j < |ps| ==> ps[i].x < ps[j].x
  }

  /** A table the evaluator's search is meant for. */
  predicate WellFormed(l: Line) {
    l.Valid() && Increasing(l.points) && Bounded(l.points)
  }
}
