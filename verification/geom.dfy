/**
 * The geometry primitives shared by the modules of this model: points with
 * exact integer ordinates, and axis-aligned envelopes.
 */
module Geom {

  /** A 2D coordinate. Equality is equality of both ordinates (`equals2D`). */
  datatype Point = Point(x: int, y: int)

  /** An axis-aligned rectangle `[minX, maxX] x [minY, maxY]`. */
  datatype Envelope = Envelope(minX: int, maxX: int, minY: int, maxY: int)

  /** A polyline: the coordinates of a segment string, edge or line string. */
  type Line = seq<Point>

  /** The envelope is not the null (inverted) envelope. */
  predicate ValidEnvelope(e: Envelope) {
    e.minX <= e.maxX && e.minY <= e.maxY
  }

  /** Closed rectangles `a` and `b` share at least one point. */
  predicate Intersects(a: Envelope, b: Envelope) {
    a.minX <= b.maxX && b.minX <= a.maxX && a.minY <= b.maxY && b.minY <= a.maxY
  }

  /** Lexicographic order on points: by x, then by y (`Coordinate.compareTo`). */
  predicate PointLess(a: Point, b: Point) {
    a.x < b.x || (a.x == b.x && a.y < b.y)
  }

  /** The sequence is strictly increasing in `PointLess`. */
  predicate StrictlySorted(s: seq<Point>) {
    forall i, j :: 0 <= i < j < |s| ==> PointLess(s[i], s[j])
  }
}
