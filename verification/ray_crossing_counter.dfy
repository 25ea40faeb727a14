/**
 * Point-in-ring location by counting crossings of a ray, as in
 * `algorithm/RayCrossingCounter.java`. A horizontal ray runs from the test
 * point towards +x; upward segments include their start and exclude their
 * end, downward segments the reverse, so a shared vertex is counted once.
 * The robust determinant sign is the exact sign of x1*y2 - y1*x2 over integers.
 */
module RayCrossingCounter {
  import opened Geom
  import Location

  datatype Counter = Counter(p: Point, crossingCount: nat, isPointOnSegment: bool)

  function NewCounter(p: Point): (c: Counter)
    ensures c.p == p && c.crossingCount == 0 && !c.isPointOnSegment
  {
    Counter(p, 0, false)
  }

  function Sign(v: int): (r: int)
    ensures r == -1 || r == 0 || r == 1
    ensures r > 0 <==> v > 0
    ensures r == 0 <==> v == 0
  {
    if v > 0 then 1 else if v < 0 then -1 else 0
  }

  /** The segment lies on the horizontal line through the test point. */
  predicate IsHorizontalAtPoint(p: Point, p1: Point, p2: Point) {
    p1.y == p.y && p2.y == p.y
  }

  /** Half-open rule: exactly one endpoint is strictly above the test point. */
  predicate StraddlesRay(p: Point, p1: Point, p2: Point) {
    (p1.y > p.y && p2.y <= p.y) || (p2.y > p.y && p1.y <= p.y)
  }

  /** x1*y2 - y1*x2 of the segment translated so that the test point is the origin. */
  function Det(p: Point, p1: Point, p2: Point): int {
    (p1.x - p.x) * (p2.y - p.y) - (p1.y - p.y) * (p2.x - p.x)
  }

  /**
   * `countSegment(p1, p2)`. A segment wholly left of the point changes
   * nothing; the point equal to `p2` sets the flag only; a horizontal
   * segment at the point's height never counts and sets the flag when the
   * point is within its x-range; a straddling segment sets the flag when it
   * passes through the point and otherwise counts when the orientation-
   * adjusted determinant sign is positive; any other segment changes nothing.
   */
  function CountSegment(c: Counter, p1: Point, p2: Point): (r: Counter)
    ensures r.p == c.p
    ensures r.crossingCount == c.crossingCount || r.crossingCount == c.crossingCount + 1
    ensures c.isPointOnSegment ==> r.isPointOnSegment
    ensures p1.x < c.p.x && p2.x < c.p.x ==> r == c
    ensures !(p1.x < c.p.x && p2.x < c.p.x) && c.p == p2 ==> r == c.(isPointOnSegment := true)
    ensures IsHorizontalAtPoint(c.p, p1, p2) ==> r.crossingCount == c.crossingCount
    ensures !(p1.x < c.p.x && p2.x < c.p.x) && c.p != p2 && IsHorizontalAtPoint(c.p, p1, p2) ==>
      (r.isPointOnSegment <==>
        (c.isPointOnSegment || (p1.x <= c.p.x <= p2.x) || (p2.x <= c.p.x <= p1.x)))
    ensures c.p != p2 && !IsHorizontalAtPoint(c.p, p1, p2) && !StraddlesRay(c.p, p1, p2) ==> r == c
    ensures !(p1.x < c.p.x && p2.x < c.p.x) && c.p != p2 && StraddlesRay(c.p, p1, p2) ==>
      (r.isPointOnSegment <==> c.isPointOnSegment || Det(c.p, p1, p2) == 0)
    ensures r.crossingCount == c.crossingCount + 1 <==>
      !(p1.x < c.p.x && p2.x < c.p.x) && c.p != p2 && StraddlesRay(c.p, p1, p2) &&
      Det(c.p, p1, p2) * (p2.y - p1.y) > 0
  {
    var p := c.p;
    if p1.x < p.x && p2.x < p.x then c
    else if p.x == p2.x && p.y == p2.y then c.(isPointOnSegment := true)
    else if p1.y == p.y && p2.y == p.y then
      var minx := if p1.x > p2.x then p2.x else p1.x;
      var maxx := if p1.x > p2.x then p1.x else p2.x;
      if p.x >= minx && p.x <= maxx then c.(isPointOnSegment := true) else c
    else if StraddlesRay(p, p1, p2) then
      var y1 := p1.y - p.y;
      var y2 := p2.y - p.y;
      var xIntSign := Sign(Det(p, p1, p2));
      if xIntSign == 0 then c.(isPointOnSegment := true)
      else
        var adjusted := if y2 < y1 then -xIntSign else xIntSign;
        assert adjusted > 0 <==> Det(p, p1, p2) * (p2.y - p1.y) > 0 by {
          SignProduct(Det(p, p1, p2), p2.y - p1.y);
        }
        if adjusted > 0 then c.(crossingCount := c.crossingCount + 1) else c
    else c
  }

  lemma SignProduct(d: int, dy: int)
    requires d != 0 && dy != 0
    ensures (if dy < 0 then -Sign(d) else Sign(d)) > 0 <==> d * dy > 0
  {
    if d > 0 && dy < 0 {
      assert d * dy < 0;
    } else if d < 0 && dy > 0 {
      assert d * dy < 0;
    } else if d < 0 && dy < 0 {
      assert d * dy == (-d) * (-dy);
    }
  }

  /**
   * What the count test means: for a segment that is not horizontal, the
   * point (x, p.y) with x - p.x = Det / (y2 - y1) lies on the segment's
   * line, and the test `Det * (y2 - y1) > 0` says exactly that this point
   * is strictly to the right of the test point.
   */
  lemma CrossingIsRightOfPoint(p: Point, p1: Point, p2: Point)
    requires p1.y != p2.y
    ensures var dy := (p2.y - p1.y) as real;
      var xRel := Det(p, p1, p2) as real / dy;
      ((p2.x - p1.x) as real) * (- (p1.y - p.y) as real) - dy * (xRel - (p1.x - p.x) as real) == 0.0
    ensures Det(p, p1, p2) * (p2.y - p1.y) > 0 <==> Det(p, p1, p2) as real / ((p2.y - p1.y) as real) > 0.0
  {
    var dy := (p2.y - p1.y) as real;
    var d := Det(p, p1, p2) as real;
    var xRel := d / dy;
    assert dy * xRel == d;
    if Det(p, p1, p2) * (p2.y - p1.y) > 0 {
      assert d * dy > 0.0;
      if dy > 0.0 {
        assert d > 0.0;
      } else {
        assert d < 0.0;
      }
    } else {
      assert d * dy <= 0.0;
    }
  }

  /** `getLocation`: on a segment is the boundary, else an odd count is the interior, else the exterior. */
  function GetLocation(c: Counter): (r: int)
    ensures r == Location.BOUNDARY <==> c.isPointOnSegment
    ensures r == Location.INTERIOR <==> !c.isPointOnSegment && c.crossingCount % 2 == 1
    ensures r == Location.EXTERIOR <==> !c.isPointOnSegment && c.crossingCount % 2 == 0
  {
    if c.isPointOnSegment then Location.BOUNDARY
    else if c.crossingCount % 2 == 1 then Location.INTERIOR
    else Location.EXTERIOR
  }

  /** `isPointInPolygon`: the location is not the exterior. */
  function IsPointInPolygon(c: Counter): (r: bool)
    ensures r <==> c.isPointOnSegment || c.crossingCount % 2 == 1
  {
    GetLocation(c) != Location.EXTERIOR
  }

  /** Once the flag is set, later segments keep the location at the boundary. */
  lemma BoundaryIsSticky(c: Counter, p1: Point, p2: Point)
    requires GetLocation(c) == Location.BOUNDARY
    ensures GetLocation(CountSegment(c, p1, p2)) == Location.BOUNDARY
  {
  }

  /** Every segment (ring[i], ring[i-1]) for i in [from, to), fed in order, with no early stop. */
  function CountAll(c: Counter, ring: Line, from: nat, to: nat): (r: Counter)
    requires 1 <= from <= to <= |ring|
    ensures r.p == c.p && r.crossingCount <= c.crossingCount + (to - from)
    ensures c.isPointOnSegment ==> r.isPointOnSegment
    decreases (to as int) - (from as int)
  {
    if from == to then c
    else CountAll(CountSegment(c, ring[from], ring[from - 1]), ring, from + 1, to)
  }

  /**
   * `locatePointInRing`: feeds (ring[i], ring[i-1]) for i = 1, 2, ... and
   * returns as soon as the point is found on a segment. Stopping early
   * gives the same location as feeding every segment; fewer than two
   * points give the exterior.
   */
  method LocatePointInRing(p: Point, ring: Line) returns (loc: int)
    ensures |ring| < 2 ==> loc == Location.EXTERIOR
    ensures |ring| >= 1 ==> loc == GetLocation(CountAll(NewCounter(p), ring, 1, |ring|))
  {
    var counter := NewCounter(p);
    var i := 1;
    while i < |ring|
      invariant 1 <= i <= |ring| || |ring| == 0
      invariant |ring| >= 1 ==> counter == CountAll(NewCounter(p), ring, 1, i)
      invariant !counter.isPointOnSegment
      invariant |ring| < 2 ==> counter == NewCounter(p)
    {
      var next := CountSegment(counter, ring[i], ring[i - 1]);
      CountAllStep(NewCounter(p), ring, 1, i);
      counter := next;
      if counter.isPointOnSegment {
        OnSegmentStaysBoundary(counter, ring, i + 1, |ring|);
        CountAllSplit(NewCounter(p), ring, 1, i + 1, |ring|);
        return GetLocation(counter);
      }
      i := i + 1;
    }
    return GetLocation(counter);
  }

  lemma {:induction false} CountAllStep(c: Counter, ring: Line, from: nat, i: nat)
    requires 1 <= from <= i < |ring|
    ensures CountAll(c, ring, from, i + 1) == CountSegment(CountAll(c, ring, from, i), ring[i], ring[i - 1])
    decreases i - from
  {
    if from < i {
      CountAllStep(CountSegment(c, ring[from], ring[from - 1]), ring, from + 1, i);
    }
  }

  lemma {:induction false} CountAllSplit(c: Counter, ring: Line, from: nat, mid: nat, to: nat)
    requires 1 <= from <= mid <= to <= |ring|
    ensures CountAll(c, ring, from, to) == CountAll(CountAll(c, ring, from, mid), ring, mid, to)
    decreases mid - from
  {
    if from < mid {
      CountAllSplit(CountSegment(c, ring[from], ring[from - 1]), ring, from + 1, mid, to);
    }
  }

  lemma OnSegmentStaysBoundary(c: Counter, ring: Line, from: nat, to: nat)
    requires 1 <= from <= to <= |ring| && c.isPointOnSegment
    ensures GetLocation(CountAll(c, ring, from, to)) == GetLocation(c)
  {
  }

  /** The square with corners (0,0) and (10,10), closed. */
  const Square: Line := [Point(0, 0), Point(10, 0), Point(10, 10), Point(0, 10), Point(0, 0)]

  /** Feeding the four sides of the square in ring order. */
  lemma SquareRun(c: Counter)
    ensures CountAll(c, Square, 1, 5) ==
      CountSegment(CountSegment(CountSegment(CountSegment(c, Square[1], Square[0]), Square[2], Square[1]), Square[3], Square[2]), Square[4], Square[3])
  {
    var s := Square;
    var c1 := CountSegment(c, s[1], s[0]);
    var c2 := CountSegment(c1, s[2], s[1]);
    var c3 := CountSegment(c2, s[3], s[2]);
    var c4 := CountSegment(c3, s[4], s[3]);
    assert CountAll(c4, s, 5, 5) == c4;
    assert CountAll(c3, s, 4, 5) == c4;
    assert CountAll(c2, s, 3, 5) == c4;
    assert CountAll(c1, s, 2, 5) == c4;
  }

  /** The centre of the square is inside: only its right side crosses the ray. */
  lemma SquareCentreIsInterior()
    ensures GetLocation(CountAll(NewCounter(Point(5, 5)), Square, 1, 5)) == Location.INTERIOR
  {
    SquareRun(NewCounter(Point(5, 5)));
    var s := Square;
    var c1 := Counter(Point(5, 5), 1, false);
    assert CountSegment(NewCounter(Point(5, 5)), s[1], s[0]) == NewCounter(Point(5, 5));
    assert CountSegment(NewCounter(Point(5, 5)), s[2], s[1]) == c1;
    assert CountSegment(c1, s[3], s[2]) == c1;
    assert CountSegment(c1, s[4], s[3]) == c1;
  }

  lemma SquareSideFirstSteps()
    ensures CountSegment(NewCounter(Point(0, 5)), Square[1], Square[0]) == NewCounter(Point(0, 5))
    ensures CountSegment(NewCounter(Point(0, 5)), Square[2], Square[1]) == Counter(Point(0, 5), 1, false)
  {
    assert Square[1] == Point(10, 0) && Square[0] == Point(0, 0) && Square[2] == Point(10, 10);
  }

  lemma SquareSideLastSteps()
    ensures CountSegment(Counter(Point(0, 5), 1, false), Square[3], Square[2]) == Counter(Point(0, 5), 1, false)
    ensures CountSegment(Counter(Point(0, 5), 1, false), Square[4], Square[3]) == Counter(Point(0, 5), 1, true)
  {
    assert Square[3] == Point(0, 10) && Square[2] == Point(10, 10) && Square[4] == Point(0, 0);
  }

  /** A point on the square's left side is on the boundary. */
  lemma SquareSideIsBoundary()
    ensures GetLocation(CountAll(NewCounter(Point(0, 5)), Square, 1, 5)) == Location.BOUNDARY
  {
    SquareRun(NewCounter(Point(0, 5)));
    SquareSideFirstSteps();
    SquareSideLastSteps();
  }

  /** A point to the right of the square is outside: the ray meets no side. */
  lemma SquareRightIsExterior()
    ensures GetLocation(CountAll(NewCounter(Point(15, 5)), Square, 1, 5)) == Location.EXTERIOR
  {
    SquareRun(NewCounter(Point(15, 5)));
    var s := Square;
    var e := NewCounter(Point(15, 5));
    assert CountSegment(e, s[1], s[0]) == e;
    assert CountSegment(e, s[2], s[1]) == e;
    assert CountSegment(e, s[3], s[2]) == e;
    assert CountSegment(e, s[4], s[3]) == e;
  }
}
