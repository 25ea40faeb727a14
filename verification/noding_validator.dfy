/**
 * The brute-force noding oracle of `noding/NodingValidator.java`: three
 * independent checks over a collection of segment strings, run in the order
 * endpoint/interior-vertex, interior intersection, collapse; the first
 * violation found aborts the validation.
 */
module NodingValidator {
  import opened Geom
  import opened Results

  /**
   * What the line intersector reports for two segments: the intersection
   * points it found (none means no intersection) and whether the
   * intersection is proper.
   */
  datatype Intersection = Intersection(points: seq<Point>, isProper: bool)

  /** The line intersector, an unseen collaborator, as a pure function of the two segments. */
  type Intersector = (Point, Point, Point, Point) -> Intersection

  /** The three failures `checkValid` can raise, with the coordinates it reports. */
  datatype NodingError =
    | EndPtInteriorVertex(pt: Point, index: nat)
    | NonNodedIntersection(p00: Point, p01: Point, p10: Point, p11: Point)
    | Collapse(p0: Point, p1: Point, p2: Point)

  /** Every segment string has a first point, which the endpoint check reads. */
  predicate AllNonEmpty(ss: seq<Line>) {
    forall k :: 0 <= k < |ss| ==> |ss[k]| > 0
  }

  // ---------------------------------------------------------------------
  // Reference definitions of the three violations

  /** The points at `i` and `i + 2` coincide: the pattern a-b-a. */
  predicate CollapseAt(pts: Line, i: int) {
    0 <= i && i + 2 < |pts| && pts[i] == pts[i + 2]
  }

  ghost predicate HasCollapse(ss: seq<Line>) {
    exists s, i :: 0 <= s < |ss| && CollapseAt(ss[s], i)
  }

  /** Vertex `j` of string `t` is interior (neither first nor last) and equals `pt`. */
  predicate OnInteriorVertex(ss: seq<Line>, pt: Point, t: int, j: int) {
    0 <= t < |ss| && 1 <= j < |ss[t]| - 1 && ss[t][j] == pt
  }

  /** The first or last point of string `s` equals an interior vertex of some string, `s` included. */
  predicate EndPtOnInteriorVertexAt(ss: seq<Line>, s: int, t: int, j: int)
    requires AllNonEmpty(ss)
  {
    0 <= s < |ss| &&
    (OnInteriorVertex(ss, ss[s][0], t, j) || OnInteriorVertex(ss, ss[s][|ss[s]| - 1], t, j))
  }

  ghost predicate HasEndPtOnInteriorVertex(ss: seq<Line>)
    requires AllNonEmpty(ss)
  {
    exists s, t, j :: EndPtOnInteriorVertexAt(ss, s, t, j)
  }

  /** Some reported intersection point is neither `p0` nor `p1`. */
  function HasInteriorIntersection(pts: seq<Point>, p0: Point, p1: Point): (r: bool)
    ensures r <==> exists k :: 0 <= k < |pts| && pts[k] != p0 && pts[k] != p1
  {
    if |pts| == 0 then false
    else if pts[0] != p0 && pts[0] != p1 then
      true
    else
      var rest := HasInteriorIntersection(pts[1..], p0, p1);
      assert forall k :: 1 <= k < |pts| ==> pts[k] == pts[1..][k - 1];
      rest
  }

  /**
   * The two segments intersect, and the intersection is proper or contains a
   * point interior to either segment.
   */
  predicate SegmentPairFails(li: Intersector, p00: Point, p01: Point, p10: Point, p11: Point) {
    var r := li(p00, p01, p10, p11);
    |r.points| > 0 &&
    (r.isProper || HasInteriorIntersection(r.points, p00, p01) || HasInteriorIntersection(r.points, p10, p11))
  }

  /**
   * Segment `i0` of string `a` against segment `i1` of string `b` is a
   * violation. Every ordered pair of strings is compared, a string with
   * itself included; only a segment against itself is skipped.
   */
  predicate PairFailsAt(li: Intersector, ss: seq<Line>, a: int, i0: int, b: int, i1: int) {
    0 <= a < |ss| && 0 <= b < |ss| &&
    0 <= i0 < |ss[a]| - 1 && 0 <= i1 < |ss[b]| - 1 &&
    !(a == b && i0 == i1) &&
    SegmentPairFails(li, ss[a][i0], ss[a][i0 + 1], ss[b][i1], ss[b][i1 + 1])
  }

  ghost predicate HasNonNodedIntersection(li: Intersector, ss: seq<Line>) {
    exists a, i0, b, i1 :: PairFailsAt(li, ss, a, i0, b, i1)
  }

  // ---------------------------------------------------------------------
  // The checks

  /** `checkCollapses`: scans every string for the pattern a-b-a. */
  method CheckCollapses(ss: seq<Line>) returns (r: Outcome<NodingError>)
    ensures r.Pass? <==> !HasCollapse(ss)
    ensures r.Fail? ==> exists s, i :: 0 <= s < |ss| && CollapseAt(ss[s], i) &&
                          r.error == Collapse(ss[s][i], ss[s][i + 1], ss[s][i + 2])
  {
    var s := 0;
    while s < |ss|
      invariant 0 <= s <= |ss|
      invariant forall s', i :: 0 <= s' < s ==> !CollapseAt(ss[s'], i)
    {
      var pts := ss[s];
      var i := 0;
      while i < |pts| - 2
        invariant 0 <= i <= |pts|
        invariant forall i' :: 0 <= i' < i ==> !CollapseAt(pts, i')
      {
        if pts[i] == pts[i + 2] {
          assert CollapseAt(ss[s], i);
          return Fail(Collapse(pts[i], pts[i + 1], pts[i + 2]));
        }
        i := i + 1;
      }
      s := s + 1;
    }
    return Pass;
  }

  /** `checkEndPtVertexIntersections(testPt, segStrings)`: `pt` against every interior vertex. */
  method CheckEndPtAgainstAll(pt: Point, ss: seq<Line>) returns (r: Outcome<NodingError>)
    ensures r.Pass? <==> forall t, j :: !OnInteriorVertex(ss, pt, t, j)
    ensures r.Fail? ==> exists t, j :: OnInteriorVertex(ss, pt, t, j) && r.error == EndPtInteriorVertex(pt, j)
  {
    var t := 0;
    while t < |ss|
      invariant 0 <= t <= |ss|
      invariant forall t', j :: t' < t ==> !OnInteriorVertex(ss, pt, t', j)
    {
      var pts := ss[t];
      var j := 1;
      while j < |pts| - 1
        invariant 1 <= j
        invariant forall j' :: j' < j ==> !OnInteriorVertex(ss, pt, t, j')
      {
        if pts[j] == pt {
          assert OnInteriorVertex(ss, pt, t, j);
          return Fail(EndPtInteriorVertex(pt, j));
        }
        j := j + 1;
      }
      t := t + 1;
    }
    return Pass;
  }

  /** `checkEndPtVertexIntersections()`: the first and then the last point of every string. */
  method CheckEndPtVertexIntersections(ss: seq<Line>) returns (r: Outcome<NodingError>)
    requires AllNonEmpty(ss)
    ensures r.Pass? <==> !HasEndPtOnInteriorVertex(ss)
    ensures r.Fail? ==> r.error.EndPtInteriorVertex? &&
                        exists s, t, j :: EndPtOnInteriorVertexAt(ss, s, t, j) && r.error.pt == ss[t][j]
  {
    var s := 0;
    while s < |ss|
      invariant 0 <= s <= |ss|
      invariant forall s', t, j :: s' < s ==> !EndPtOnInteriorVertexAt(ss, s', t, j)
    {
      var pts := ss[s];
      r := CheckEndPtAgainstAll(pts[0], ss);
      if r.Fail? {
        ghost var t, j :| OnInteriorVertex(ss, pts[0], t, j) && r.error == EndPtInteriorVertex(pts[0], j);
        assert EndPtOnInteriorVertexAt(ss, s, t, j);
        return;
      }
      r := CheckEndPtAgainstAll(pts[|pts| - 1], ss);
      if r.Fail? {
        ghost var t, j :| OnInteriorVertex(ss, pts[|pts| - 1], t, j) && r.error == EndPtInteriorVertex(pts[|pts| - 1], j);
        assert EndPtOnInteriorVertexAt(ss, s, t, j);
        return;
      }
      s := s + 1;
    }
    return Pass;
  }

  /** `checkInteriorIntersections(ss0, ss1)`: every segment of `ss[a]` against every segment of `ss[b]`. */
  method CheckStringPair(li: Intersector, ss: seq<Line>, a: nat, b: nat) returns (r: Outcome<NodingError>)
    requires a < |ss| && b < |ss|
    ensures r.Pass? <==> forall i0, i1 :: !PairFailsAt(li, ss, a, i0, b, i1)
    ensures r.Fail? ==> exists i0, i1 :: PairFailsAt(li, ss, a, i0, b, i1) &&
                          r.error == NonNodedIntersection(ss[a][i0], ss[a][i0 + 1], ss[b][i1], ss[b][i1 + 1])
  {
    var pts0, pts1 := ss[a], ss[b];
    var i0 := 0;
    while i0 < |pts0| - 1
      invariant 0 <= i0
      invariant forall i0', i1 :: i0' < i0 ==> !PairFailsAt(li, ss, a, i0', b, i1)
    {
      var i1 := 0;
      while i1 < |pts1| - 1
        invariant 0 <= i1
        invariant forall i1' :: i1' < i1 ==> !PairFailsAt(li, ss, a, i0, b, i1')
      {
        if !(a == b && i0 == i1) {
          var p00, p01, p10, p11 := pts0[i0], pts0[i0 + 1], pts1[i1], pts1[i1 + 1];
          var x := li(p00, p01, p10, p11);
          if |x.points| > 0 {
            if x.isProper || HasInteriorIntersection(x.points, p00, p01) || HasInteriorIntersection(x.points, p10, p11) {
              assert PairFailsAt(li, ss, a, i0, b, i1);
              return Fail(NonNodedIntersection(p00, p01, p10, p11));
            }
          }
        }
        i1 := i1 + 1;
      }
      i0 := i0 + 1;
    }
    return Pass;
  }

  /** `checkInteriorIntersections()`: every ordered pair of strings, a string with itself included. */
  method CheckInteriorIntersections(li: Intersector, ss: seq<Line>) returns (r: Outcome<NodingError>)
    ensures r.Pass? <==> !HasNonNodedIntersection(li, ss)
    ensures r.Fail? ==> r.error.NonNodedIntersection? &&
                        SegmentPairFails(li, r.error.p00, r.error.p01, r.error.p10, r.error.p11)
  {
    var a := 0;
    while a < |ss|
      invariant 0 <= a <= |ss|
      invariant forall a', i0, b, i1 :: a' < a ==> !PairFailsAt(li, ss, a', i0, b, i1)
    {
      var b := 0;
      while b < |ss|
        invariant 0 <= b <= |ss|
        invariant forall i0, b', i1 :: b' < b ==> !PairFailsAt(li, ss, a, i0, b', i1)
      {
        r := CheckStringPair(li, ss, a, b);
        if r.Fail? {
          return;
        }
        b := b + 1;
      }
      a := a + 1;
    }
    return Pass;
  }

  /**
   * `checkValid`: the endpoint check, then the interior-intersection check,
   * then the collapse check; the first failing check decides the error.
   */
  method CheckValid(li: Intersector, ss: seq<Line>) returns (r: Outcome<NodingError>)
    requires AllNonEmpty(ss)
    ensures r.Pass? <==> !HasEndPtOnInteriorVertex(ss) && !HasNonNodedIntersection(li, ss) && !HasCollapse(ss)
    ensures HasEndPtOnInteriorVertex(ss) ==> r.Fail? && r.error.EndPtInteriorVertex?
    ensures !HasEndPtOnInteriorVertex(ss) && HasNonNodedIntersection(li, ss) ==>
              r.Fail? && r.error.NonNodedIntersection?
    ensures !HasEndPtOnInteriorVertex(ss) && !HasNonNodedIntersection(li, ss) && HasCollapse(ss) ==>
              r.Fail? && r.error.Collapse?
  {
    r := CheckEndPtVertexIntersections(ss);
    if r.Fail? { return; }
    r := CheckInteriorIntersections(li, ss);
    if r.Fail? { return; }
    r := CheckCollapses(ss);
  }

  /** Strings of at most two points have no interior vertex and no room for a-b-a. */
  lemma ShortStringsPassVertexChecks(ss: seq<Line>)
    requires AllNonEmpty(ss)
    requires forall k :: 0 <= k < |ss| ==> |ss[k]| <= 2
    ensures !HasCollapse(ss)
    ensures !HasEndPtOnInteriorVertex(ss)
  {
  }

  /**
   * A segment is never compared with itself, but two distinct segments of
   * the same string are: two collinear overlapping segments of one string
   * are caught by the interior check.
   */
  lemma SelfPairsSkipped(li: Intersector, ss: seq<Line>, a: int, i: int)
    ensures !PairFailsAt(li, ss, a, i, a, i)
  {
  }
}
