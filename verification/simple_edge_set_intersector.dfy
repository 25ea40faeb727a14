/**
 * The brute-force edge set intersector of
 * `geomgraph/index/SimpleEdgeSetIntersector.java`: every segment of every
 * chosen edge pair is handed to the segment intersector. The segment
 * intersector is not part of this model; its `addIntersections(e0, i0, e1, i1)`
 * calls are recorded in order. Edges are named by their position in their
 * list, which stands for Java object identity.
 */
module SimpleEdgeSetIntersector {
  import opened Geom

  datatype AddCall = AddCall(edge0: nat, seg0: nat, edge1: nat, seg1: nat)

  /** Lexicographic order on (edge0, edge1, seg0, seg1), the order in which the loops issue calls. */
  predicate Before(c: AddCall, d: AddCall) {
    c.edge0 < d.edge0 ||
    (c.edge0 == d.edge0 && (c.edge1 < d.edge1 ||
      (c.edge1 == d.edge1 && (c.seg0 < d.seg0 || (c.seg0 == d.seg0 && c.seg1 < d.seg1)))))
  }

  /** Strictly increasing, so in particular no call is made twice. */
  predicate Increasing(s: seq<AddCall>) {
    forall a, b :: 0 <= a < b < |s| ==> Before(s[a], s[b])
  }

  lemma IncreasingAppend(s: seq<AddCall>, t: seq<AddCall>)
    requires Increasing(s) && Increasing(t)
    requires forall a, b :: 0 <= a < |s| && 0 <= b < |t| ==> Before(s[a], t[b])
    ensures Increasing(s + t)
  {
  }

  /** The number of segments of a point list, 0 when it has fewer than two points. */
  function SegmentCount(pts: Line): (r: nat)
    ensures r == 0 <==> |pts| < 2
    ensures |pts| >= 2 ==> r + 1 == |pts|
  {
    if |pts| < 2 then 0 else |pts| - 1
  }

  /** The inner loop of `computeIntersects`: segment `seg0` against every segment of the second edge. */
  method SegmentRow(edge0: nat, seg0: nat, edge1: nat, pts1: Line) returns (row: seq<AddCall>)
    ensures forall c :: c in row <==> c.edge0 == edge0 && c.edge1 == edge1 && c.seg0 == seg0 && c.seg1 < SegmentCount(pts1)
    ensures forall a :: 0 <= a < |row| ==> row[a].seg0 == seg0
    ensures Increasing(row)
    ensures |row| == SegmentCount(pts1)
  {
    row := [];
    var i1 := 0;
    while i1 < |pts1| - 1
      invariant 0 <= i1 <= SegmentCount(pts1)
      invariant forall c :: c in row <==> c.edge0 == edge0 && c.edge1 == edge1 && c.seg0 == seg0 && c.seg1 < i1
      invariant forall a :: 0 <= a < |row| ==> row[a].seg1 < i1 && row[a].seg0 == seg0 && row[a].edge0 == edge0 && row[a].edge1 == edge1
      invariant Increasing(row)
      invariant |row| == i1
    {
      row := row + [AddCall(edge0, seg0, edge1, i1)];
      i1 := i1 + 1;
    }
  }

  lemma MulStep(i: nat, n: nat)
    ensures (i + 1) * n == i * n + n
  {
  }

  /**
   * `computeIntersects(e0, e1, si)`: one call per segment index pair
   * (i0, i1) with i0 < n0 - 1 and i1 < n1 - 1, in row-major order, so
   * (n0 - 1)(n1 - 1) calls, and none for an edge with fewer than two points.
   */
  method ComputeIntersects(edge0: nat, pts0: Line, edge1: nat, pts1: Line) returns (calls: seq<AddCall>)
    ensures forall c :: c in calls <==>
      c.edge0 == edge0 && c.edge1 == edge1 && c.seg0 < SegmentCount(pts0) && c.seg1 < SegmentCount(pts1)
    ensures Increasing(calls)
    ensures |calls| == SegmentCount(pts0) * SegmentCount(pts1)
  {
    calls := [];
    var i0 := 0;
    while i0 < |pts0| - 1
      invariant 0 <= i0 <= SegmentCount(pts0)
      invariant forall c :: c in calls <==>
        c.edge0 == edge0 && c.edge1 == edge1 && c.seg0 < i0 && c.seg1 < SegmentCount(pts1)
      invariant Increasing(calls)
      invariant forall a :: 0 <= a < |calls| ==> calls[a].seg0 < i0 && calls[a].edge0 == edge0 && calls[a].edge1 == edge1
      invariant |calls| == i0 * SegmentCount(pts1)
    {
      var row := SegmentRow(edge0, i0, edge1, pts1);
      assert forall b :: 0 <= b < |row| ==> row[b] in row;
      IncreasingAppend(calls, row);
      MulStep(i0, SegmentCount(pts1));
      calls := calls + row;
      i0 := i0 + 1;
    }
  }

  /**
   * One outer step of the single-set loop: `edge0` against every edge of
   * the list, skipping itself unless `testAllSegments`.
   */
  method SingleSetRow(edges: seq<Line>, edge0: nat, testAllSegments: bool) returns (calls: seq<AddCall>)
    requires edge0 < |edges|
    ensures forall c :: c in calls <==>
      c.edge0 == edge0 && c.edge1 < |edges| && (testAllSegments || c.edge1 != edge0) &&
      c.seg0 < SegmentCount(edges[edge0]) && c.seg1 < SegmentCount(edges[c.edge1])
    ensures Increasing(calls)
  {
    calls := [];
    var e1 := 0;
    while e1 < |edges|
      invariant 0 <= e1 <= |edges|
      invariant forall c :: c in calls <==>
        c.edge0 == edge0 && c.edge1 < e1 && (testAllSegments || c.edge1 != edge0) &&
        c.seg0 < SegmentCount(edges[edge0]) && c.seg1 < SegmentCount(edges[c.edge1])
      invariant forall a :: 0 <= a < |calls| ==> calls[a].edge0 == edge0 && calls[a].edge1 < e1
      invariant Increasing(calls)
    {
      if testAllSegments || edge0 != e1 {
        var more := ComputeIntersects(edge0, edges[edge0], e1, edges[e1]);
        assert forall b :: 0 <= b < |more| ==> more[b] in more;
        IncreasingAppend(calls, more);
        calls := calls + more;
      }
      e1 := e1 + 1;
    }
  }

  /**
   * `computeIntersections(edges, si, testAllSegments)`: every ordered edge
   * pair, both (a, b) and (b, a), and an edge against itself only when
   * `testAllSegments`; each segment pair exactly once, in loop order. The
   * overlap counter is reset to 0 and never incremented.
   */
  method ComputeIntersectionsSingle(edges: seq<Line>, testAllSegments: bool) returns (calls: seq<AddCall>, nOverlaps: nat)
    ensures forall c :: c in calls <==>
      c.edge0 < |edges| && c.edge1 < |edges| && (testAllSegments || c.edge0 != c.edge1) &&
      c.seg0 < SegmentCount(edges[c.edge0]) && c.seg1 < SegmentCount(edges[c.edge1])
    ensures Increasing(calls)
    ensures nOverlaps == 0
  {
    nOverlaps := 0;
    calls := [];
    var e0 := 0;
    while e0 < |edges|
      invariant 0 <= e0 <= |edges|
      invariant forall c :: c in calls <==>
        c.edge0 < e0 && c.edge1 < |edges| && (testAllSegments || c.edge0 != c.edge1) &&
        c.seg0 < SegmentCount(edges[c.edge0]) && c.seg1 < SegmentCount(edges[c.edge1])
      invariant forall a :: 0 <= a < |calls| ==> calls[a].edge0 < e0
      invariant Increasing(calls)
    {
      var row := SingleSetRow(edges, e0, testAllSegments);
      assert forall b :: 0 <= b < |row| ==> row[b] in row;
      IncreasingAppend(calls, row);
      calls := calls + row;
      e0 := e0 + 1;
    }
  }

  /** One outer step of the two-set loop: `edge0` of the first list against every edge of the second. */
  method TwoSetRow(edges0: seq<Line>, edges1: seq<Line>, edge0: nat) returns (calls: seq<AddCall>)
    requires edge0 < |edges0|
    ensures forall c :: c in calls <==>
      c.edge0 == edge0 && c.edge1 < |edges1| &&
      c.seg0 < SegmentCount(edges0[edge0]) && c.seg1 < SegmentCount(edges1[c.edge1])
    ensures Increasing(calls)
  {
    calls := [];
    var e1 := 0;
    while e1 < |edges1|
      invariant 0 <= e1 <= |edges1|
      invariant forall c :: c in calls <==>
        c.edge0 == edge0 && c.edge1 < e1 &&
        c.seg0 < SegmentCount(edges0[edge0]) && c.seg1 < SegmentCount(edges1[c.edge1])
      invariant forall a :: 0 <= a < |calls| ==> calls[a].edge0 == edge0 && calls[a].edge1 < e1
      invariant Increasing(calls)
    {
      var more := ComputeIntersects(edge0, edges0[edge0], e1, edges1[e1]);
      assert forall b :: 0 <= b < |more| ==> more[b] in more;
      IncreasingAppend(calls, more);
      calls := calls + more;
      e1 := e1 + 1;
    }
  }

  /**
   * `computeIntersections(edges0, edges1, si)`: every pair of
   * edges0 x edges1 exactly once (edge0 names a position in the first list,
   * edge1 in the second), each segment pair exactly once; the counter is 0.
   */
  method ComputeIntersectionsTwoSets(edges0: seq<Line>, edges1: seq<Line>) returns (calls: seq<AddCall>, nOverlaps: nat)
    ensures forall c :: c in calls <==>
      c.edge0 < |edges0| && c.edge1 < |edges1| &&
      c.seg0 < SegmentCount(edges0[c.edge0]) && c.seg1 < SegmentCount(edges1[c.edge1])
    ensures Increasing(calls)
    ensures nOverlaps == 0
  {
    nOverlaps := 0;
    calls := [];
    var e0 := 0;
    while e0 < |edges0|
      invariant 0 <= e0 <= |edges0|
      invariant forall c :: c in calls <==>
        c.edge0 < e0 && c.edge1 < |edges1| &&
        c.seg0 < SegmentCount(edges0[c.edge0]) && c.seg1 < SegmentCount(edges1[c.edge1])
      invariant forall a :: 0 <= a < |calls| ==> calls[a].edge0 < e0
      invariant Increasing(calls)
    {
      var row := TwoSetRow(edges0, edges1, e0);
      assert forall b :: 0 <= b < |row| ==> row[b] in row;
      IncreasingAppend(calls, row);
      calls := calls + row;
      e0 := e0 + 1;
    }
  }
}
