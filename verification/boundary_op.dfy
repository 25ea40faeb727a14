/**
 * The boundary of linear geometries, `operation/BoundaryOp.java`. A
 * MultiLineString's boundary is the set of component endpoints whose
 * valence (the number of component ends at that point) the boundary node
 * rule accepts; a LineString is handled directly. The rule is a parameter;
 * the default is the "mod-2" rule of section 6.1.8.1 of the OGC Simple
 * Features specification (OGC 06-103r4): odd valence is on the boundary.
 */
module BoundaryOp {
  import opened Geom

  /** `BoundaryNodeRule.isInBoundary(valence)`. */
  type BoundaryNodeRule = nat -> bool

  /** `MOD2_BOUNDARY_RULE`, the rule used when none is given. */
  function Mod2Rule(valence: nat): bool {
    valence % 2 == 1
  }

  datatype Geometry = LineString(pts: Line) | MultiLineString(lines: seq<Line>) | OtherGeometry(id: nat)

  /** The result: a Point, a MultiPoint, or the boundary another geometry type computes for itself. */
  datatype BoundaryResult = PointResult(p: Point) | MultiPointResult(pts: seq<Point>) | OwnBoundary(id: nat)

  /** How many component ends of the non-empty components lie at `p`. */
  function Valence(lines: seq<Line>, p: Point): nat {
    if |lines| == 0 then 0
    else
      var line := lines[|lines| - 1];
      Valence(lines[..|lines| - 1], p) +
        (if |line| == 0 then 0 else (if line[0] == p then 1 else 0) + (if line[|line| - 1] == p then 1 else 0))
  }

  /** An entry of the endpoint map: a point and its counter. */
  datatype Entry = Entry(pt: Point, count: nat)

  /** The map is kept as its entries in key order, each counter positive. */
  predicate ValidMap(m: seq<Entry>) {
    && (forall a, b :: 0 <= a < b < |m| ==> PointLess(m[a].pt, m[b].pt))
    && (forall a :: 0 <= a < |m| ==> m[a].count > 0)
  }

  function Lookup(m: seq<Entry>, p: Point): nat {
    if |m| == 0 then 0 else if m[0].pt == p then m[0].count else Lookup(m[1..], p)
  }

  lemma {:induction false} LookupPresent(m: seq<Entry>, k: int)
    requires ValidMap(m) && 0 <= k < |m|
    ensures Lookup(m, m[k].pt) == m[k].count
  {
    if k > 0 {
      assert PointLess(m[0].pt, m[k].pt);
      LookupPresent(m[1..], k - 1);
    }
  }

  lemma {:induction false} LookupAbsent(m: seq<Entry>, p: Point)
    requires forall a :: 0 <= a < |m| ==> m[a].pt != p
    ensures Lookup(m, p) == 0
  {
    if |m| > 0 {
      LookupAbsent(m[1..], p);
    }
  }

  /** `addEndpoint`: the point's counter goes up by one, created at zero if absent; every other counter is unchanged. */
  function AddEndpoint(m: seq<Entry>, pt: Point): (r: seq<Entry>)
    requires ValidMap(m)
    ensures ValidMap(r)
    ensures Lookup(r, pt) == Lookup(m, pt) + 1
    ensures forall q :: q != pt ==> Lookup(r, q) == Lookup(m, q)
    ensures forall a :: 0 <= a < |r| ==> r[a].pt == pt || exists b :: 0 <= b < |m| && m[b].pt == r[a].pt
  {
    if |m| == 0 then [Entry(pt, 1)]
    else if m[0].pt == pt then
      AddAtHead(m, pt);
      [Entry(pt, m[0].count + 1)] + m[1..]
    else if PointLess(pt, m[0].pt) then
      AddBefore(m, pt);
      [Entry(pt, 1)] + m
    else
      var rest := AddEndpoint(m[1..], pt);
      AddAfter(m, pt, rest);
      [m[0]] + rest
  }

  /** A point already at the first key has that counter raised. */
  lemma AddAtHead(m: seq<Entry>, pt: Point)
    requires ValidMap(m) && |m| > 0 && m[0].pt == pt
    ensures var r := [Entry(pt, m[0].count + 1)] + m[1..];
      && ValidMap(r)
      && Lookup(r, pt) == Lookup(m, pt) + 1
      && (forall q :: q != pt ==> Lookup(r, q) == Lookup(m, q))
      && (forall a :: 0 <= a < |r| ==> r[a].pt == pt || exists b :: 0 <= b < |m| && m[b].pt == r[a].pt)
  {
    var r := [Entry(pt, m[0].count + 1)] + m[1..];
    assert r[1..] == m[1..];
    forall a | 0 <= a < |r|
      ensures r[a].pt == m[a].pt
    {
    }
  }

  /** A point below every key goes in front with counter one. */
  lemma AddBefore(m: seq<Entry>, pt: Point)
    requires ValidMap(m) && |m| > 0 && PointLess(pt, m[0].pt)
    ensures var r := [Entry(pt, 1)] + m;
      && ValidMap(r)
      && Lookup(r, pt) == Lookup(m, pt) + 1
      && (forall q :: q != pt ==> Lookup(r, q) == Lookup(m, q))
  {
    var r := [Entry(pt, 1)] + m;
    assert r[1..] == m;
    forall a | 0 <= a < |m|
      ensures m[a].pt != pt
    {
      if a > 0 {
        assert PointLess(m[0].pt, m[a].pt);
      }
    }
    LookupAbsent(m, pt);
  }

  /** A point above the first key is added to the rest of the map behind that key. */
  lemma AddAfter(m: seq<Entry>, pt: Point, rest: seq<Entry>)
    requires ValidMap(m) && |m| > 0 && m[0].pt != pt && !PointLess(pt, m[0].pt)
    requires ValidMap(rest)
    requires Lookup(rest, pt) == Lookup(m[1..], pt) + 1
    requires forall q :: q != pt ==> Lookup(rest, q) == Lookup(m[1..], q)
    requires forall a :: 0 <= a < |rest| ==> rest[a].pt == pt || exists b :: 0 <= b < |m[1..]| && m[1..][b].pt == rest[a].pt
    ensures var r := [m[0]] + rest;
      && ValidMap(r)
      && Lookup(r, pt) == Lookup(m, pt) + 1
      && (forall q :: q != pt ==> Lookup(r, q) == Lookup(m, q))
      && (forall a :: 0 <= a < |r| ==> r[a].pt == pt || exists b :: 0 <= b < |m| && m[b].pt == r[a].pt)
  {
    var r := [m[0]] + rest;
    assert r[1..] == rest;
    assert PointLess(m[0].pt, pt);
    forall a | 0 < a < |r|
      ensures PointLess(m[0].pt, r[a].pt)
    {
      assert r[a] == rest[a - 1];
      if r[a].pt != pt {
        var b :| 0 <= b < |m[1..]| && m[1..][b].pt == rest[a - 1].pt;
        assert m[1..][b] == m[b + 1];
      }
    }
    forall a | 0 <= a < |r|
      ensures r[a].pt == pt || exists b :: 0 <= b < |m| && m[b].pt == r[a].pt
    {
      if a == 0 {
        assert m[0].pt == r[a].pt;
      } else if r[a].pt != pt {
        assert r[a] == rest[a - 1];
        var b :| 0 <= b < |m[1..]| && m[1..][b].pt == rest[a - 1].pt;
        assert m[b + 1].pt == r[a].pt;
      }
    }
  }

  /**
   * The endpoint map of `computeBoundaryCoordinates`: for each component in
   * order, skipping those with no points, its first and then its last point.
   */
  function EndpointMap(lines: seq<Line>): (m: seq<Entry>)
    ensures ValidMap(m)
    ensures forall p :: Lookup(m, p) == Valence(lines, p)
  {
    if |lines| == 0 then []
    else
      var prefix := lines[..|lines| - 1];
      var line := lines[|lines| - 1];
      var m0 := EndpointMap(prefix);
      if |line| == 0 then m0
      else AddEndpoint(AddEndpoint(m0, line[0]), line[|line| - 1])
  }

  /** The keys, in map order, whose counters the rule accepts. */
  function Accepted(m: seq<Entry>, rule: BoundaryNodeRule): (r: seq<Point>)
    requires ValidMap(m)
    ensures StrictlySorted(r)
    ensures forall p :: p in r <==> Lookup(m, p) > 0 && rule(Lookup(m, p))
    ensures forall a :: 0 <= a < |r| ==> exists b :: 0 <= b < |m| && m[b].pt == r[a]
  {
    if |m| == 0 then []
    else
      var rest := Accepted(m[1..], rule);
      forall p | p in rest
        ensures PointLess(m[0].pt, p)
      {
        var a :| 0 <= a < |rest| && rest[a] == p;
        var b :| 0 <= b < |m[1..]| && m[1..][b].pt == rest[a];
        assert m[b + 1].pt == p;
      }
      forall p
        ensures Lookup(m, p) == (if m[0].pt == p then m[0].count else Lookup(m[1..], p))
      {
      }
      assert Lookup(m[1..], m[0].pt) == 0 by {
        LookupAbsent(m[1..], m[0].pt);
      }
      var r := if rule(m[0].count) then [m[0].pt] + rest else rest;
      forall a | 0 <= a < |r|
        ensures exists b :: 0 <= b < |m| && m[b].pt == r[a]
      {
        if rule(m[0].count) && a == 0 {
          assert m[0].pt == r[a];
        } else {
          var a' := if rule(m[0].count) then a - 1 else a;
          assert r[a] == rest[a'];
          var b :| 0 <= b < |m[1..]| && m[1..][b].pt == rest[a'];
          assert m[b + 1].pt == r[a];
        }
      }
      r
  }

  /**
   * `computeBoundaryCoordinates`: every endpoint whose valence the rule
   * accepts, once each, in coordinate order.
   */
  function ComputeBoundaryCoordinates(lines: seq<Line>, rule: BoundaryNodeRule): (r: seq<Point>)
    ensures StrictlySorted(r)
    ensures forall p :: p in r <==> Valence(lines, p) > 0 && rule(Valence(lines, p))
  {
    Accepted(EndpointMap(lines), rule)
  }

  /** `isEmpty` of a MultiLineString: no component has a point. */
  predicate AllEmpty(lines: seq<Line>) {
    forall k :: 0 <= k < |lines| ==> |lines[k]| == 0
  }

  /** `isClosed` of a LineString: non-empty with equal first and last points. */
  predicate IsClosed(pts: Line) {
    |pts| > 0 && pts[0] == pts[|pts| - 1]
  }

  /** `boundaryLineString`. */
  function BoundaryLineString(pts: Line, rule: BoundaryNodeRule): (r: BoundaryResult)
    ensures |pts| == 0 ==> r == MultiPointResult([])
    ensures IsClosed(pts) ==> r == (if rule(2) then PointResult(pts[0]) else MultiPointResult([]))
    ensures |pts| > 0 && !IsClosed(pts) ==> r == MultiPointResult([pts[0], pts[|pts| - 1]])
  {
    if |pts| == 0 then MultiPointResult([])
    else if IsClosed(pts) then (if rule(2) then PointResult(pts[0]) else MultiPointResult([]))
    else MultiPointResult([pts[0], pts[|pts| - 1]])
  }

  /** `boundaryMultiLineString`: one boundary point is a Point, none or several a MultiPoint. */
  function BoundaryMultiLineString(lines: seq<Line>, rule: BoundaryNodeRule): (r: BoundaryResult)
    ensures AllEmpty(lines) ==> r == MultiPointResult([])
    ensures !AllEmpty(lines) ==> var b := ComputeBoundaryCoordinates(lines, rule);
      r == (if |b| == 1 then PointResult(b[0]) else MultiPointResult(b))
  {
    if AllEmpty(lines) then MultiPointResult([])
    else
      var b := ComputeBoundaryCoordinates(lines, rule);
      if |b| == 1 then PointResult(b[0]) else MultiPointResult(b)
  }

  /** `getBoundary`, with an explicit rule. */
  function GetBoundary(g: Geometry, rule: BoundaryNodeRule): (r: BoundaryResult)
    ensures g.LineString? ==> r == BoundaryLineString(g.pts, rule)
    ensures g.MultiLineString? ==> r == BoundaryMultiLineString(g.lines, rule)
    ensures g.OtherGeometry? ==> r == OwnBoundary(g.id)
  {
    match g
    case LineString(pts) => BoundaryLineString(pts, rule)
    case MultiLineString(lines) => BoundaryMultiLineString(lines, rule)
    case OtherGeometry(id) => OwnBoundary(id)
  }

  /** `getBoundary(g)`: the mod-2 rule. */
  function GetBoundaryDefault(g: Geometry): (r: BoundaryResult)
    ensures r == GetBoundary(g, Mod2Rule)
  {
    GetBoundary(g, Mod2Rule)
  }

  /** Under the mod-2 rule a closed LineString has an empty boundary. */
  lemma ClosedLineHasNoMod2Boundary(pts: Line)
    requires IsClosed(pts)
    ensures GetBoundaryDefault(LineString(pts)) == MultiPointResult([])
  {
  }

  /** A strictly sorted sequence holding exactly two given points is those two, in order. */
  lemma SortedPair(r: seq<Point>, x: Point, y: Point)
    requires StrictlySorted(r) && PointLess(x, y)
    requires forall p :: p in r <==> p == x || p == y
    ensures r == [x, y]
  {
    forall k | 0 <= k < |r|
      ensures r[k] == x || r[k] == y
    {
      assert r[k] in r;
    }
    assert x in r && y in r;
    var i :| 0 <= i < |r| && r[i] == x;
    var j :| 0 <= j < |r| && r[j] == y;
    assert |r| >= 2;
    assert r[0] == x;
    assert PointLess(r[0], r[1]);
    assert r[1] == y;
  }

  /** Two components joined end to end: under mod-2 only the two free ends are on the boundary. */
  lemma JoinedPathBoundary(a: Point, b: Point, c: Point)
    requires PointLess(a, c) && a != b && b != c
    ensures ComputeBoundaryCoordinates([[a, b], [b, c]], Mod2Rule) == [a, c]
  {
    var lines := [[a, b], [b, c]];
    assert lines[..1] == [[a, b]];
    assert lines[..1][..0] == [];
    forall p
      ensures Valence(lines, p) == (if p == a then 1 else 0) + (if p == b then 2 else 0) + (if p == c then 1 else 0)
    {
      assert Valence(lines[..1], p) == (if p == a then 1 else 0) + (if p == b then 1 else 0);
    }
    var r := ComputeBoundaryCoordinates(lines, Mod2Rule);
    forall p
      ensures p in r <==> p == a || p == c
    {
    }
    SortedPair(r, a, c);
  }

  /**
   * For a single open component, the mod-2 MultiLineString boundary holds
   * the same two points as the LineString boundary, in coordinate order.
   */
  lemma SingleOpenComponentAgrees(pts: Line)
    requires |pts| > 0 && !IsClosed(pts)
    ensures var s, e := pts[0], pts[|pts| - 1];
      ComputeBoundaryCoordinates([pts], Mod2Rule) == (if PointLess(s, e) then [s, e] else [e, s])
  {
    var s, e := pts[0], pts[|pts| - 1];
    var r := ComputeBoundaryCoordinates([pts], Mod2Rule);
    SingleComponentEnds(pts);
    if PointLess(s, e) {
      SortedPair(r, s, e);
    } else {
      SortedPair(r, e, s);
    }
  }

  /** The mod-2 boundary of one open component holds exactly its two ends. */
  lemma SingleComponentEnds(pts: Line)
    requires |pts| > 0 && !IsClosed(pts)
    ensures forall p :: p in ComputeBoundaryCoordinates([pts], Mod2Rule) <==> p == pts[0] || p == pts[|pts| - 1]
  {
    var lines := [pts];
    assert lines[..0] == [];
    var r := ComputeBoundaryCoordinates(lines, Mod2Rule);
    forall p
      ensures p in r <==> p == pts[0] || p == pts[|pts| - 1]
    {
      assert Valence(lines[..0], p) == 0;
      assert Valence(lines, p) == (if p == pts[0] then 1 else 0) + (if p == pts[|pts| - 1] then 1 else 0);
    }
  }
}
