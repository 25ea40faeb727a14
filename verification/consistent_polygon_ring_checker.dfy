/**
 * `operation/overlay/ConsistentPolygonRingChecker.java`: after noding, checks
 * at every node of the overlay graph that the potential result area edges
 * around the node can be linked into rings. A directed-edge star is walked
 * counter-clockwise with a two-state machine; a node where an incoming
 * result edge is left waiting and no outgoing result edge exists raises a
 * topology error. `OverlayOp.isResultOfOp` is a parameter.
 */
module ConsistentPolygonRingChecker {
  import opened Geom
  import opened Results

  /** The overlay operations, in the order `checkAll` checks them. */
  datatype OpCode = Intersection | Difference | Union | SymDifference

  /** `OverlayOp.isResultOfOp(loc0, loc1, opCode)`. */
  type ResultOfOp = (int, int, OpCode) -> bool

  /** What a directed edge's label and flags contribute: is it an area edge, its right-side locations. */
  datatype DirEdge = DirEdge(id: nat, isArea: bool, isInteriorAreaEdge: bool, rightLoc0: int, rightLoc1: int)

  /** An outgoing directed edge of a star with its sym (the opposite, incoming edge). */
  datatype StarEdge = StarEdge(out: DirEdge, sym: DirEdge)

  /** A node's directed-edge star, in counter-clockwise order. */
  datatype Star = Star(coord: Point, edges: seq<StarEdge>)

  datatype TopologyError = NoOutgoingDirEdge(at: Point)

  /** `isPotentialResultAreaEdge`. */
  predicate IsPotentialResultAreaEdge(de: DirEdge, op: OpCode, resultOf: ResultOfOp) {
    de.isArea && !de.isInteriorAreaEdge && resultOf(de.rightLoc0, de.rightLoc1, op)
  }

  /** The star edge belongs in the ring-edge list: it, or its sym, is a potential result edge. */
  predicate IsRingEdge(e: StarEdge, op: OpCode, resultOf: ResultOfOp) {
    IsPotentialResultAreaEdge(e.out, op, resultOf) || IsPotentialResultAreaEdge(e.sym, op, resultOf)
  }

  /** `s` is obtained from `t` by deleting elements. */
  predicate IsSubsequence<T(==)>(s: seq<T>, t: seq<T>) {
    if |s| == 0 then true
    else if |t| == 0 then false
    else (s[0] == t[0] && IsSubsequence(s[1..], t[1..])) || IsSubsequence(s, t[1..])
  }

  /** `getPotentialResultAreaEdges`: the ring edges of the star, in star order. */
  function GetPotentialResultAreaEdges(edges: seq<StarEdge>, op: OpCode, resultOf: ResultOfOp): (r: seq<StarEdge>)
    ensures |r| <= |edges|
    ensures forall e :: e in r <==> e in edges && IsRingEdge(e, op, resultOf)
    ensures IsSubsequence(r, edges)
  {
    if |edges| == 0 then []
    else
      var rest := GetPotentialResultAreaEdges(edges[1..], op, resultOf);
      if IsRingEdge(edges[0], op, resultOf) then
        var r := [edges[0]] + rest;
        assert r[1..] == rest;
        r
      else rest
  }

  datatype ScanState = ScanningForIncoming | LinkingToOutgoing

  /** The loop state of `testLinkResultDirectedEdges`. */
  datatype Scan = Scan(state: ScanState, firstOut: Option<DirEdge>)

  const Start := Scan(ScanningForIncoming, None)

  /**
   * One iteration. Edges whose outgoing label is not an area are skipped;
   * otherwise the first potential outgoing edge is recorded, and the state
   * flips to linking on a potential incoming edge, back to scanning on a
   * potential outgoing one.
   */
  function Step(s: Scan, e: StarEdge, op: OpCode, resultOf: ResultOfOp): (r: Scan)
    ensures !e.out.isArea ==> r == s
    ensures e.out.isArea && s.firstOut.None? && IsPotentialResultAreaEdge(e.out, op, resultOf) ==> r.firstOut == Some(e.out)
    ensures s.firstOut.Some? ==> r.firstOut == s.firstOut
    ensures e.out.isArea && s.state == ScanningForIncoming ==>
      r.state == (if IsPotentialResultAreaEdge(e.sym, op, resultOf) then LinkingToOutgoing else ScanningForIncoming)
    ensures e.out.isArea && s.state == LinkingToOutgoing ==>
      r.state == (if IsPotentialResultAreaEdge(e.out, op, resultOf) then ScanningForIncoming else LinkingToOutgoing)
  {
    if !e.out.isArea then s
    else
      var firstOut := if s.firstOut.None? && IsPotentialResultAreaEdge(e.out, op, resultOf) then Some(e.out) else s.firstOut;
      var state := match s.state
        case ScanningForIncoming =>
          if IsPotentialResultAreaEdge(e.sym, op, resultOf) then LinkingToOutgoing else ScanningForIncoming
        case LinkingToOutgoing =>
          if IsPotentialResultAreaEdge(e.out, op, resultOf) then ScanningForIncoming else LinkingToOutgoing;
      Scan(state, firstOut)
  }

  /** The loop over the ring edges, from the start state. */
  function ScanEdges(ring: seq<StarEdge>, op: OpCode, resultOf: ResultOfOp): Scan {
    if |ring| == 0 then Start else Step(ScanEdges(ring[..|ring| - 1], op, resultOf), ring[|ring| - 1], op, resultOf)
  }

  /** The edge is an area edge whose outgoing direction is a potential result edge. */
  predicate HasPotentialOut(e: StarEdge, op: OpCode, resultOf: ResultOfOp) {
    e.out.isArea && IsPotentialResultAreaEdge(e.out, op, resultOf)
  }

  /** The edge is an area edge whose incoming direction is a potential result edge. */
  predicate HasPotentialIn(e: StarEdge, op: OpCode, resultOf: ResultOfOp) {
    e.out.isArea && IsPotentialResultAreaEdge(e.sym, op, resultOf)
  }

  /**
   * What the scan computes: `firstOut` is the outgoing edge of the first
   * edge with a potential outgoing direction (none if there is no such
   * edge), and while there is none the machine is linking exactly when
   * some edge has had a potential incoming direction.
   */
  lemma {:induction false} ScanEdgesSummary(ring: seq<StarEdge>, op: OpCode, resultOf: ResultOfOp)
    ensures var s := ScanEdges(ring, op, resultOf);
      && (s.firstOut.None? <==> forall k :: 0 <= k < |ring| ==> !HasPotentialOut(ring[k], op, resultOf))
      && (s.firstOut.Some? ==>
            exists k :: && 0 <= k < |ring| && HasPotentialOut(ring[k], op, resultOf) && s.firstOut == Some(ring[k].out)
                        && forall l :: 0 <= l < k ==> !HasPotentialOut(ring[l], op, resultOf))
      && (s.firstOut.None? ==>
            (s.state == LinkingToOutgoing <==> exists k :: 0 <= k < |ring| && HasPotentialIn(ring[k], op, resultOf)))
  {
    if |ring| > 0 {
      var n := |ring| - 1;
      var prefix := ring[..n];
      ScanEdgesSummary(prefix, op, resultOf);
      var s0 := ScanEdges(prefix, op, resultOf);
      var s := ScanEdges(ring, op, resultOf);
      assert forall k :: 0 <= k < n ==> prefix[k] == ring[k];
      if s0.firstOut.Some? {
        var k :| 0 <= k < n && HasPotentialOut(prefix[k], op, resultOf) && s0.firstOut == Some(prefix[k].out)
            && forall l :: 0 <= l < k ==> !HasPotentialOut(prefix[l], op, resultOf);
        assert HasPotentialOut(ring[k], op, resultOf);
      } else if HasPotentialOut(ring[n], op, resultOf) {
        assert s.firstOut == Some(ring[n].out);
      } else {
        assert s.firstOut.None?;
        if s.state == LinkingToOutgoing && !HasPotentialIn(ring[n], op, resultOf) {
          assert s0.state == LinkingToOutgoing;
        }
      }
    }
  }

  /** `testLinkResultDirectedEdges` on one node's star. */
  function TestLinkResultDirectedEdges(star: Star, op: OpCode, resultOf: ResultOfOp): (r: Outcome<TopologyError>)
    ensures r.Fail? ==> r.error == NoOutgoingDirEdge(star.coord)
  {
    var s := ScanEdges(GetPotentialResultAreaEdges(star.edges, op, resultOf), op, resultOf);
    if s.state == LinkingToOutgoing && s.firstOut.None? then Fail(NoOutgoingDirEdge(star.coord)) else Pass
  }

  /**
   * A node fails exactly when none of its area edges has a potential
   * outgoing direction but one has a potential incoming direction.
   */
  lemma TestLinkFailsIff(star: Star, op: OpCode, resultOf: ResultOfOp)
    ensures TestLinkResultDirectedEdges(star, op, resultOf).Fail? <==>
      (forall e :: e in star.edges ==> !HasPotentialOut(e, op, resultOf)) &&
      (exists e :: e in star.edges && HasPotentialIn(e, op, resultOf))
  {
    var ring := GetPotentialResultAreaEdges(star.edges, op, resultOf);
    ScanEdgesSummary(ring, op, resultOf);
    assert forall k :: 0 <= k < |ring| ==> ring[k] in ring;
    forall e | e in star.edges && HasPotentialIn(e, op, resultOf)
      ensures e in ring
    {
    }
    forall e | e in star.edges && HasPotentialOut(e, op, resultOf)
      ensures e in ring
    {
    }
  }

  /** Outcomes taken in turn: the first failure, or a pass when none fails. */
  function FirstFailure<E>(rs: seq<Outcome<E>>): (r: Outcome<E>)
    ensures r.Pass? <==> forall k :: 0 <= k < |rs| ==> rs[k].Pass?
  {
    if |rs| == 0 then Pass
    else
      assert forall k :: 0 < k < |rs| ==> rs[k] == rs[1..][k - 1];
      if rs[0].Fail? then rs[0] else FirstFailure(rs[1..])
  }

  /** A failure is the first failing outcome, every earlier one having passed. */
  lemma {:induction false} FirstFailureIsFirst<E>(rs: seq<Outcome<E>>)
    requires FirstFailure(rs).Fail?
    ensures exists k :: && 0 <= k < |rs| && FirstFailure(rs) == rs[k]
                        && forall l :: 0 <= l < k ==> rs[l].Pass?
  {
    if rs[0].Pass? {
      FirstFailureIsFirst(rs[1..]);
      var k :| 0 <= k < |rs[1..]| && FirstFailure(rs[1..]) == rs[1..][k] && forall l :: 0 <= l < k ==> rs[1..][l].Pass?;
      assert FirstFailure(rs) == rs[k + 1];
      assert forall l :: 0 < l <= k ==> rs[l] == rs[1..][l - 1];
    }
  }

  /** The outcome of each node's test, in node order. */
  function NodeOutcomes(nodes: seq<Star>, op: OpCode, resultOf: ResultOfOp): (rs: seq<Outcome<TopologyError>>)
    ensures |rs| == |nodes|
    ensures forall k :: 0 <= k < |nodes| ==> rs[k] == TestLinkResultDirectedEdges(nodes[k], op, resultOf)
  {
    seq(|nodes|, k requires 0 <= k < |nodes| => TestLinkResultDirectedEdges(nodes[k], op, resultOf))
  }

  /** `check(opCode)`: every node in turn; the first failure is raised. */
  function Check(nodes: seq<Star>, op: OpCode, resultOf: ResultOfOp): (r: Outcome<TopologyError>)
    ensures r.Pass? <==> forall k :: 0 <= k < |nodes| ==> TestLinkResultDirectedEdges(nodes[k], op, resultOf).Pass?
  {
    FirstFailure(NodeOutcomes(nodes, op, resultOf))
  }

  /** The error `check` raises is that of the first failing node. */
  lemma CheckRaisesFirstFailure(nodes: seq<Star>, op: OpCode, resultOf: ResultOfOp)
    requires Check(nodes, op, resultOf).Fail?
    ensures exists k :: && 0 <= k < |nodes| && Check(nodes, op, resultOf) == TestLinkResultDirectedEdges(nodes[k], op, resultOf)
                        && forall l :: 0 <= l < k ==> TestLinkResultDirectedEdges(nodes[l], op, resultOf).Pass?
  {
    FirstFailureIsFirst(NodeOutcomes(nodes, op, resultOf));
  }

  /**
   * `checkAll`: intersection, difference, union and symmetric difference,
   * in that order; it passes exactly when every node passes for every
   * operation, and otherwise raises the first failure in that order.
   */
  function CheckAll(nodes: seq<Star>, resultOf: ResultOfOp): (r: Outcome<TopologyError>)
    ensures r.Pass? <==> Check(nodes, Intersection, resultOf).Pass? && Check(nodes, Difference, resultOf).Pass? &&
                         Check(nodes, Union, resultOf).Pass? && Check(nodes, SymDifference, resultOf).Pass?
    ensures Check(nodes, Intersection, resultOf).Fail? ==> r == Check(nodes, Intersection, resultOf)
    ensures Check(nodes, Intersection, resultOf).Pass? && Check(nodes, Difference, resultOf).Fail? ==>
      r == Check(nodes, Difference, resultOf)
    ensures (Check(nodes, Intersection, resultOf).Pass? && Check(nodes, Difference, resultOf).Pass? &&
             Check(nodes, Union, resultOf).Fail?) ==> r == Check(nodes, Union, resultOf)
    ensures (r.Fail? && r != Check(nodes, Intersection, resultOf) && r != Check(nodes, Difference, resultOf) &&
             r != Check(nodes, Union, resultOf)) ==> r == Check(nodes, SymDifference, resultOf)
  {
    var rs := [Check(nodes, Intersection, resultOf), Check(nodes, Difference, resultOf),
               Check(nodes, Union, resultOf), Check(nodes, SymDifference, resultOf)];
    var r := FirstFailure(rs);
    assert rs[1..][1..][1..] == [rs[3]];
    assert r.Pass? <==> rs[0].Pass? && FirstFailure(rs[1..]).Pass?;
    assert FirstFailure(rs[1..]).Pass? <==> rs[1].Pass? && FirstFailure(rs[1..][1..]).Pass?;
    assert FirstFailure(rs[1..][1..]).Pass? <==> rs[2].Pass? && rs[3].Pass?;
    r
  }

  /** `checkAll` passes exactly when every node passes for every operation. */
  lemma CheckAllPassesIff(nodes: seq<Star>, resultOf: ResultOfOp)
    ensures CheckAll(nodes, resultOf).Pass? <==>
      forall op, k :: 0 <= k < |nodes| ==> TestLinkResultDirectedEdges(nodes[k], op, resultOf).Pass?
  {
    if CheckAll(nodes, resultOf).Pass? {
      forall op, k | 0 <= k < |nodes|
        ensures TestLinkResultDirectedEdges(nodes[k], op, resultOf).Pass?
      {
        assert Check(nodes, op, resultOf).Pass? by {
          match op
          case Intersection =>
          case Difference =>
          case Union =>
          case SymDifference =>
        }
      }
    }
  }
}
