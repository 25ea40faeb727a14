/**
 * The dissolver of `noding/SegmentStringDissolver.java`: segment strings
 * with the same coordinates up to orientation are kept once, the first one
 * being the representative; an optional merger is told about each later
 * duplicate. The oriented-coordinate-array key is modelled by its meaning,
 * equality up to reversal; the merger's effect on string data is not part
 * of this model, its calls are recorded instead.
 */
module SegmentStringDissolver {
  import opened Geom
  import opened Results

  datatype SegmentString = SegmentString(pts: Line, data: nat)

  function Reverse(s: Line): (r: Line)
    ensures |r| == |s|
    ensures forall k :: 0 <= k < |s| ==> r[k] == s[|s| - 1 - k]
  {
    if |s| == 0 then [] else Reverse(s[1..]) + [s[0]]
  }

  lemma ReverseInvolution(s: Line)
    ensures Reverse(Reverse(s)) == s
  {
    assert forall k :: 0 <= k < |s| ==> Reverse(Reverse(s))[k] == s[k];
  }

  /** The equality of two oriented coordinate arrays: equal, or equal after reversing one. */
  predicate SameUpToOrientation(a: Line, b: Line) {
    a == b || a == Reverse(b)
  }

  lemma SameUpToOrientationIsEquivalence(a: Line, b: Line, c: Line)
    ensures SameUpToOrientation(a, a)
    ensures SameUpToOrientation(a, b) ==> SameUpToOrientation(b, a)
    ensures SameUpToOrientation(a, b) && SameUpToOrientation(b, c) ==> SameUpToOrientation(a, c)
  {
    ReverseInvolution(a);
    ReverseInvolution(b);
    ReverseInvolution(c);
  }

  datatype MergeCall = MergeCall(mergeTarget: SegmentString, ssToMerge: SegmentString, isSameOrientation: bool)

  /** The dissolver: the stored representatives, in the order they were added, and whether a merger is set. */
  datatype Dissolver = Dissolver(stored: seq<SegmentString>, hasMerger: bool)

  function NewDissolver(hasMerger: bool): (d: Dissolver)
    ensures d.stored == [] && d.hasMerger == hasMerger
  {
    Dissolver([], hasMerger)
  }

  /** No two stored strings have the same coordinates up to orientation. */
  predicate Dissolved(stored: seq<SegmentString>) {
    forall a, b :: 0 <= a < b < |stored| ==> !SameUpToOrientation(stored[a].pts, stored[b].pts)
  }

  /** `findMatching`: the stored string with the same key, if any. */
  function FindMatching(stored: seq<SegmentString>, pts: Line): (r: Option<SegmentString>)
    ensures r.None? <==> forall k :: 0 <= k < |stored| ==> !SameUpToOrientation(stored[k].pts, pts)
    ensures r.Some? ==> r.value in stored && SameUpToOrientation(r.value.pts, pts)
  {
    if |stored| == 0 then None
    else if SameUpToOrientation(stored[0].pts, pts) then Some(stored[0])
    else FindMatching(stored[1..], pts)
  }

  /**
   * `dissolve(segString)`: a string with no stored match is added; on a
   * match nothing is stored, and a present merger is called once with the
   * stored string, the new one, and whether their coordinates are equal in order.
   */
  function Dissolve(d: Dissolver, ss: SegmentString): (r: (Dissolver, seq<MergeCall>))
    ensures r.0.hasMerger == d.hasMerger
    ensures r.0.stored == d.stored + [ss] <==> forall k :: 0 <= k < |d.stored| ==> !SameUpToOrientation(d.stored[k].pts, ss.pts)
    ensures (exists k :: 0 <= k < |d.stored| && SameUpToOrientation(d.stored[k].pts, ss.pts)) ==> r.0 == d
    ensures |r.1| == (if r.0 == d && d.hasMerger then 1 else 0)
    ensures forall c :: c in r.1 ==>
      c.mergeTarget in d.stored && SameUpToOrientation(c.mergeTarget.pts, ss.pts) && c.ssToMerge == ss &&
      (c.isSameOrientation <==> c.mergeTarget.pts == ss.pts)
    ensures Dissolved(d.stored) ==> Dissolved(r.0.stored)
  {
    match FindMatching(d.stored, ss.pts)
    case None =>
      (Dissolver(d.stored + [ss], d.hasMerger), [])
    case Some(existing) =>
      (d, if d.hasMerger then [MergeCall(existing, ss, existing.pts == ss.pts)] else [])
  }

  /** `dissolve(collection)`: each string in turn; the merge calls are concatenated in order. */
  function DissolveAll(d: Dissolver, strings: seq<SegmentString>): (r: (Dissolver, seq<MergeCall>))
    ensures r.0.hasMerger == d.hasMerger
    ensures |d.stored| <= |r.0.stored| && r.0.stored[..|d.stored|] == d.stored
    ensures |r.0.stored| <= |d.stored| + |strings|
    ensures Dissolved(d.stored) ==> Dissolved(r.0.stored)
    ensures forall k :: |d.stored| <= k < |r.0.stored| ==> r.0.stored[k] in strings
    ensures !d.hasMerger ==> r.1 == []
    decreases |strings|, 1
  {
    if |strings| == 0 then (d, [])
    else
      var (d1, m1) := Dissolve(d, strings[0]);
      var (d2, m2) := DissolveAll(d1, strings[1..]);
      DissolveAllStep(d, strings);
      (d2, m1 + m2)
  }

  /** The first string's `dissolve` followed by the rest's keeps every promise of `dissolve(collection)`. */
  lemma DissolveAllStep(d: Dissolver, strings: seq<SegmentString>)
    requires |strings| > 0
    ensures var d2 := DissolveAll(Dissolve(d, strings[0]).0, strings[1..]).0;
      && d2.hasMerger == d.hasMerger
      && |d.stored| <= |d2.stored| && d2.stored[..|d.stored|] == d.stored
      && |d2.stored| <= |d.stored| + |strings|
      && (Dissolved(d.stored) ==> Dissolved(d2.stored))
      && (forall k :: |d.stored| <= k < |d2.stored| ==> d2.stored[k] in strings)
    decreases |strings|, 0
  {
    var d1 := Dissolve(d, strings[0]).0;
    var d2 := DissolveAll(d1, strings[1..]).0;
    assert d1.stored == d.stored || d1.stored == d.stored + [strings[0]];
    ExtendStored(d.stored, d1.stored, d2.stored, strings[0], strings[1..]);
    assert strings == [strings[0]] + strings[1..];
  }

  /** One string possibly stored, then the rest's additions: together an extension drawn from all of them. */
  lemma ExtendStored(s0: seq<SegmentString>, s1: seq<SegmentString>, s2: seq<SegmentString>,
                     x: SegmentString, rest: seq<SegmentString>)
    requires s1 == s0 || s1 == s0 + [x]
    requires |s1| <= |s2| && s2[..|s1|] == s1 && |s2| <= |s1| + |rest|
    requires forall k :: |s1| <= k < |s2| ==> s2[k] in rest
    ensures |s0| <= |s2| && s2[..|s0|] == s0 && |s2| <= |s0| + 1 + |rest|
    ensures forall k :: |s0| <= k < |s2| ==> s2[k] in [x] + rest
  {
    assert s2[..|s0|] == s2[..|s1|][..|s0|];
    forall k | |s0| <= k < |s2|
      ensures s2[k] in [x] + rest
    {
      if k < |s1| {
        assert s2[k] == s2[..|s1|][k] == x;
      } else {
        assert s2[k] in rest;
      }
    }
  }

  /** After one `dissolve`, the string matches some stored representative. */
  lemma DissolveCoversOne(d: Dissolver, ss: SegmentString) returns (k: nat)
    ensures k < |Dissolve(d, ss).0.stored| && SameUpToOrientation(Dissolve(d, ss).0.stored[k].pts, ss.pts)
  {
    var r := Dissolve(d, ss).0;
    if FindMatching(d.stored, ss.pts).None? {
      k := |d.stored|;
      assert r.stored[k] == ss;
    } else {
      var e := FindMatching(d.stored, ss.pts).value;
      var j :| 0 <= j < |d.stored| && d.stored[j] == e;
      k := j;
    }
  }

  /** After dissolving a collection, every input string matches a stored representative. */
  lemma {:induction false} DissolveAllCovers(d: Dissolver, strings: seq<SegmentString>)
    ensures forall s :: s in strings ==>
      exists k :: 0 <= k < |DissolveAll(d, strings).0.stored| &&
        SameUpToOrientation(DissolveAll(d, strings).0.stored[k].pts, s.pts)
    decreases |strings|
  {
    if |strings| > 0 {
      var d1 := Dissolve(d, strings[0]).0;
      var k0 := DissolveCoversOne(d, strings[0]);
      DissolveAllCovers(d1, strings[1..]);
      var r := DissolveAll(d1, strings[1..]).0;
      assert r == DissolveAll(d, strings).0;
      assert r.stored[k0] == r.stored[..|d1.stored|][k0] == d1.stored[k0];
      forall s | s in strings
        ensures exists k :: 0 <= k < |r.stored| && SameUpToOrientation(r.stored[k].pts, s.pts)
      {
        if s != strings[0] {
          assert s in strings[1..];
        }
      }
    }
  }

  /** `getDissolved` from a fresh dissolver: pairwise distinct up to orientation, drawn from the inputs, no more of them than inputs, covering every input. */
  lemma GetDissolvedProperties(hasMerger: bool, strings: seq<SegmentString>)
    ensures var out := DissolveAll(NewDissolver(hasMerger), strings).0.stored;
      && Dissolved(out)
      && |out| <= |strings|
      && (forall k :: 0 <= k < |out| ==> out[k] in strings)
      && (forall s :: s in strings ==> exists k :: 0 <= k < |out| && SameUpToOrientation(out[k].pts, s.pts))
  {
    DissolveAllCovers(NewDissolver(hasMerger), strings);
  }
}
