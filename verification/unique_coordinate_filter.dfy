/**
 * `util/UniqueCoordinateArrayFilter.java`: gathers the coordinates it is
 * shown, dropping any already seen, in the order they were first seen. The
 * tree set of seen coordinates becomes a Dafny `set`, the array list a `seq`.
 */
module UniqueCoordinateFilter {
  import opened Geom

  datatype Filter = Filter(seen: set<Point>, list: seq<Point>)

  /** A new filter has seen nothing. */
  const Empty := Filter({}, [])

  /** No coordinate occurs twice. */
  predicate NoDuplicates(s: seq<Point>) {
    forall a, b :: 0 <= a < b < |s| ==> s[a] != s[b]
  }

  /** The seen set is exactly the gathered list, which has no duplicates. */
  predicate Valid(f: Filter) {
    && f.seen == (set k | 0 <= k < |f.list| :: f.list[k])
    && NoDuplicates(f.list)
  }

  /** `filter`: a coordinate not seen before is appended and remembered; a seen one changes nothing. */
  function FilterPoint(f: Filter, c: Point): (r: Filter)
    requires Valid(f)
    ensures Valid(r)
    ensures c in f.seen ==> r == f
    ensures c !in f.seen ==> r.list == f.list + [c] && r.seen == f.seen + {c}
  {
    if c in f.seen then f
    else
      var r := Filter(f.seen + {c}, f.list + [c]);
      assert forall k :: 0 <= k < |f.list| ==> f.list[k] in f.seen;
      assert r.list[|f.list|] == c;
      forall p | p in r.seen
        ensures exists k :: 0 <= k < |r.list| && r.list[k] == p
      {
        if p != c {
          var k :| 0 <= k < |f.list| && f.list[k] == p;
          assert r.list[k] == p;
        }
      }
      r
  }

  /** The filter applied to each coordinate in turn. */
  function FilterAll(f: Filter, coords: seq<Point>): (r: Filter)
    requires Valid(f)
    ensures Valid(r)
  {
    if |coords| == 0 then f else FilterPoint(FilterAll(f, coords[..|coords| - 1]), coords[|coords| - 1])
  }

  /** `getCoordinates`: the gathered coordinates, in order. */
  function GetCoordinates(f: Filter): (r: seq<Point>)
    requires Valid(f)
    ensures NoDuplicates(r)
    ensures forall p :: p in r <==> p in f.seen
  {
    f.list
  }

  /** `filterCoordinates`: a fresh filter run over the array. */
  function FilterCoordinates(coords: seq<Point>): (r: seq<Point>)
    ensures NoDuplicates(r)
  {
    GetCoordinates(FilterAll(Empty, coords))
  }

  /** The index of the first occurrence of `p` in `s`. */
  function FirstIndex(s: seq<Point>, p: Point): (i: nat)
    requires p in s
    ensures i < |s| && s[i] == p
    ensures forall k :: 0 <= k < i ==> s[k] != p
  {
    if s[0] == p then 0 else 1 + FirstIndex(s[1..], p)
  }

  lemma {:induction false} FirstIndexExtend(s: seq<Point>, x: Point, p: Point)
    requires p in s
    ensures FirstIndex(s + [x], p) == FirstIndex(s, p)
  {
    if s[0] != p {
      assert (s + [x])[1..] == s[1..] + [x];
      FirstIndexExtend(s[1..], x, p);
    }
  }

  lemma FirstIndexOfNew(s: seq<Point>, x: Point)
    requires x !in s
    ensures FirstIndex(s + [x], x) == |s|
  {
    assert forall k :: 0 <= k < |s| ==> (s + [x])[k] == s[k];
  }

  /**
   * Whatever the input, the output has no duplicates, holds exactly the
   * input's coordinates, is no longer than the input, and lists them in
   * the order of their first occurrence.
   */
  lemma {:induction false} FilterCoordinatesProperties(coords: seq<Point>)
    ensures var r := FilterCoordinates(coords);
      && (forall p :: p in r <==> p in coords)
      && |r| <= |coords|
      && (forall a, b :: 0 <= a < b < |r| ==> FirstIndex(coords, r[a]) < FirstIndex(coords, r[b]))
  {
    if |coords| > 0 {
      var n := |coords| - 1;
      var prefix, c := coords[..n], coords[n];
      assert coords == prefix + [c];
      FilterCoordinatesProperties(prefix);
      FilterStepContents(prefix, c);
      FilterStepOrder(prefix, c);
    }
  }

  /** Filtering one more coordinate is one more `filter` call. */
  lemma FilterUnfold(prefix: seq<Point>, c: Point)
    ensures FilterAll(Empty, prefix + [c]) == FilterPoint(FilterAll(Empty, prefix), c)
  {
    assert (prefix + [c])[..|prefix|] == prefix;
  }

  /** Contents and length carry over from a prefix to one more coordinate. */
  lemma FilterStepContents(prefix: seq<Point>, c: Point)
    requires forall p :: p in FilterCoordinates(prefix) <==> p in prefix
    requires |FilterCoordinates(prefix)| <= |prefix|
    ensures forall p :: p in FilterCoordinates(prefix + [c]) <==> p in prefix + [c]
    ensures |FilterCoordinates(prefix + [c])| <= |prefix + [c]|
  {
    FilterUnfold(prefix, c);
  }

  /** First-occurrence order carries over from a prefix to one more coordinate. */
  lemma FilterStepOrder(prefix: seq<Point>, c: Point)
    requires forall p :: p in FilterCoordinates(prefix) <==> p in prefix
    requires var r0 := FilterCoordinates(prefix);
      forall a, b :: 0 <= a < b < |r0| ==> FirstIndex(prefix, r0[a]) < FirstIndex(prefix, r0[b])
    requires forall p :: p in FilterCoordinates(prefix + [c]) <==> p in prefix + [c]
    ensures var coords, r := prefix + [c], FilterCoordinates(prefix + [c]);
      forall a, b :: 0 <= a < b < |r| ==> FirstIndex(coords, r[a]) < FirstIndex(coords, r[b])
  {
    FilterUnfold(prefix, c);
    var f := FilterAll(Empty, prefix);
    var r0 := GetCoordinates(f);
    assert FilterCoordinates(prefix) == r0 == f.list;
    if c in f.seen {
      OrderKeptWithoutNew(prefix, c, r0);
    } else {
      assert c !in r0;
      OrderKeptWithNew(prefix, c, r0);
    }
  }

  /** First indices in `prefix` are unchanged by appending `c`. */
  lemma FirstIndicesKept(prefix: seq<Point>, c: Point)
    ensures forall p :: p in prefix ==> FirstIndex(prefix + [c], p) == FirstIndex(prefix, p)
  {
    forall p | p in prefix
      ensures FirstIndex(prefix + [c], p) == FirstIndex(prefix, p)
    {
      FirstIndexExtend(prefix, c, p);
    }
  }

  /** A coordinate seen before leaves the gathered list, and so its order, as it was. */
  lemma OrderKeptWithoutNew(prefix: seq<Point>, c: Point, r: seq<Point>)
    requires forall p :: p in r ==> p in prefix
    requires forall a, b :: 0 <= a < b < |r| ==> FirstIndex(prefix, r[a]) < FirstIndex(prefix, r[b])
    ensures forall a, b :: 0 <= a < b < |r| ==> FirstIndex(prefix + [c], r[a]) < FirstIndex(prefix + [c], r[b])
  {
    FirstIndicesKept(prefix, c);
    forall a, b | 0 <= a < b < |r|
      ensures FirstIndex(prefix + [c], r[a]) < FirstIndex(prefix + [c], r[b])
    {
      assert r[a] in prefix && r[b] in prefix;
    }
  }

  /** A new coordinate goes last, and its first occurrence is the last position. */
  lemma OrderKeptWithNew(prefix: seq<Point>, c: Point, r: seq<Point>)
    requires c !in prefix
    requires forall p :: p in r ==> p in prefix
    requires forall a, b :: 0 <= a < b < |r| ==> FirstIndex(prefix, r[a]) < FirstIndex(prefix, r[b])
    ensures forall a, b :: 0 <= a < b < |r + [c]| ==>
      FirstIndex(prefix + [c], (r + [c])[a]) < FirstIndex(prefix + [c], (r + [c])[b])
  {
    var coords, r' := prefix + [c], r + [c];
    FirstIndicesKept(prefix, c);
    FirstIndexOfNew(prefix, c);
    forall a, b | 0 <= a < b < |r'|
      ensures FirstIndex(coords, r'[a]) < FirstIndex(coords, r'[b])
    {
      assert r'[a] == r[a] && r[a] in prefix;
      if b < |r| {
        assert r'[b] == r[b] && r[b] in prefix;
      } else {
        assert r'[b] == c;
      }
    }
  }

  /** A duplicate-free input passes through the filter unchanged. */
  lemma {:induction false} NoDuplicatesPassThrough(coords: seq<Point>)
    requires NoDuplicates(coords)
    ensures FilterCoordinates(coords) == coords
  {
    if |coords| > 0 {
      var n := |coords| - 1;
      var prefix := coords[..n];
      assert NoDuplicates(prefix);
      NoDuplicatesPassThrough(prefix);
      assert coords[n] !in prefix;
      assert coords == prefix + [coords[n]];
    }
  }

  /** Filtering twice is filtering once. */
  lemma FilterCoordinatesIdempotent(coords: seq<Point>)
    ensures FilterCoordinates(FilterCoordinates(coords)) == FilterCoordinates(coords)
  {
    NoDuplicatesPassThrough(FilterCoordinates(coords));
  }
}
