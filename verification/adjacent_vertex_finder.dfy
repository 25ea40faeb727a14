/**
 * `jtstest/testbuilder/geom/AdjacentVertexFinder.java`: the vertices next
 * to every occurrence of a base point. The geometry is given as its
 * coordinate sequences, which `Geometry.apply` visits one after another,
 * index by index; the filter never reports done, so every index is visited.
 */
module AdjacentVertexFinder {
  import opened Geom

  /**
   * `AdjacentVertexFilter.filter(seq, i)`: when vertex `i` equals the base
   * point, its predecessor (if any) and then its successor (if any) are
   * appended.
   */
  function FilterVertex(s: seq<Point>, i: nat, base: Point): (r: seq<Point>)
    requires i < |s|
    ensures s[i] != base ==> r == []
    ensures s[i] == base ==> r == (if i > 0 then [s[i - 1]] else []) + (if i < |s| - 1 then [s[i + 1]] else [])
    ensures |r| <= 2
    ensures |s| == 1 ==> r == []
  {
    if s[i] != base then []
    else (if i > 0 then [s[i - 1]] else []) + (if i < |s| - 1 then [s[i + 1]] else [])
  }

  /** The filter applied to indices `0 .. n-1` of one sequence, appending in order. */
  function FilterPrefix(s: seq<Point>, n: nat, base: Point): seq<Point>
    requires n <= |s|
  {
    if n == 0 then [] else FilterPrefix(s, n - 1, base) + FilterVertex(s, n - 1, base)
  }

  /** The filter applied to every index of every sequence. */
  function FilterAll(seqs: seq<seq<Point>>, base: Point): seq<Point> {
    if |seqs| == 0 then []
    else FilterAll(seqs[..|seqs| - 1], base) + FilterPrefix(seqs[|seqs| - 1], |seqs[|seqs| - 1]|, base)
  }

  /** `getVertices(testPt)`: the collected neighbours. */
  function GetVertices(seqs: seq<seq<Point>>, testPt: Point): (r: seq<Point>)
    ensures |r| <= 2 * MatchCount(seqs, testPt)
  {
    FilterAllBound(seqs, testPt);
    FilterAll(seqs, testPt)
  }

  /** The number of indices `i < n` where `s[i]` is the base point. */
  function MatchesIn(s: seq<Point>, n: nat, base: Point): nat
    requires n <= |s|
  {
    if n == 0 then 0 else MatchesIn(s, n - 1, base) + (if s[n - 1] == base then 1 else 0)
  }

  /** The number of occurrences of the base point over all sequences. */
  function MatchCount(seqs: seq<seq<Point>>, base: Point): nat {
    if |seqs| == 0 then 0
    else MatchCount(seqs[..|seqs| - 1], base) + MatchesIn(seqs[|seqs| - 1], |seqs[|seqs| - 1]|, base)
  }

  lemma {:induction false} FilterPrefixBound(s: seq<Point>, n: nat, base: Point)
    requires n <= |s|
    ensures |FilterPrefix(s, n, base)| <= 2 * MatchesIn(s, n, base)
  {
    if n > 0 {
      FilterPrefixBound(s, n - 1, base);
    }
  }

  lemma {:induction false} FilterAllBound(seqs: seq<seq<Point>>, base: Point)
    ensures |FilterAll(seqs, base)| <= 2 * MatchCount(seqs, base)
  {
    if |seqs| > 0 {
      FilterAllBound(seqs[..|seqs| - 1], base);
      FilterPrefixBound(seqs[|seqs| - 1], |seqs[|seqs| - 1]|, base);
    }
  }

  /** `q` is next to an occurrence of the base point among the first `n` vertices of `s`. */
  predicate AdjacentIn(s: seq<Point>, n: nat, base: Point, q: Point)
    requires n <= |s|
  {
    exists i :: 0 <= i < n && s[i] == base && ((i > 0 && s[i - 1] == q) || (i < |s| - 1 && s[i + 1] == q))
  }

  lemma {:induction false} FilterPrefixContents(s: seq<Point>, n: nat, base: Point, q: Point)
    requires n <= |s|
    ensures q in FilterPrefix(s, n, base) <==> AdjacentIn(s, n, base, q)
  {
    if n > 0 {
      FilterPrefixContents(s, n - 1, base, q);
      var i := n - 1;
      if AdjacentIn(s, n, base, q) && !AdjacentIn(s, n - 1, base, q) {
        var j :| 0 <= j < n && s[j] == base && ((j > 0 && s[j - 1] == q) || (j < |s| - 1 && s[j + 1] == q));
        assert j == i;
        assert q in FilterVertex(s, i, base);
      }
      if q in FilterVertex(s, i, base) {
        assert s[i] == base;
        assert (i > 0 && s[i - 1] == q) || (i < |s| - 1 && s[i + 1] == q);
      }
    }
  }

  /**
   * A point is reported exactly when it is the predecessor or successor of
   * an occurrence of the test point in one of the sequences.
   */
  lemma {:induction false} GetVerticesContents(seqs: seq<seq<Point>>, testPt: Point, q: Point)
    ensures q in GetVertices(seqs, testPt) <==> exists k :: 0 <= k < |seqs| && AdjacentIn(seqs[k], |seqs[k]|, testPt, q)
  {
    if |seqs| > 0 {
      var n := |seqs| - 1;
      GetVerticesContents(seqs[..n], testPt, q);
      FilterPrefixContents(seqs[n], |seqs[n]|, testPt, q);
      assert forall k :: 0 <= k < n ==> seqs[..n][k] == seqs[k];
    }
  }

  /** Sequences without the test point, and single-point sequences, contribute nothing. */
  lemma {:induction false} NoNeighboursWithoutMatch(s: seq<Point>, n: nat, base: Point)
    requires n <= |s|
    requires |s| == 1 || forall i :: 0 <= i < n ==> s[i] != base
    ensures FilterPrefix(s, n, base) == []
  {
    if n > 0 {
      NoNeighboursWithoutMatch(s, n - 1, base);
    }
  }
}
