/**
 * `simplify/DouglasPeuckerLineSimplifier.java`: the Douglas-Peucker
 * simplification of a point sequence. A section `[i, j]` is replaced by its
 * chord when no interior vertex lies farther from the chord than the
 * tolerance; otherwise it is split at the first farthest vertex and both
 * halves are simplified. The kept vertices are recorded in a mask, `usePt`.
 *
 * The segment distance is a parameter: `dist(p0, p1, q)` is the distance
 * from `q` to the segment `p0`-`p1`, only required to be non-negative.
 */
module DouglasPeucker {
  import opened Geom
  import opened Results

  type Distance = (Point, Point, Point) -> real

  ghost predicate Nonnegative(dist: Distance) {
    forall p0, p1, q :: dist(p0, p1, q) >= 0.0
  }

  /** How `simplify` fails: an empty array is indexed, or one point with tolerance below -1 recurses forever. */
  datatype SimplifyError = IndexOutOfBounds | StackOverflow

  /** Distance of vertex `k` from the chord of section `[i, j]`. */
  function ChordDistance(pts: Line, dist: Distance, i: nat, j: nat, k: nat): real
    requires i < |pts| && j < |pts| && k < |pts|
  {
    dist(pts[i], pts[j], pts[k])
  }

  /**
   * The scan for the farthest interior vertex, from `k` on: a vertex
   * replaces the current one only when strictly farther, so the first
   * farthest vertex wins. Starts from distance -1 and index `i`.
   */
  function ScanFarthest(pts: Line, dist: Distance, i: nat, j: nat, k: nat, maxD: real, maxI: nat): (r: (real, nat))
    requires i < k <= j < |pts|
    requires maxI == i || (i < maxI < k && ChordDistance(pts, dist, i, j, maxI) == maxD)
    requires forall m :: i < m < k ==> ChordDistance(pts, dist, i, j, m) <= maxD
    requires forall m :: i < m < maxI ==> ChordDistance(pts, dist, i, j, m) < maxD
    decreases j - k
    ensures r.0 >= maxD
    ensures r.1 == maxI ==> r.0 == maxD
    ensures r.1 == maxI || k <= r.1 < j
    ensures r.1 == i || (i < r.1 < j && ChordDistance(pts, dist, i, j, r.1) == r.0)
    ensures forall m :: i < m < j ==> ChordDistance(pts, dist, i, j, m) <= r.0
    ensures forall m :: i < m < r.1 ==> ChordDistance(pts, dist, i, j, m) < r.0
  {
    if k == j then (maxD, maxI)
    else
      var d := ChordDistance(pts, dist, i, j, k);
      if d > maxD then ScanFarthest(pts, dist, i, j, k + 1, d, k)
      else ScanFarthest(pts, dist, i, j, k + 1, maxD, maxI)
  }

  /**
   * The loop of `simplifySection`: for a section with an interior vertex,
   * the first interior vertex of greatest distance, and that distance.
   */
  function Farthest(pts: Line, dist: Distance, i: nat, j: nat): (r: (real, nat))
    requires i + 1 < j < |pts|
    requires Nonnegative(dist)
    ensures i < r.1 < j
    ensures ChordDistance(pts, dist, i, j, r.1) == r.0
    ensures forall m :: i < m < j ==> ChordDistance(pts, dist, i, j, m) <= r.0
    ensures forall m :: i < m < r.1 ==> ChordDistance(pts, dist, i, j, m) < r.0
  {
    var r := ScanFarthest(pts, dist, i, j, i + 1, -1.0, i);
    assert ChordDistance(pts, dist, i, j, i + 1) >= 0.0;
    r
  }

  /** The mask with the interior of `[i, j]` cleared. */
  function ClearInterior(use: seq<bool>, i: nat, j: nat): (r: seq<bool>)
    requires i < j <= |use|
    ensures |r| == |use|
    ensures forall k :: 0 <= k < |r| ==> r[k] == (if i < k < j then false else use[k])
  {
    use[..i + 1] + seq(j - i - 1, _ => false) + use[j..]
  }

  /**
   * `simplifySection(i, j)` acting on the mask. It changes only the
   * interior of the section, only by clearing, and clears all of it when
   * every interior vertex is within tolerance.
   */
  function SimplifySection(pts: Line, dist: Distance, tol: real, use: seq<bool>, i: nat, j: nat): (r: seq<bool>)
    requires i < j < |pts| == |use|
    requires Nonnegative(dist)
    decreases j - i
    ensures |r| == |use|
    ensures forall k :: 0 <= k < |r| && !(i < k < j) ==> r[k] == use[k]
    ensures forall k :: i < k < j && r[k] ==> use[k]
    ensures (forall k :: i < k < j ==> ChordDistance(pts, dist, i, j, k) <= tol) ==>
      (forall k :: i < k < j ==> !r[k])
  {
    if i + 1 == j then use
    else
      var (maxD, maxI) := Farthest(pts, dist, i, j);
      if maxD <= tol then ClearInterior(use, i, j)
      else
        var r1 := SimplifySection(pts, dist, tol, use, i, maxI);
        SimplifySection(pts, dist, tol, r1, maxI, j)
  }

  /**
   * When some interior vertex is beyond the tolerance, the section is
   * split at the first vertex of greatest distance, however that vertex
   * is characterised.
   */
  lemma SplitsAtFirstFarthest(pts: Line, dist: Distance, tol: real, use: seq<bool>, i: nat, j: nat, m: nat)
    requires i < m < j < |pts| == |use|
    requires Nonnegative(dist)
    requires ChordDistance(pts, dist, i, j, m) > tol
    requires forall k :: i < k < j ==> ChordDistance(pts, dist, i, j, k) <= ChordDistance(pts, dist, i, j, m)
    requires forall k :: i < k < m ==> ChordDistance(pts, dist, i, j, k) < ChordDistance(pts, dist, i, j, m)
    ensures SimplifySection(pts, dist, tol, use, i, j) ==
      SimplifySection(pts, dist, tol, SimplifySection(pts, dist, tol, use, i, m), m, j)
  {
    var (maxD, maxI) := Farthest(pts, dist, i, j);
    assert maxI == m;
  }

  /** Vertex `k` is dropped and `a`, `b` are the nearest kept vertices around it. */
  predicate Bracket(r: seq<bool>, a: nat, k: nat, b: nat) {
    && a < k < b < |r|
    && r[a] && r[b]
    && (forall l :: a < l < b ==> !r[l])
  }

  /** In a section whose interior is all cleared, the only bracket is the section's own ends. */
  lemma ClearedBracket(r: seq<bool>, i: nat, j: nat, a: nat, k: nat, b: nat)
    requires j <= |r| && forall l :: i < l < j ==> !r[l]
    requires i <= a && b <= j && Bracket(r, a, k, b)
    ensures a == i && b == j
  {
  }

  /**
   * After the second half `(m, j)` of a split is simplified, a bracket
   * lies wholly in one half, and one in the first half was already a
   * bracket before.
   */
  lemma SplitBracket(r1: seq<bool>, r: seq<bool>, m: nat, j: nat, a: nat, k: nat, b: nat)
    requires |r1| == |r| && m < |r| && r[m]
    requires forall l :: 0 <= l < |r| && !(m < l < j) ==> r[l] == r1[l]
    requires b <= j && Bracket(r, a, k, b)
    ensures m <= a || (b <= m && Bracket(r1, a, k, b))
  {
  }

  /** Every dropped vertex bracketed inside `[i, j]` is within tolerance of its bracket's chord. */
  ghost predicate WithinTolerance(pts: Line, dist: Distance, tol: real, r: seq<bool>, i: nat, j: nat)
    requires |r| == |pts|
  {
    forall a: nat, k: nat, b: nat :: i <= a && b <= j && Bracket(r, a, k, b) ==> dist(pts[a], pts[b], pts[k]) <= tol
  }

  /** The guarantee for both halves of a split gives it for the whole section. */
  lemma SplitWithinTolerance(pts: Line, dist: Distance, tol: real, r1: seq<bool>, r: seq<bool>, i: nat, m: nat, j: nat)
    requires |r1| == |r| == |pts| && m < |r| && r[m]
    requires forall l :: 0 <= l < |r| && !(m < l < j) ==> r[l] == r1[l]
    requires WithinTolerance(pts, dist, tol, r1, i, m)
    requires WithinTolerance(pts, dist, tol, r, m, j)
    ensures WithinTolerance(pts, dist, tol, r, i, j)
  {
    forall a: nat, k: nat, b: nat | i <= a && b <= j && Bracket(r, a, k, b)
      ensures dist(pts[a], pts[b], pts[k]) <= tol
    {
      SplitBracket(r1, r, m, j, a, k, b);
    }
  }

  /**
   * The approximation guarantee: within a section whose vertices are all
   * kept on entry, every dropped vertex is within tolerance of the chord
   * joining the nearest kept vertices before and after it.
   */
  lemma {:induction false} DroppedWithinTolerance(pts: Line, dist: Distance, tol: real, use: seq<bool>, i: nat, j: nat)
    requires i < j < |pts| == |use|
    requires Nonnegative(dist)
    requires forall k :: i <= k <= j ==> use[k]
    decreases j - i
    ensures WithinTolerance(pts, dist, tol, SimplifySection(pts, dist, tol, use, i, j), i, j)
  {
    var r := SimplifySection(pts, dist, tol, use, i, j);
    if i + 1 < j {
      var (maxD, maxI) := Farthest(pts, dist, i, j);
      if maxD <= tol {
        assert forall l :: i < l < j ==> !r[l];
        forall a: nat, k: nat, b: nat | i <= a && b <= j && Bracket(r, a, k, b)
          ensures dist(pts[a], pts[b], pts[k]) <= tol
        {
          ClearedBracket(r, i, j, a, k, b);
          assert ChordDistance(pts, dist, i, j, k) <= maxD;
        }
      } else {
        var r1 := SimplifySection(pts, dist, tol, use, i, maxI);
        assert r == SimplifySection(pts, dist, tol, r1, maxI, j);
        DroppedWithinTolerance(pts, dist, tol, use, i, maxI);
        DroppedWithinTolerance(pts, dist, tol, r1, maxI, j);
        SplitWithinTolerance(pts, dist, tol, r1, r, i, maxI, j);
      }
    }
  }

  /** With a negative tolerance every vertex is kept. */
  lemma {:induction false} NegativeToleranceKeepsAll(pts: Line, dist: Distance, tol: real, use: seq<bool>, i: nat, j: nat)
    requires i < j < |pts| == |use|
    requires Nonnegative(dist)
    requires tol < 0.0
    decreases j - i
    ensures SimplifySection(pts, dist, tol, use, i, j) == use
  {
    if i + 1 < j {
      var (maxD, maxI) := Farthest(pts, dist, i, j);
      assert ChordDistance(pts, dist, i, j, maxI) >= 0.0;
      NegativeToleranceKeepsAll(pts, dist, tol, use, i, maxI);
      NegativeToleranceKeepsAll(pts, dist, tol, use, maxI, j);
    }
  }

  /** The points whose mask entry is set, in order (the `CoordinateList` built by `simplify`). */
  function Select(pts: Line, use: seq<bool>): (r: Line)
    requires |use| == |pts|
    ensures |r| <= |pts|
    ensures |pts| > 0 && use[0] ==> |r| > 0 && r[0] == pts[0]
  {
    if |pts| == 0 then [] else (if use[0] then [pts[0]] else []) + Select(pts[1..], use[1..])
  }

  lemma {:induction false} SelectLast(pts: Line, use: seq<bool>)
    requires |use| == |pts| > 0 && use[|use| - 1]
    ensures var r := Select(pts, use); |r| > 0 && r[|r| - 1] == pts[|pts| - 1]
  {
    if |pts| > 1 {
      SelectLast(pts[1..], use[1..]);
    }
  }

  /** `s` is obtained from `t` by deleting elements. */
  predicate IsSubsequence(s: Line, t: Line) {
    if |s| == 0 then true
    else if |t| == 0 then false
    else (s[0] == t[0] && IsSubsequence(s[1..], t[1..])) || IsSubsequence(s, t[1..])
  }

  lemma {:induction false} SelectIsSubsequence(pts: Line, use: seq<bool>)
    requires |use| == |pts|
    ensures IsSubsequence(Select(pts, use), pts)
  {
    if |pts| > 0 {
      SelectIsSubsequence(pts[1..], use[1..]);
      var r := Select(pts, use);
      if use[0] {
        assert r[1..] == Select(pts[1..], use[1..]);
      } else {
        assert r == Select(pts[1..], use[1..]);
      }
    }
  }

  /** The mask `simplify` starts from: every point kept. */
  function AllKept(n: nat): (r: seq<bool>)
    ensures |r| == n && forall k :: 0 <= k < n ==> r[k]
  {
    seq(n, _ => true)
  }

  /**
   * `simplify`: the kept points in order. An empty array is an error; a
   * single point is returned as is unless the tolerance is below -1, when
   * the section recursion never ends.
   */
  function Simplify(pts: Line, tol: real, dist: Distance): (r: Result<Line, SimplifyError>)
    requires Nonnegative(dist)
    ensures r.Err? <==> |pts| == 0 || (|pts| == 1 && tol < -1.0)
    ensures |pts| == 0 ==> r == Err(IndexOutOfBounds)
    ensures |pts| == 1 && tol >= -1.0 ==> r == Ok(pts)
    ensures r.Ok? ==> 0 < |r.value| <= |pts| && r.value[0] == pts[0]
  {
    if |pts| == 0 then Err(IndexOutOfBounds)
    else if |pts| == 1 then (if -1.0 <= tol then Ok(pts) else Err(StackOverflow))
    else Ok(Select(pts, SimplifySection(pts, dist, tol, AllKept(|pts|), 0, |pts| - 1)))
  }

  /**
   * The result keeps both end points, has at least two points when the
   * input has, and is a subsequence of the input.
   */
  lemma SimplifyKeepsEnds(pts: Line, tol: real, dist: Distance)
    requires Nonnegative(dist)
    requires |pts| >= 2
    ensures var r := Simplify(pts, tol, dist);
      && r.Ok?
      && |r.value| >= 2
      && r.value[|r.value| - 1] == pts[|pts| - 1]
      && IsSubsequence(r.value, pts)
  {
    var use := SimplifySection(pts, dist, tol, AllKept(|pts|), 0, |pts| - 1);
    SelectLast(pts, use);
    SelectLast(pts[1..], use[1..]);
    SelectIsSubsequence(pts, use);
  }

  /** With a negative tolerance (and at least two points) the input comes back unchanged. */
  lemma NegativeToleranceIsIdentity(pts: Line, tol: real, dist: Distance)
    requires Nonnegative(dist)
    requires |pts| >= 2 && tol < 0.0
    ensures Simplify(pts, tol, dist) == Ok(pts)
  {
    var use := AllKept(|pts|);
    NegativeToleranceKeepsAll(pts, dist, tol, use, 0, |pts| - 1);
    SelectAll(pts, use);
    assert Simplify(pts, tol, dist) == Ok(Select(pts, SimplifySection(pts, dist, tol, use, 0, |pts| - 1)));
  }

  lemma {:induction false} SelectAll(pts: Line, use: seq<bool>)
    requires |use| == |pts| && forall k :: 0 <= k < |use| ==> use[k]
    ensures Select(pts, use) == pts
  {
    if |pts| > 0 {
      SelectAll(pts[1..], use[1..]);
    }
  }
}
