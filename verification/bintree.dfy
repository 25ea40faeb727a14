/**
 * The wrapper layer of the binary interval tree, `index/bintree/Bintree.java`:
 * zero-width padding of inserted intervals and the minimum-extent statistic.
 * The tree proper (`Root` and its nodes) is not part of this model; its
 * insert, remove and query are parameters over an abstract root type.
 */
module Bintree {

  datatype Interval = Interval(min: real, max: real)

  function Width(iv: Interval): real {
    iv.max - iv.min
  }

  /**
   * `ensureExtent`: an interval with min != max is returned unchanged; a
   * zero-width interval at v becomes [v - e/2, v], because the new max is
   * computed from the already shifted min.
   */
  function EnsureExtent(iv: Interval, minExtent: real): (r: Interval)
    ensures iv.min != iv.max ==> r == iv
    ensures iv.min == iv.max ==> r == Interval(iv.min - minExtent / 2.0, iv.min)
  {
    if iv.min != iv.max then iv
    else
      var min := iv.min - minExtent / 2.0;
      Interval(min, min + minExtent / 2.0)
  }

  /** With a positive extent, a padded point has positive width and still contains the point, at its top end. */
  lemma PaddedPointContainsPoint(v: real, minExtent: real)
    requires minExtent > 0.0
    ensures var r := EnsureExtent(Interval(v, v), minExtent);
      r.min < r.max && r.min <= v <= r.max && r.max == v && Width(r) == minExtent / 2.0
  {
  }

  /** `collectStats`: the statistic falls to a width that is positive and below it, and otherwise stays. */
  function CollectStats(minExtent: real, iv: Interval): (r: real)
    ensures r <= minExtent
    ensures r == minExtent || (r == Width(iv) && 0.0 < r)
    ensures r < minExtent <==> 0.0 < Width(iv) < minExtent
  {
    var del := Width(iv);
    if del < minExtent && del > 0.0 then del else minExtent
  }

  /** The index: an abstract root and the statistic, which starts at 1.0. */
  datatype Tree<R> = Tree(root: R, minExtent: real)

  function NewTree<R>(emptyRoot: R): (t: Tree<R>)
    ensures t.minExtent == 1.0 && t.root == emptyRoot
  {
    Tree(emptyRoot, 1.0)
  }

  predicate Valid<R>(t: Tree<R>) {
    t.minExtent > 0.0
  }

  /**
   * `insert`: the statistic is updated first, then the interval is padded
   * with the updated statistic and handed to the root.
   */
  function Insert<R>(t: Tree<R>, iv: Interval, item: nat, rootInsert: (R, Interval, nat) -> R): (r: Tree<R>)
    requires Valid(t)
    ensures Valid(r) && r.minExtent <= t.minExtent
    ensures r.minExtent == CollectStats(t.minExtent, iv)
    ensures r.root == rootInsert(t.root, EnsureExtent(iv, r.minExtent), item)
  {
    var m := CollectStats(t.minExtent, iv);
    Tree(rootInsert(t.root, EnsureExtent(iv, m), item), m)
  }

  /** `remove`: pads with the current statistic, exactly as `insert` would now, and leaves the statistic alone. */
  function Remove<R>(t: Tree<R>, iv: Interval, item: nat, rootRemove: (R, Interval, nat) -> (R, bool)): (r: (Tree<R>, bool))
    ensures r.0.minExtent == t.minExtent
    ensures (r.0.root, r.1) == rootRemove(t.root, EnsureExtent(iv, t.minExtent), item)
  {
    var (root, found) := rootRemove(t.root, EnsureExtent(iv, t.minExtent), item);
    (Tree(root, t.minExtent), found)
  }

  /** `query(interval)`: the items the root reports for the interval, which is not padded. */
  function Query<R>(t: Tree<R>, iv: Interval, rootQuery: (R, Interval) -> seq<nat>): (r: seq<nat>)
    ensures r == rootQuery(t.root, iv)
  {
    rootQuery(t.root, iv)
  }

  /** `query(x)`: the query of the zero-width interval [x, x]. */
  function QueryPoint<R>(t: Tree<R>, x: real, rootQuery: (R, Interval) -> seq<nat>): (r: seq<nat>)
    ensures r == Query(t, Interval(x, x), rootQuery)
  {
    Query(t, Interval(x, x), rootQuery)
  }

  /** The tree after a sequence of inserts. */
  function InsertAll<R>(t: Tree<R>, ivs: seq<Interval>, rootInsert: (R, Interval, nat) -> R): (r: Tree<R>)
    requires Valid(t)
    ensures Valid(r)
    decreases |ivs|
  {
    if |ivs| == 0 then t
    else InsertAll(Insert(t, ivs[0], |ivs|, rootInsert), ivs[1..], rootInsert)
  }

  /**
   * Over any run of inserts the statistic stays positive, never rises, and
   * is either still the starting value or the width of some inserted interval.
   */
  lemma {:induction false} StatisticOverInserts<R>(t: Tree<R>, ivs: seq<Interval>, rootInsert: (R, Interval, nat) -> R)
    requires Valid(t)
    ensures var r := InsertAll(t, ivs, rootInsert);
      0.0 < r.minExtent <= t.minExtent &&
      (r.minExtent == t.minExtent || exists k :: 0 <= k < |ivs| && r.minExtent == Width(ivs[k]))
    decreases |ivs|
  {
    if |ivs| > 0 {
      var t1 := Insert(t, ivs[0], |ivs|, rootInsert);
      StatisticOverInserts(t1, ivs[1..], rootInsert);
      var r := InsertAll(t1, ivs[1..], rootInsert);
      if r.minExtent != t1.minExtent {
        var k :| 0 <= k < |ivs[1..]| && r.minExtent == Width(ivs[1..][k]);
        assert ivs[1..][k] == ivs[k + 1];
      } else if t1.minExtent != t.minExtent {
        assert r.minExtent == Width(ivs[0]);
      }
    }
  }

  /** Every interval handed to the root by `insert` has positive width. */
  lemma InsertedIntervalHasExtent<R>(t: Tree<R>, iv: Interval)
    requires Valid(t) && iv.min <= iv.max
    ensures var e := EnsureExtent(iv, CollectStats(t.minExtent, iv)); e.min < e.max && e.min <= iv.min && iv.max <= e.max
  {
  }
}
