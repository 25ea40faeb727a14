/**
 * The sweep-line overlap index of `index/sweepline/SweepLineIndex.java`.
 * Every interval contributes an insert event at its min and a delete event
 * at its max that links back to the insert; the events are sorted once, each
 * insert learns the sorted position of its delete, and the overlaps of an
 * insert at position i are the insert events in positions [i, delete).
 *
 * The event comparator is not part of this model: the sort is given as a
 * permutation `order` of event positions. Events carry an id (their position
 * when added) standing for object identity, and a delete names its insert by id.
 */
module SweepLineIndex {
  import opened Permutation

  datatype SweepInterval = SweepInterval(min: int, max: int, item: nat)

  datatype EventKind = Insert | Delete(insertId: nat)

  datatype Event = Event(id: nat, x: int, kind: EventKind, interval: SweepInterval)

  /**
   * The index: its events (sorted once built), whether it is built, the
   * delete position recorded for each insert id, and the overlap counter.
   */
  datatype Index = Index(events: seq<Event>, built: bool, deleteIndex: map<nat, nat>, nOverlaps: nat)

  const EmptyIndex := Index([], false, map[], 0)

  /** Event ids are distinct. */
  predicate IdsDistinct(es: seq<Event>) {
    forall a, b :: 0 <= a < b < |es| ==> es[a].id != es[b].id
  }

  /** Event ids, and the insert ids deletes link to, are below the event count. */
  predicate IdsBelow(es: seq<Event>) {
    && (forall a :: 0 <= a < |es| ==> es[a].id < |es|)
    && (forall a :: 0 <= a < |es| && es[a].kind.Delete? ==> es[a].kind.insertId < |es|)
  }

  /** No two delete events link to the same insert. */
  predicate DeletesUnique(es: seq<Event>) {
    forall a, b :: (0 <= a < |es| && 0 <= b < |es| && es[a].kind.Delete? && es[b].kind.Delete? &&
      es[a].kind.insertId == es[b].kind.insertId) ==> a == b
  }

  /** Every insert has a delete linked to it, for the same interval. */
  ghost predicate InsertsPaired(es: seq<Event>) {
    forall b :: 0 <= b < |es| && es[b].kind.Insert? ==>
      exists a :: 0 <= a < |es| && es[a].kind == Delete(es[b].id) && es[a].interval == es[b].interval
  }

  /** The ids are distinct and below the event count, and each insert has exactly one delete. */
  ghost predicate WellFormed(es: seq<Event>) {
    IdsDistinct(es) && IdsBelow(es) && DeletesUnique(es) && InsertsPaired(es)
  }

  /** The stored delete positions are positions of delete events. */
  ghost predicate Valid(idx: Index) {
    && WellFormed(idx.events)
    && (forall k :: k in idx.deleteIndex ==> idx.deleteIndex[k] < |idx.events|)
  }

  /** An insert's `getDeleteEventIndex`: 0 when never set, as for an unset Java int field. */
  function DeleteIndexOf(idx: Index, id: nat): nat {
    if id in idx.deleteIndex then idx.deleteIndex[id] else 0
  }

  /**
   * `add`: exactly two events are appended, an insert at min with no link
   * and a delete at max linked to that insert.
   */
  function Add(idx: Index, iv: SweepInterval): (r: Index)
    requires Valid(idx)
    ensures Valid(r)
    ensures |r.events| == |idx.events| + 2 && r.events[..|idx.events|] == idx.events
    ensures var ins := r.events[|idx.events|]; var del := r.events[|idx.events| + 1];
      && ins.kind == Insert && ins.x == iv.min && ins.interval == iv
      && del.kind == Delete(ins.id) && del.x == iv.max && del.interval == iv
    ensures r.built == idx.built && r.deleteIndex == idx.deleteIndex && r.nOverlaps == idx.nOverlaps
  {
    AppendWellFormed(idx.events, iv);
    idx.(events := Appended(idx.events, iv))
  }

  /** The two events `add` appends. */
  function Appended(es: seq<Event>, iv: SweepInterval): seq<Event> {
    es + [Event(|es|, iv.min, Insert, iv), Event(|es| + 1, iv.max, Delete(|es|), iv)]
  }

  lemma AppendWellFormed(es: seq<Event>, iv: SweepInterval)
    requires WellFormed(es)
    ensures WellFormed(Appended(es, iv))
  {
    AppendIds(es, iv);
    AppendDeletesUnique(es, iv);
    AppendInsertsPaired(es, iv);
  }

  lemma AppendIds(es: seq<Event>, iv: SweepInterval)
    requires IdsDistinct(es) && IdsBelow(es)
    ensures IdsDistinct(Appended(es, iv)) && IdsBelow(Appended(es, iv))
  {
    var r := Appended(es, iv);
    assert forall a :: 0 <= a < |es| ==> r[a] == es[a];
  }

  lemma AppendDeletesUnique(es: seq<Event>, iv: SweepInterval)
    requires DeletesUnique(es) && IdsBelow(es)
    ensures DeletesUnique(Appended(es, iv))
  {
    var r := Appended(es, iv);
    var n := |es|;
    assert forall a :: 0 <= a < n ==> r[a] == es[a];
    // the old deletes link below n, the one new delete links to n
    assert forall a :: 0 <= a < n && r[a].kind.Delete? ==> r[a].kind.insertId < n;
    assert r[n].kind.Insert? && r[n + 1].kind == Delete(n);
    forall a, b | 0 <= a < |r| && 0 <= b < |r| && r[a].kind.Delete? && r[b].kind.Delete? &&
                  r[a].kind.insertId == r[b].kind.insertId
      ensures a == b
    {
      if a < n && b < n {
        assert es[a].kind.insertId == es[b].kind.insertId;
      }
    }
  }

  lemma AppendInsertsPaired(es: seq<Event>, iv: SweepInterval)
    requires InsertsPaired(es)
    ensures InsertsPaired(Appended(es, iv))
  {
    var r := Appended(es, iv);
    var n := |es|;
    assert forall a :: 0 <= a < n ==> r[a] == es[a];
    forall b | 0 <= b < |r| && r[b].kind.Insert?
      ensures exists a :: 0 <= a < |r| && r[a].kind == Delete(r[b].id) && r[a].interval == r[b].interval
    {
      if b < n {
        var a :| 0 <= a < n && es[a].kind == Delete(es[b].id) && es[a].interval == es[b].interval;
        assert r[a] == es[a];
      } else {
        assert r[n + 1].kind == Delete(r[b].id);
      }
    }
  }

  /** The events rearranged by the permutation: the same events, each as often as before, in a new order. */
  function Permute(es: seq<Event>, order: seq<nat>): (r: seq<Event>)
    requires IsPermutation(order, |es|)
    ensures |r| == |es|
    ensures forall p :: 0 <= p < |r| ==> r[p] == es[order[p]]
    ensures multiset(r) == multiset(es)
  {
    PermutedMultiset(es, order);
    Permuted(es, order)
  }

  /** Sorting keeps the events well formed. */
  lemma PermuteWellFormed(es: seq<Event>, order: seq<nat>)
    requires WellFormed(es) && IsPermutation(order, |es|)
    ensures WellFormed(Permute(es, order))
  {
    var s := Permute(es, order);
    forall b | 0 <= b < |s| && s[b].kind.Insert?
      ensures exists a :: 0 <= a < |s| && s[a].kind == Delete(s[b].id) && s[a].interval == s[b].interval
    {
      var a0 :| 0 <= a0 < |es| && es[a0].kind == Delete(es[order[b]].id) && es[a0].interval == es[order[b]].interval;
      assert a0 in order;
      var a :| 0 <= a < |order| && order[a] == a0;
      assert s[a] == es[a0];
    }
  }

  /**
   * `buildIndex`: on the first call the events are sorted and every insert
   * records the sorted position of its own delete; later calls change nothing.
   */
  method BuildIndex(idx: Index, order: seq<nat>) returns (r: Index)
    requires Valid(idx)
    requires !idx.built ==> IsPermutation(order, |idx.events|)
    ensures Valid(r) && r.built
    ensures idx.built ==> r == idx
    ensures !idx.built ==> r.events == Permute(idx.events, order) && r.nOverlaps == idx.nOverlaps
    ensures !idx.built ==> forall p :: 0 <= p < |r.events| && r.events[p].kind.Insert? ==>
              var d := DeleteIndexOf(r, r.events[p].id);
              d < |r.events| && r.events[d].kind == Delete(r.events[p].id) && r.events[d].interval == r.events[p].interval
  {
    if idx.built {
      return idx;
    }
    var es := Permute(idx.events, order);
    PermuteWellFormed(idx.events, order);
    var dmap := DeleteMap(es);
    DeletePositions(es, dmap);
    r := Index(es, true, dmap, idx.nOverlaps);
  }

  /** The loop of `buildIndex`: each delete event records its position under its insert's id. */
  method DeleteMap(es: seq<Event>) returns (dmap: map<nat, nat>)
    ensures forall k :: k in dmap ==> dmap[k] < |es| && es[dmap[k]].kind == Delete(k)
    ensures forall p :: 0 <= p < |es| && es[p].kind.Delete? ==> es[p].kind.insertId in dmap
  {
    dmap := map[];
    var i := 0;
    while i < |es|
      invariant 0 <= i <= |es|
      invariant forall k :: k in dmap ==> dmap[k] < i && es[dmap[k]].kind == Delete(k)
      invariant forall p :: 0 <= p < i && es[p].kind.Delete? ==> es[p].kind.insertId in dmap
    {
      var ev := es[i];
      if ev.kind.Delete? {
        dmap := dmap[ev.kind.insertId := i];
      }
      i := i + 1;
    }
  }

  /** A map holding the position of every delete event, by insert id, is exactly the pairing. */
  lemma DeletePositions(es: seq<Event>, dmap: map<nat, nat>)
    requires InsertsPaired(es) && DeletesUnique(es)
    requires forall k :: k in dmap ==> dmap[k] < |es| && es[dmap[k]].kind == Delete(k)
    requires forall p :: 0 <= p < |es| && es[p].kind.Delete? ==> es[p].kind.insertId in dmap
    ensures forall p :: 0 <= p < |es| && es[p].kind.Insert? ==>
              es[p].id in dmap && es[dmap[es[p].id]].kind == Delete(es[p].id) &&
              es[dmap[es[p].id]].interval == es[p].interval
  {
    forall p | 0 <= p < |es| && es[p].kind.Insert?
      ensures es[p].id in dmap && es[dmap[es[p].id]].interval == es[p].interval
    {
      var a :| 0 <= a < |es| && es[a].kind == Delete(es[p].id) && es[a].interval == es[p].interval;
      assert es[p].id in dmap;
      assert dmap[es[p].id] == a;
    }
  }

  /** The insert event at `i` is paired with the insert event at `j`: `j` lies in [i, delete). */
  predicate OverlapPair(idx: Index, i: int, j: int) {
    && 0 <= i < |idx.events| && 0 <= j < |idx.events|
    && idx.events[i].kind.Insert? && idx.events[j].kind.Insert?
    && i <= j < DeleteIndexOf(idx, idx.events[i].id)
  }

  /**
   * `processOverlaps(start, end, s0, action)`: the action is called for each
   * insert event in positions [start, end), in order; delete events are skipped.
   */
  method ProcessOverlaps(idx: Index, start: nat, end: nat) returns (calls: seq<(nat, nat)>)
    requires end <= |idx.events|
    ensures forall c :: c in calls <==> c.0 == start && start <= c.1 < end && idx.events[c.1].kind.Insert?
    ensures forall a, b :: 0 <= a < b < |calls| ==> calls[a].1 < calls[b].1
  {
    calls := [];
    var i := start;
    while i < end
      invariant start <= i || end <= start
      invariant forall c :: c in calls <==> c.0 == start && start <= c.1 < i && c.1 < end && idx.events[c.1].kind.Insert?
      invariant forall a, b :: 0 <= a < b < |calls| ==> calls[a].1 < calls[b].1
      invariant forall a :: 0 <= a < |calls| ==> calls[a].1 < i
    {
      if idx.events[i].kind.Insert? {
        calls := calls + [(start, i)];
      }
      i := i + 1;
    }
  }

  /**
   * `computeOverlaps`: resets the counter, builds the index, and calls the
   * action for every insert event `i` with every insert event `j` in
   * [i, delete(i)), each such pair exactly once, in order of `i` then `j`;
   * the action receives the two events' intervals. The counter ends equal
   * to the number of calls.
   */
  method ComputeOverlaps(idx: Index, order: seq<nat>) returns (r: Index, calls: seq<(nat, nat)>)
    requires Valid(idx)
    requires !idx.built ==> IsPermutation(order, |idx.events|)
    ensures Valid(r) && r.built
    ensures r.events == (if idx.built then idx.events else Permute(idx.events, order))
    ensures idx.built ==> r.deleteIndex == idx.deleteIndex
    ensures r.nOverlaps == |calls|
    ensures forall c :: c in calls <==> OverlapPair(r, c.0, c.1)
    ensures forall a, b :: 0 <= a < b < |calls| ==> calls[a].0 < calls[b].0 || (calls[a].0 == calls[b].0 && calls[a].1 < calls[b].1)
  {
    var b := BuildIndex(idx.(nOverlaps := 0), order);
    calls := ScanOverlaps(b);
    r := b.(nOverlaps := |calls|);
    assert forall i, j :: OverlapPair(r, i, j) == OverlapPair(b, i, j);
  }

  /** The main loop of `computeOverlaps` over a built index: each insert event's overlaps, in order. */
  method ScanOverlaps(b: Index) returns (calls: seq<(nat, nat)>)
    requires Valid(b)
    ensures forall c :: c in calls <==> OverlapPair(b, c.0, c.1)
    ensures forall x, y :: 0 <= x < y < |calls| ==> calls[x].0 < calls[y].0 || (calls[x].0 == calls[y].0 && calls[x].1 < calls[y].1)
  {
    calls := [];
    var i := 0;
    while i < |b.events|
      invariant 0 <= i <= |b.events|
      invariant forall c :: c in calls <==> c.0 < i && OverlapPair(b, c.0, c.1)
      invariant forall x, y :: 0 <= x < y < |calls| ==> calls[x].0 < calls[y].0 || (calls[x].0 == calls[y].0 && calls[x].1 < calls[y].1)
      invariant forall x :: 0 <= x < |calls| ==> calls[x].0 < i
    {
      var ev := b.events[i];
      var more: seq<(nat, nat)> := [];
      if ev.kind.Insert? {
        more := ProcessOverlaps(b, i, DeleteIndexOf(b, ev.id));
      }
      OverlapStep(b, i, calls, more);
      calls := calls + more;
      i := i + 1;
    }
  }

  lemma OverlapStep(b: Index, i: nat, calls: seq<(nat, nat)>, more: seq<(nat, nat)>)
    requires Valid(b) && i < |b.events|
    requires forall c :: c in calls <==> c.0 < i && OverlapPair(b, c.0, c.1)
    requires forall x :: 0 <= x < |calls| ==> calls[x].0 < i
    requires forall x, y :: 0 <= x < y < |calls| ==> calls[x].0 < calls[y].0 || (calls[x].0 == calls[y].0 && calls[x].1 < calls[y].1)
    requires b.events[i].kind.Insert? ==>
      forall c :: c in more <==> c.0 == i && i <= c.1 < DeleteIndexOf(b, b.events[i].id) && b.events[c.1].kind.Insert?
    requires !b.events[i].kind.Insert? ==> more == []
    requires forall x, y :: 0 <= x < y < |more| ==> more[x].1 < more[y].1
    ensures forall c :: c in calls + more <==> c.0 < i + 1 && OverlapPair(b, c.0, c.1)
    ensures forall x :: 0 <= x < |calls + more| ==> (calls + more)[x].0 < i + 1
    ensures forall x, y :: 0 <= x < y < |calls + more| ==>
      (calls + more)[x].0 < (calls + more)[y].0 || ((calls + more)[x].0 == (calls + more)[y].0 && (calls + more)[x].1 < (calls + more)[y].1)
  {
    var all := calls + more;
    assert forall x :: 0 <= x < |more| ==> more[x] in more;
    forall x, y | 0 <= x < y < |all|
      ensures all[x].0 < all[y].0 || (all[x].0 == all[y].0 && all[x].1 < all[y].1)
    {
      if y >= |calls| {
        assert all[y] == more[y - |calls|];
        if x >= |calls| {
          assert all[x] == more[x - |calls|];
        }
      }
    }
  }

  /** Adding after the index is built leaves the new insert with delete position 0, so it reports nothing. */
  lemma AddAfterBuildReportsNothing(idx: Index, iv: SweepInterval, j: int)
    requires Valid(idx) && idx.built
    requires forall k :: k in idx.deleteIndex ==> k < |idx.events|
    ensures !OverlapPair(Add(idx, iv), |idx.events|, j)
  {
    var r := Add(idx, iv);
    assert r.events[|idx.events|].id == |idx.events|;
  }
}
