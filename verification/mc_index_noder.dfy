/**
 * The single-pass indexed noder of `noding/MCIndexNoder.java`. Every input
 * string is split into monotone chains that receive the ids 0, 1, 2, ... in
 * build order and go both into the spatial index and into the chain list;
 * then every chain queries the index with its envelope, and a candidate is
 * processed only when its id exceeds the query chain's id.
 *
 * The chain builder, the spatial index, the chain-against-chain overlap
 * enumeration and the segment intersector are unseen collaborators and
 * appear as parameters. A chain held by the index is named by its id, which
 * is its position in the chain list.
 */
module MCIndexNoder {
  import opened Geom

  /**
   * A monotone chain over points `start..end` of the string at position
   * `context` of the input, with its envelope and its id.
   */
  datatype MonotoneChain = MonotoneChain(context: nat, start: nat, end: nat, env: Envelope, id: nat)

  /** The unseen `MonotoneChainBuilder.getChains(pts, context)`. */
  type ChainBuilder = (Line, nat) -> seq<MonotoneChain>

  /**
   * The noder state: the chain list, the chains inserted into the index (in
   * insertion order), the id counter, and the strings last given to
   * `computeNodes`.
   */
  datatype Noder = Noder(monoChains: seq<MonotoneChain>, indexed: seq<MonotoneChain>,
                         idCounter: nat, nodedSegStrings: seq<Line>)

  const EmptyNoder := Noder([], [], 0, [])

  /** The call `processIntersections(ss1, start1, ss2, start2)` made on the segment intersector. */
  datatype SegmentCall = SegmentCall(ss1: nat, start1: nat, ss2: nat, start2: nat)

  /**
   * The built chains numbered consecutively from `first`: each chain keeps
   * everything but its id, and the ids increase by one along the list, so
   * they are distinct and fill [first, first + |chains|).
   */
  function WithIds(chains: seq<MonotoneChain>, first: nat): (r: seq<MonotoneChain>)
    ensures |r| == |chains|
    ensures forall k :: 0 <= k < |r| ==> r[k].(id := chains[k].id) == chains[k]
    ensures forall k :: 0 <= k < |r| ==> first <= r[k].id < first + |r|
    ensures forall a, b :: 0 <= a < b < |r| ==> r[a].id < r[b].id
    ensures |r| > 0 ==> r[0].id == first
    ensures forall k :: 0 < k < |r| ==> r[k].id == r[k - 1].id + 1
  {
    seq(|chains|, k requires 0 <= k < |chains| => chains[k].(id := first + k))
  }

  /**
   * `add`: each chain built for the string gets the next id and is both
   * inserted into the index and appended to the chain list.
   */
  function Add(n: Noder, build: ChainBuilder, pts: Line, context: nat): (r: Noder)
    ensures var built := build(pts, context);
      && r.idCounter == n.idCounter + |built|
      && |r.monoChains| == |n.monoChains| + |built|
      && |r.indexed| == |n.indexed| + |built|
      && r.monoChains[..|n.monoChains|] == n.monoChains
      && r.indexed[..|n.indexed|] == n.indexed
      && r.monoChains[|n.monoChains|..] == r.indexed[|n.indexed|..]
      && forall k :: 0 <= k < |built| ==>
           r.monoChains[|n.monoChains| + k] == built[k].(id := n.idCounter + k)
    ensures r.nodedSegStrings == n.nodedSegStrings
  {
    var chains := WithIds(build(pts, context), n.idCounter);
    n.(monoChains := n.monoChains + chains, indexed := n.indexed + chains,
       idCounter := n.idCounter + |chains|)
  }

  /** Adds the strings `strings[from..]` in order, the string at position `k` with context `k`. */
  function AddAll(n: Noder, build: ChainBuilder, strings: seq<Line>, from: nat): Noder
    requires from <= |strings|
    decreases |strings| - from
  {
    if from == |strings| then n
    else AddAll(Add(n, build, strings[from], from), build, strings, from + 1)
  }

  /** Every chain's id is its position in the chain list, and the index holds exactly that list. */
  predicate IdsArePositions(n: Noder) {
    && n.indexed == n.monoChains
    && n.idCounter == |n.monoChains|
    && forall k :: 0 <= k < |n.monoChains| ==> n.monoChains[k].id == k
  }

  /**
   * Ids are handed out 0, 1, 2, ... across all inputs in build order, so
   * they are distinct, and every built chain is in both the index and the
   * chain list.
   */
  lemma {:induction false} AddAllAssignsPositions(n: Noder, build: ChainBuilder, strings: seq<Line>, from: nat)
    requires from <= |strings|
    requires IdsArePositions(n)
    ensures IdsArePositions(AddAll(n, build, strings, from))
    ensures AddAll(n, build, strings, from).nodedSegStrings == n.nodedSegStrings
    decreases |strings| - from
  {
    if from < |strings| {
      var n' := Add(n, build, strings[from], from);
      assert n'.indexed == n'.monoChains by {
        assert n'.indexed[..|n.indexed|] == n'.monoChains[..|n.monoChains|];
        assert n'.indexed == n'.indexed[..|n.indexed|] + n'.indexed[|n.indexed|..];
        assert n'.monoChains == n'.monoChains[..|n.monoChains|] + n'.monoChains[|n.monoChains|..];
      }
      forall k | 0 <= k < |n'.monoChains|
        ensures n'.monoChains[k].id == k
      {
        if k < |n.monoChains| {
          assert n'.monoChains[k] == n'.monoChains[..|n.monoChains|][k];
        }
      }
      AddAllAssignsPositions(n', build, strings, from + 1);
    }
  }

  /** No element occurs twice. */
  predicate Distinct<T(==)>(s: seq<T>) {
    forall a, b :: 0 <= a < b < |s| ==> s[a] != s[b]
  }

  /**
   * The spatial index never misses: every chain whose envelope intersects a
   * query chain's envelope is among the candidates returned for it.
   */
  ghost predicate NeverMisses(chains: seq<MonotoneChain>, query: Envelope -> seq<nat>) {
    forall i, j :: 0 <= i < |chains| && 0 <= j < |chains| && Intersects(chains[i].env, chains[j].env) ==>
      j in query(chains[i].env)
  }

  /**
   * The calls the overlap action makes for one chain pair: one per
   * overlapping segment pair, in enumeration order, each naming the two
   * chains' parent strings unchanged; a call is made exactly for the
   * enumerated start pairs.
   */
  function ChainCalls(q: MonotoneChain, t: MonotoneChain, overlaps: (MonotoneChain, MonotoneChain) -> seq<(nat, nat)>)
    : (r: seq<SegmentCall>)
    ensures |r| == |overlaps(q, t)|
    ensures forall k :: 0 <= k < |r| ==> r[k].ss1 == q.context && r[k].ss2 == t.context
    ensures forall k :: 0 <= k < |r| ==> (r[k].start1, r[k].start2) == overlaps(q, t)[k]
    ensures forall c: SegmentCall :: c in r <==>
              c.ss1 == q.context && c.ss2 == t.context && (c.start1, c.start2) in overlaps(q, t)
  {
    var ov := overlaps(q, t);
    var r := seq(|ov|, k requires 0 <= k < |ov| => SegmentCall(q.context, ov[k].0, t.context, ov[k].1));
    CallsCoverStarts(r, ov, q.context, t.context);
    r
  }

  /** A call list naming `ss1` and `ss2` and the start pairs `ov` position by position holds a call exactly for each pair. */
  lemma CallsCoverStarts(r: seq<SegmentCall>, ov: seq<(nat, nat)>, ss1: nat, ss2: nat)
    requires |r| == |ov|
    requires forall k :: 0 <= k < |r| ==> r[k] == SegmentCall(ss1, ov[k].0, ss2, ov[k].1)
    ensures forall c: SegmentCall :: c in r <==> c.ss1 == ss1 && c.ss2 == ss2 && (c.start1, c.start2) in ov
  {
    forall c: SegmentCall | c.ss1 == ss1 && c.ss2 == ss2 && (c.start1, c.start2) in ov
      ensures c in r
    {
      var k :| 0 <= k < |ov| && ov[k] == (c.start1, c.start2);
      assert r[k] == c;
    }
  }

  /** All intersector calls made while processing the chain pairs `pairs`, in order. */
  function CallsOf(chains: seq<MonotoneChain>, overlaps: (MonotoneChain, MonotoneChain) -> seq<(nat, nat)>,
                   pairs: seq<(nat, nat)>): seq<SegmentCall>
  {
    if |pairs| == 0 then []
    else
      var p := pairs[|pairs| - 1];
      CallsOf(chains, overlaps, pairs[..|pairs| - 1]) +
      (if p.0 < |chains| && p.1 < |chains| then ChainCalls(chains[p.0], chains[p.1], overlaps) else [])
  }

  /**
   * What holds of the processed pairs and calls after the query chains
   * `0..i` have been handled, `examined` recording whether any candidate has
   * been looked at (the intersector's `isDone` is consulted after each one).
   */
  ghost predicate Progress(chains: seq<MonotoneChain>, query: Envelope -> seq<nat>,
                           overlaps: (MonotoneChain, MonotoneChain) -> seq<(nat, nat)>,
                           isDone: seq<SegmentCall> -> bool,
                           i: nat, pairs: seq<(nat, nat)>, calls: seq<SegmentCall>, examined: bool)
    requires i <= |chains|
  {
    && (forall p :: p in pairs ==> p.0 < i && p.0 < p.1 < |chains| && p.1 in query(chains[p.0].env))
    && Distinct(pairs)
    && calls == CallsOf(chains, overlaps, pairs)
    && (forall m :: 1 <= m < |pairs| ==> !isDone(CallsOf(chains, overlaps, pairs[..m])))
    && (|pairs| > 0 ==> examined)
    && (examined ==> !isDone(calls))
    && (forall i', t :: 0 <= i' < i && t in query(chains[i'].env) && i' < t ==> (i', t) in pairs)
  }

  /** Appending one pair appends its chain calls. */
  lemma CallsOfAppend(chains: seq<MonotoneChain>, overlaps: (MonotoneChain, MonotoneChain) -> seq<(nat, nat)>,
                      pairs: seq<(nat, nat)>, p: (nat, nat))
    requires p.0 < |chains| && p.1 < |chains|
    ensures CallsOf(chains, overlaps, pairs + [p]) ==
            CallsOf(chains, overlaps, pairs) + ChainCalls(chains[p.0], chains[p.1], overlaps)
  {
    assert (pairs + [p])[..|pairs|] == pairs;
  }

  /** The index returns, for every chain's envelope, distinct ids of chains. */
  predicate ChainIndex(chains: seq<MonotoneChain>, query: Envelope -> seq<nat>) {
    && (forall k :: 0 <= k < |chains| ==> chains[k].id == k)
    && (forall i, c :: 0 <= i < |chains| && c in query(chains[i].env) ==> c < |chains|)
    && (forall i :: 0 <= i < |chains| ==> Distinct(query(chains[i].env)))
  }

  /** Every strict non-empty prefix of the processed pairs left the intersector not done. */
  ghost predicate NotDoneBefore(chains: seq<MonotoneChain>, overlaps: (MonotoneChain, MonotoneChain) -> seq<(nat, nat)>,
                                isDone: seq<SegmentCall> -> bool, pairs: seq<(nat, nat)>) {
    forall m :: 1 <= m < |pairs| ==> !isDone(CallsOf(chains, overlaps, pairs[..m]))
  }

  /**
   * The state of the inner loop for query chain `i` after its first `j`
   * candidates `cands[..j]`, the pairs `pre` coming from earlier query chains.
   */
  ghost predicate InnerProgress(chains: seq<MonotoneChain>, query: Envelope -> seq<nat>,
                                overlaps: (MonotoneChain, MonotoneChain) -> seq<(nat, nat)>,
                                i: nat, cands: seq<nat>, j: nat, pre: seq<(nat, nat)>,
                                pairs: seq<(nat, nat)>, calls: seq<SegmentCall>)
    requires i < |chains| && j <= |cands|
  {
    && PairsProgress(chains, query, i, cands, j, pre, pairs)
    && calls == CallsOf(chains, overlaps, pairs)
  }

  /** The part of `InnerProgress` that concerns only the processed pairs. */
  ghost predicate PairsProgress(chains: seq<MonotoneChain>, query: Envelope -> seq<nat>,
                                i: nat, cands: seq<nat>, j: nat, pre: seq<(nat, nat)>, pairs: seq<(nat, nat)>)
    requires i < |chains| && j <= |cands|
  {
    && |pre| <= |pairs| && pairs[..|pre|] == pre
    && (forall p :: p in pre ==> p.0 < i)
    && (forall a :: |pre| <= a < |pairs| ==> pairs[a].0 == i && pairs[a].1 in cands[..j])
    && (forall p :: p in pairs ==> p.0 <= i && p.0 < p.1 < |chains| && p.1 in query(chains[p.0].env))
    && Distinct(pairs)
    && (forall i', t :: 0 <= i' < i && t in query(chains[i'].env) && i' < t ==> (i', t) in pairs)
    && (forall t :: t in cands[..j] && i < t ==> (i, t) in pairs)
  }

  /** A candidate not seen before for this query chain gives a pair not yet processed. */
  lemma FreshPair(chains: seq<MonotoneChain>, query: Envelope -> seq<nat>,
                  i: nat, cands: seq<nat>, j: nat, pre: seq<(nat, nat)>, pairs: seq<(nat, nat)>)
    requires i < |chains| && j < |cands| && Distinct(cands)
    requires PairsProgress(chains, query, i, cands, j, pre, pairs)
    ensures (i, cands[j]) !in pairs
  {
    var p := (i, cands[j]);
    forall a | 0 <= a < |pairs| ensures pairs[a] != p {
      if a < |pre| {
        assert pairs[a] == pre[a];
      } else {
        var b :| 0 <= b < j && cands[b] == pairs[a].1;
        assert cands[b] != cands[j];
      }
    }
  }

  /** Appending a pair keeps every strict prefix's not-done property. */
  lemma NotDoneAppend(chains: seq<MonotoneChain>, overlaps: (MonotoneChain, MonotoneChain) -> seq<(nat, nat)>,
                      isDone: seq<SegmentCall> -> bool, pairs: seq<(nat, nat)>, p: (nat, nat))
    requires NotDoneBefore(chains, overlaps, isDone, pairs)
    requires |pairs| > 0 ==> !isDone(CallsOf(chains, overlaps, pairs))
    ensures NotDoneBefore(chains, overlaps, isDone, pairs + [p])
  {
    var pairs' := pairs + [p];
    forall m | 1 <= m < |pairs'|
      ensures !isDone(CallsOf(chains, overlaps, pairs'[..m]))
    {
      if m < |pairs| {
        assert pairs'[..m] == pairs[..m];
      } else {
        assert pairs'[..m] == pairs;
      }
    }
  }

  /** A candidate with a larger id is appended as a new pair, and its chain calls follow. */
  lemma ProcessStep(chains: seq<MonotoneChain>, query: Envelope -> seq<nat>,
                    overlaps: (MonotoneChain, MonotoneChain) -> seq<(nat, nat)>,
                    i: nat, cands: seq<nat>, j: nat, pre: seq<(nat, nat)>,
                    pairs: seq<(nat, nat)>, calls: seq<SegmentCall>)
    requires ChainIndex(chains, query)
    requires i < |chains| && j < |cands| && cands == query(chains[i].env)
    requires InnerProgress(chains, query, overlaps, i, cands, j, pre, pairs, calls)
    requires i < cands[j]
    ensures cands[j] < |chains|
    ensures InnerProgress(chains, query, overlaps, i, cands, j + 1, pre, pairs + [(i, cands[j])],
                          calls + ChainCalls(chains[i], chains[cands[j]], overlaps))
  {
    var p := (i, cands[j]);
    PairStep(chains, query, i, cands, j, pre, pairs);
    CallsOfAppend(chains, overlaps, pairs, p);
  }

  /** The pair bookkeeping of `ProcessStep`, with the calls given by the new pair list. */
  lemma PairStep(chains: seq<MonotoneChain>, query: Envelope -> seq<nat>,
                 i: nat, cands: seq<nat>, j: nat, pre: seq<(nat, nat)>, pairs: seq<(nat, nat)>)
    requires ChainIndex(chains, query)
    requires i < |chains| && j < |cands| && cands == query(chains[i].env)
    requires PairsProgress(chains, query, i, cands, j, pre, pairs)
    requires i < cands[j]
    ensures cands[j] < |chains|
    ensures PairsProgress(chains, query, i, cands, j + 1, pre, pairs + [(i, cands[j])])
  {
    assert cands[j] in query(chains[i].env);
    var p := (i, cands[j]);
    FreshPair(chains, query, i, cands, j, pre, pairs);
    var pairs' := pairs + [p];
    DistinctAppend(pairs, p);
    PrefixStep(cands, j);
    assert pairs'[..|pre|] == pre by {
      assert pairs'[..|pre|] == pairs[..|pre|];
    }
    assert forall q :: q in pairs' <==> q in pairs || q == p;
    NewPairsStep(i, cands, j, pre, pairs);
  }

  /** The pairs added for query chain `i` stay drawn from its candidates seen so far. */
  lemma NewPairsStep(i: nat, cands: seq<nat>, j: nat, pre: seq<(nat, nat)>, pairs: seq<(nat, nat)>)
    requires j < |cands| && |pre| <= |pairs|
    requires forall a :: |pre| <= a < |pairs| ==> pairs[a].0 == i && pairs[a].1 in cands[..j]
    ensures forall a :: |pre| <= a < |pairs| + 1 ==>
      (pairs + [(i, cands[j])])[a].0 == i && (pairs + [(i, cands[j])])[a].1 in cands[..j + 1]
  {
    var pairs' := pairs + [(i, cands[j])];
    PrefixStep(cands, j);
    forall a | |pre| <= a < |pairs'|
      ensures pairs'[a].0 == i && pairs'[a].1 in cands[..j + 1]
    {
      if a < |pairs| {
        assert pairs'[a] == pairs[a];
      }
    }
  }

  /** Appending an element not yet present keeps a sequence duplicate-free. */
  lemma DistinctAppend<T>(s: seq<T>, x: T)
    requires Distinct(s) && x !in s
    ensures Distinct(s + [x])
  {
    var t := s + [x];
    forall a, b | 0 <= a < b < |t| ensures t[a] != t[b] {
      assert t[a] == s[a];
      if b < |s| {
        assert t[b] == s[b];
      }
    }
  }

  /** The candidates seen after one more step are the earlier ones and the new one. */
  lemma PrefixStep(cands: seq<nat>, j: nat)
    requires j < |cands|
    ensures forall t :: t in cands[..j + 1] <==> t in cands[..j] || t == cands[j]
  {
    assert cands[..j + 1] == cands[..j] + [cands[j]];
  }

  /** A candidate with a smaller or equal id is skipped. */
  lemma SkipStep(chains: seq<MonotoneChain>, query: Envelope -> seq<nat>,
                 overlaps: (MonotoneChain, MonotoneChain) -> seq<(nat, nat)>,
                 i: nat, cands: seq<nat>, j: nat, pre: seq<(nat, nat)>,
                 pairs: seq<(nat, nat)>, calls: seq<SegmentCall>)
    requires i < |chains| && j < |cands|
    requires InnerProgress(chains, query, overlaps, i, cands, j, pre, pairs, calls)
    requires cands[j] <= i
    ensures InnerProgress(chains, query, overlaps, i, cands, j + 1, pre, pairs, calls)
  {
    assert forall t :: t in cands[..j + 1] ==> t in cands[..j] || t == cands[j];
    assert cands[..j] <= cands[..j + 1];
  }

  /**
   * The inner loop of `intersectChains` for the query chain `i`: each
   * candidate with a larger id is processed, and the loop returns from
   * `intersectChains` (`stopped`) as soon as the intersector is done.
   */
  method ProcessCandidates(chains: seq<MonotoneChain>, query: Envelope -> seq<nat>,
                           overlaps: (MonotoneChain, MonotoneChain) -> seq<(nat, nat)>,
                           isDone: seq<SegmentCall> -> bool, i: nat,
                           pairs0: seq<(nat, nat)>, calls0: seq<SegmentCall>, ghost examined0: bool)
    returns (pairs: seq<(nat, nat)>, calls: seq<SegmentCall>, stopped: bool, ghost examined: bool)
    requires ChainIndex(chains, query)
    requires i < |chains|
    requires Progress(chains, query, overlaps, isDone, i, pairs0, calls0, examined0)
    ensures stopped ==> isDone(calls)
    ensures stopped ==> (forall p :: p in pairs ==> p.0 < p.1 < |chains| && p.1 in query(chains[p.0].env))
    ensures stopped ==> Distinct(pairs) && calls == CallsOf(chains, overlaps, pairs)
    ensures stopped ==> NotDoneBefore(chains, overlaps, isDone, pairs)
    ensures !stopped ==> Progress(chains, query, overlaps, isDone, i + 1, pairs, calls, examined)
  {
    pairs, calls, examined := pairs0, calls0, examined0;
    var queryChain := chains[i];
    var cands := query(queryChain.env);
    ghost var pre := pairs;
    StartCandidates(chains, query, overlaps, isDone, i, pairs, calls, examined);
    var j := 0;
    while j < |cands|
      invariant 0 <= j <= |cands|
      invariant InnerProgress(chains, query, overlaps, i, cands, j, pre, pairs, calls)
      invariant NotDoneBefore(chains, overlaps, isDone, pairs)
      invariant |pairs| > 0 ==> examined
      invariant examined ==> !isDone(calls)
    {
      pairs, calls := HandleCandidate(chains, query, overlaps, isDone, i, cands, j, pre, pairs, calls);
      examined := true;
      if isDone(calls) {
        StoppedCandidates(chains, query, overlaps, i, cands, j + 1, pre, pairs, calls);
        return pairs, calls, true, examined;
      }
      j := j + 1;
    }
    FinishCandidates(chains, query, overlaps, isDone, i, cands, pre, pairs, calls, examined);
    stopped := false;
  }

  /**
   * One step of the inner loop of `intersectChains`: the candidate at `j` is
   * processed when its id exceeds the query chain's, and skipped otherwise.
   */
  method HandleCandidate(chains: seq<MonotoneChain>, query: Envelope -> seq<nat>,
                         overlaps: (MonotoneChain, MonotoneChain) -> seq<(nat, nat)>,
                         isDone: seq<SegmentCall> -> bool, i: nat, cands: seq<nat>, j: nat,
                         ghost pre: seq<(nat, nat)>, pairs0: seq<(nat, nat)>, calls0: seq<SegmentCall>)
    returns (pairs: seq<(nat, nat)>, calls: seq<SegmentCall>)
    requires ChainIndex(chains, query)
    requires i < |chains| && j < |cands| && cands == query(chains[i].env)
    requires InnerProgress(chains, query, overlaps, i, cands, j, pre, pairs0, calls0)
    requires NotDoneBefore(chains, overlaps, isDone, pairs0)
    requires |pairs0| > 0 ==> !isDone(calls0)
    ensures InnerProgress(chains, query, overlaps, i, cands, j + 1, pre, pairs, calls)
    ensures NotDoneBefore(chains, overlaps, isDone, pairs)
    ensures cands[j] > i ==> pairs == pairs0 + [(i, cands[j])]
    ensures cands[j] <= i ==> pairs == pairs0 && calls == calls0
  {
    var testId := cands[j];
    if testId > i {
      ProcessStep(chains, query, overlaps, i, cands, j, pre, pairs0, calls0);
      NotDoneAppend(chains, overlaps, isDone, pairs0, (i, testId));
      var testChain := chains[testId];
      // the ids are the positions, so this is the source's `testChain.getId() > queryChain.getId()`
      assert testChain.id > chains[i].id;
      pairs := pairs0 + [(i, testId)];
      calls := calls0 + ChainCalls(chains[i], testChain, overlaps);
    } else {
      assert testId in query(chains[i].env);
      assert chains[testId].id <= chains[i].id;
      SkipStep(chains, query, overlaps, i, cands, j, pre, pairs0, calls0);
      pairs, calls := pairs0, calls0;
    }
  }

  /** Before the first candidate of chain `i`, the outer progress gives the inner one. */
  lemma StartCandidates(chains: seq<MonotoneChain>, query: Envelope -> seq<nat>,
                        overlaps: (MonotoneChain, MonotoneChain) -> seq<(nat, nat)>,
                        isDone: seq<SegmentCall> -> bool, i: nat,
                        pairs: seq<(nat, nat)>, calls: seq<SegmentCall>, examined: bool)
    requires i < |chains|
    requires Progress(chains, query, overlaps, isDone, i, pairs, calls, examined)
    ensures InnerProgress(chains, query, overlaps, i, query(chains[i].env), 0, pairs, pairs, calls)
    ensures NotDoneBefore(chains, overlaps, isDone, pairs)
  {
    assert pairs[..|pairs|] == pairs;
  }

  /** Stopping early keeps the pair properties of the candidates handled so far. */
  lemma StoppedCandidates(chains: seq<MonotoneChain>, query: Envelope -> seq<nat>,
                          overlaps: (MonotoneChain, MonotoneChain) -> seq<(nat, nat)>,
                          i: nat, cands: seq<nat>, j: nat, pre: seq<(nat, nat)>,
                          pairs: seq<(nat, nat)>, calls: seq<SegmentCall>)
    requires i < |chains| && j <= |cands|
    requires InnerProgress(chains, query, overlaps, i, cands, j, pre, pairs, calls)
    ensures forall p :: p in pairs ==> p.0 < p.1 < |chains| && p.1 in query(chains[p.0].env)
    ensures Distinct(pairs) && calls == CallsOf(chains, overlaps, pairs)
  {
  }

  /** After the last candidate of chain `i`, every pair from chains up to `i` is processed. */
  lemma FinishCandidates(chains: seq<MonotoneChain>, query: Envelope -> seq<nat>,
                         overlaps: (MonotoneChain, MonotoneChain) -> seq<(nat, nat)>,
                         isDone: seq<SegmentCall> -> bool, i: nat, cands: seq<nat>, pre: seq<(nat, nat)>,
                         pairs: seq<(nat, nat)>, calls: seq<SegmentCall>, examined: bool)
    requires i < |chains| && cands == query(chains[i].env)
    requires InnerProgress(chains, query, overlaps, i, cands, |cands|, pre, pairs, calls)
    requires NotDoneBefore(chains, overlaps, isDone, pairs)
    requires |pairs| > 0 ==> examined
    requires examined ==> !isDone(calls)
    ensures Progress(chains, query, overlaps, isDone, i + 1, pairs, calls, examined)
  {
    assert cands[..|cands|] == cands;
  }

  /**
   * `intersectChains`. `query` is the index, `overlaps` the unseen
   * `MonotoneChain.computeOverlaps`, and `isDone` the segment intersector's
   * `isDone` as a function of the calls it has received. Returns the
   * processed chain pairs (query id, candidate id) and the intersector calls.
   */
  method IntersectChains(chains: seq<MonotoneChain>, query: Envelope -> seq<nat>,
                         overlaps: (MonotoneChain, MonotoneChain) -> seq<(nat, nat)>,
                         isDone: seq<SegmentCall> -> bool)
    returns (pairs: seq<(nat, nat)>, calls: seq<SegmentCall>)
    requires ChainIndex(chains, query)
    // never a self pair, always the lower id first, and no pair twice
    ensures forall p :: p in pairs ==> p.0 < p.1 < |chains|
    ensures Distinct(pairs)
    // only index candidates are processed
    ensures forall p :: p in pairs ==> p.1 in query(chains[p.0].env)
    // the overlap action forwards every overlap to the intersector
    ensures calls == CallsOf(chains, overlaps, pairs)
    // once the intersector is done, no further pair is processed
    ensures NotDoneBefore(chains, overlaps, isDone, pairs)
    // unless the intersector is done, every intersecting pair is processed
    ensures NeverMisses(chains, query) && !isDone(calls) ==>
              forall i, j :: 0 <= i < j < |chains| && Intersects(chains[i].env, chains[j].env) ==> (i, j) in pairs
  {
    pairs, calls := [], [];
    ghost var examined := false;
    var i := 0;
    while i < |chains|
      invariant 0 <= i <= |chains|
      invariant Progress(chains, query, overlaps, isDone, i, pairs, calls, examined)
    {
      var stopped;
      pairs, calls, stopped, examined := ProcessCandidates(chains, query, overlaps, isDone, i, pairs, calls, examined);
      if stopped {
        return;
      }
      i := i + 1;
    }
  }

  /** The chains built for the strings, in build order. */
  function Chains(build: ChainBuilder, strings: seq<Line>): seq<MonotoneChain> {
    AddAll(Noder([], [], 0, strings), build, strings, 0).monoChains
  }

  /**
   * `computeNodes`: the strings are kept as the source of the noded
   * substrings, every string is added, and the chains are intersected.
   */
  method ComputeNodes(build: ChainBuilder, strings: seq<Line>, query: Envelope -> seq<nat>,
                      overlaps: (MonotoneChain, MonotoneChain) -> seq<(nat, nat)>,
                      isDone: seq<SegmentCall> -> bool)
    returns (n: Noder, pairs: seq<(nat, nat)>, calls: seq<SegmentCall>)
    requires forall i, c :: 0 <= i < |Chains(build, strings)| && c in query(Chains(build, strings)[i].env) ==>
               c < |Chains(build, strings)|
    requires forall i :: 0 <= i < |Chains(build, strings)| ==> Distinct(query(Chains(build, strings)[i].env))
    ensures n.nodedSegStrings == strings
    ensures IdsArePositions(n)
    ensures forall p :: p in pairs ==> p.0 < p.1 < |n.monoChains|
    ensures Distinct(pairs)
    ensures forall p :: p in pairs ==> p.1 in query(n.monoChains[p.0].env)
    ensures calls == CallsOf(n.monoChains, overlaps, pairs)
    ensures NotDoneBefore(n.monoChains, overlaps, isDone, pairs)
    ensures NeverMisses(n.monoChains, query) && !isDone(calls) ==>
              forall i, j :: 0 <= i < j < |n.monoChains| && Intersects(n.monoChains[i].env, n.monoChains[j].env) ==>
                (i, j) in pairs
  {
    var start := Noder([], [], 0, strings);
    n := AddAll(start, build, strings, 0);
    AddAllAssignsPositions(start, build, strings, 0);
    assert n.monoChains == Chains(build, strings);
    pairs, calls := IntersectChains(n.monoChains, query, overlaps, isDone);
  }
}
