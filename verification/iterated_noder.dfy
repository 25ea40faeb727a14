/**
 * The fixed-point driver of `noding/IteratedNoder.java`: noding passes are
 * repeated, each on the previous pass's noded substrings, until a pass finds
 * no interior intersection; after `maxIter` passes a count that fails to
 * decrease is reported as non-convergence.
 */
module IteratedNoder {
  import opened Geom

  /** The default iteration threshold. */
  const MAX_ITER: int := 5

  /** The configuration of an iterated noder: the iteration threshold. */
  datatype IteratedNoder = IteratedNoder(maxIter: int)

  /** A new noder uses the default threshold. */
  function NewIteratedNoder(): (n: IteratedNoder)
    ensures n.maxIter == 5
  {
    IteratedNoder(MAX_ITER)
  }

  /** `setMaximumIterations` replaces the threshold and nothing else. */
  function SetMaximumIterations(n: IteratedNoder, maxIter: int): (r: IteratedNoder)
    ensures r.maxIter == maxIter
  {
    n.(maxIter := maxIter)
  }

  /**
   * One noding pass (the private `node` method, an `MCIndexNoder` run with an
   * intersection adder): the noded substrings and the number of interior
   * intersections found.
   */
  type NodingPass = seq<Line> -> (seq<Line>, nat)

  /** The strings after `k` passes, each pass fed the previous pass's output. */
  function Run(pass: NodingPass, input: seq<Line>, k: nat): seq<Line>
  {
    if k == 0 then input else pass(Run(pass, input, k - 1)).0
  }

  /** The interior-intersection count reported by pass number `k` (from 1). */
  function Count(pass: NodingPass, input: seq<Line>, k: nat): nat
    requires k >= 1
  {
    pass(Run(pass, input, k - 1)).1
  }

  /**
   * Pass `k` raises the non-convergence error: the previous count was
   * positive, this one is no smaller, and more than `maxIter` passes have run.
   * The first pass can never raise it (the previous count starts at -1).
   */
  predicate Throws(pass: NodingPass, input: seq<Line>, maxIter: int, k: nat) {
    k >= 2 && Count(pass, input, k - 1) > 0 &&
    Count(pass, input, k) >= Count(pass, input, k - 1) &&
    k > maxIter
  }

  /** Pass `k + 1` is the pass applied to the strings after `k` passes. */
  lemma NextPass(pass: NodingPass, input: seq<Line>, k: nat)
    ensures pass(Run(pass, input, k)).0 == Run(pass, input, k + 1)
    ensures pass(Run(pass, input, k)).1 == Count(pass, input, k + 1)
  {
  }

  /** Pass `k` reported intersections and did not raise the error, so the loop went on. */
  predicate ContinuedAfter(pass: NodingPass, input: seq<Line>, maxIter: int, k: nat)
    requires k >= 1
  {
    Count(pass, input, k) > 0 && !Throws(pass, input, maxIter, k)
  }

  /** The loop's record of earlier passes, restated pass by pass. */
  lemma EarlierPassesContinued(pass: NodingPass, input: seq<Line>, maxIter: int, count: nat)
    requires forall k :: 1 <= k < count ==> ContinuedAfter(pass, input, maxIter, k)
    ensures forall k :: 1 <= k < count ==> Count(pass, input, k) > 0 && !Throws(pass, input, maxIter, k)
  {
    forall k | 1 <= k < count
      ensures Count(pass, input, k) > 0 && !Throws(pass, input, maxIter, k)
    {
      assert ContinuedAfter(pass, input, maxIter, k);
    }
  }

  /** How `computeNodes` ends: with the noded strings, or with a `TopologyException`. */
  datatype NodingResult =
    | Converged(nodedSegStrings: seq<Line>, passes: nat)
    | NonConvergence(passes: nat)

  /**
   * `computeNodes`: at least one pass runs; the loop stops normally exactly
   * at the first pass reporting zero intersections and abnormally exactly at
   * the first pass that `Throws`. The pass counter is unbounded, so the
   * loop terminates for every pass function; the source's counter is a
   * 32-bit `int`, which never exceeds a threshold of `Integer.MAX_VALUE`.
   */
  method ComputeNodes(noder: IteratedNoder, pass: NodingPass, input: seq<Line>) returns (r: NodingResult)
    ensures r.passes >= 1
    ensures forall k :: 1 <= k < r.passes ==> Count(pass, input, k) > 0 && !Throws(pass, input, noder.maxIter, k)
    ensures r.Converged? ==> Count(pass, input, r.passes) == 0 && r.nodedSegStrings == Run(pass, input, r.passes)
    ensures r.NonConvergence? ==> Throws(pass, input, noder.maxIter, r.passes)
    ensures r.NonConvergence? ==> r.passes > noder.maxIter
  {
    var maxIter := noder.maxIter;
    // the first pass of the do-while; the previous count is -1, so it cannot throw
    var first := pass(input);
    var strings := first.0;
    var last: int := first.1;
    var count: nat := 1;
    NextPass(pass, input, 0);
    while last > 0
      invariant count >= 1
      invariant strings == Run(pass, input, count)
      invariant last == Count(pass, input, count)
      invariant forall k :: 1 <= k < count ==> ContinuedAfter(pass, input, maxIter, k)
      invariant !Throws(pass, input, maxIter, count)
      decreases if count <= maxIter then maxIter - count + 1 else 0, last
    {
      var next := pass(strings);
      NextPass(pass, input, count);
      assert ContinuedAfter(pass, input, maxIter, count);
      count := count + 1;
      var nodesCreated := next.1;
      if last > 0 && nodesCreated >= last && count > maxIter {
        assert Throws(pass, input, maxIter, count);
        EarlierPassesContinued(pass, input, maxIter, count);
        return NonConvergence(count);
      }
      assert !Throws(pass, input, maxIter, count);
      strings := next.0;
      last := nodesCreated;
    }
    EarlierPassesContinued(pass, input, maxIter, count);
    return Converged(strings, count);
  }

  /** With the default threshold, the first five passes can never raise the error. */
  lemma DefaultThresholdGraceFivePasses(pass: NodingPass, input: seq<Line>, k: nat)
    requires Throws(pass, input, NewIteratedNoder().maxIter, k)
    ensures k >= 6
  {
  }
}
