/**
 * Rearrangements by a permutation of positions. The comparator sorts of the
 * modelled classes (`Collections.sort` of sweep-line events and of interval
 * leaves) are not modelled order by order; a sort is given as the
 * permutation it applies.
 */
module Permutation {

  /** `order` lists every position below `n` exactly once. */
  predicate IsPermutation(order: seq<nat>, n: nat) {
    && |order| == n
    && (forall p :: 0 <= p < n ==> order[p] < n)
    && (forall p, q :: 0 <= p < q < n ==> order[p] != order[q])
    && (forall v :: 0 <= v < n ==> v in order)
  }

  /** `s` rearranged so that position `p` holds `s[order[p]]`. */
  function Permuted<T>(s: seq<T>, order: seq<nat>): (r: seq<T>)
    requires IsPermutation(order, |s|)
    ensures |r| == |s|
    ensures forall p :: 0 <= p < |r| ==> r[p] == s[order[p]]
  {
    seq(|s|, p requires 0 <= p < |s| => s[order[p]])
  }

  /** Dropping the position that holds the largest value leaves a permutation of the smaller range. */
  lemma DropLargest(order: seq<nat>, n: nat, q: nat)
    requires n > 0 && IsPermutation(order, n) && q < n && order[q] == n - 1
    ensures IsPermutation(order[..q] + order[q + 1..], n - 1)
  {
    var o := order[..q] + order[q + 1..];
    assert forall p :: 0 <= p < n - 1 ==> o[p] == order[if p < q then p else p + 1];
    forall v | 0 <= v < n - 1
      ensures v in o
    {
      assert v in order;
      var p :| 0 <= p < n && order[p] == v;
      assert p != q;
      if p < q {
        assert o[p] == v;
      } else {
        assert o[p - 1] == v;
      }
    }
  }

  /** Rearranging all but the last element by the shortened order is the rearrangement with that element's slot cut out. */
  lemma PermutedDropLargest<T>(s: seq<T>, order: seq<nat>, q: nat)
    requires |s| > 0 && IsPermutation(order, |s|) && q < |s| && order[q] == |s| - 1
    ensures IsPermutation(order[..q] + order[q + 1..], |s| - 1)
    ensures var t := Permuted(s, order);
      Permuted(s[..|s| - 1], order[..q] + order[q + 1..]) == t[..q] + t[q + 1..]
  {
    var n := |s|;
    var o := order[..q] + order[q + 1..];
    DropLargest(order, n, q);
    var t := Permuted(s, order);
    var u := Permuted(s[..n - 1], o);
    forall p | 0 <= p < n - 1
      ensures u[p] == (t[..q] + t[q + 1..])[p]
    {
      var p' := if p < q then p else p + 1;
      assert o[p] == order[p'];
      assert (t[..q] + t[q + 1..])[p] == t[p'];
    }
  }

  /** Cutting one element out of `t` leaves a rearrangement of `s` without its last element: `t` rearranges `s`. */
  lemma MultisetCut<T>(s: seq<T>, t: seq<T>, u: seq<T>, q: nat)
    requires |s| > 0 && q < |t| && t[q] == s[|s| - 1]
    requires u == t[..q] + t[q + 1..] && multiset(u) == multiset(s[..|s| - 1])
    ensures multiset(t) == multiset(s)
  {
    assert t == t[..q] + [t[q]] + t[q + 1..];
    assert s == s[..|s| - 1] + [s[|s| - 1]];
  }

  /** The position holding the largest value of a permutation of a non-empty range. */
  lemma LargestAt(order: seq<nat>, n: nat) returns (q: nat)
    requires n > 0 && IsPermutation(order, n)
    ensures q < n && order[q] == n - 1
  {
    assert n - 1 in order;
    q :| 0 <= q < n && order[q] == n - 1;
  }

  /** A rearrangement keeps every element with its multiplicity. */
  lemma {:induction false} PermutedMultiset<T>(s: seq<T>, order: seq<nat>)
    requires IsPermutation(order, |s|)
    ensures multiset(Permuted(s, order)) == multiset(s)
    decreases |s|
  {
    if |s| > 0 {
      var q := LargestAt(order, |s|);
      PermutedDropLargest(s, order, q);
      var o := order[..q] + order[q + 1..];
      PermutedMultiset(s[..|s| - 1], o);
      MultisetCut(s, Permuted(s, order), Permuted(s[..|s| - 1], o), q);
    }
  }
}
