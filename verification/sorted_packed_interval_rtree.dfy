/**
 * The static interval R-tree of `index/intervalrtree/SortedPackedIntervalRTree.java`.
 * Leaves are inserted until the first query; the first query sorts them and
 * packs them bottom-up into a binary tree, two nodes per parent, carrying an
 * odd last node up unchanged. The leaf comparator is not part of this model:
 * the sort is given as a permutation of leaf positions.
 */
module SortedPackedIntervalRTree {
  import opened Results
  import opened Permutation

  datatype Entry = Entry(min: int, max: int, item: nat)

  /** A leaf holds one entry; a branch's interval is the union hull of its children's. */
  datatype Node = Leaf(entry: Entry) | Branch(left: Node, right: Node)

  function NodeMin(n: Node): int {
    match n
    case Leaf(e) => e.min
    case Branch(l, r) => if NodeMin(l) <= NodeMin(r) then NodeMin(l) else NodeMin(r)
  }

  function NodeMax(n: Node): int {
    match n
    case Leaf(e) => e.max
    case Branch(l, r) => if NodeMax(l) >= NodeMax(r) then NodeMax(l) else NodeMax(r)
  }

  /** The closed intervals [min, max] and [qMin, qMax] meet. */
  predicate Meets(min: int, max: int, qMin: int, qMax: int) {
    !(min > qMax || max < qMin)
  }

  /** The entries of a subtree, left to right. */
  function LeavesOf(n: Node): seq<Entry> {
    match n
    case Leaf(e) => [e]
    case Branch(l, r) => LeavesOf(l) + LeavesOf(r)
  }

  function Flatten(ns: seq<Node>): seq<Entry> {
    if |ns| == 0 then [] else LeavesOf(ns[0]) + Flatten(ns[1..])
  }

  lemma {:induction false} FlattenAppend(a: seq<Node>, b: seq<Node>)
    ensures Flatten(a + b) == Flatten(a) + Flatten(b)
  {
    if |a| == 0 {
      assert a + b == b;
    } else {
      assert (a + b)[1..] == a[1..] + b;
      FlattenAppend(a[1..], b);
    }
  }

  datatype TreeError = QueriedBeforeInsert

  /** The index: the inserted leaves, and the root once the first query built it. */
  datatype Tree = Tree(leaves: seq<Entry>, root: Option<Node>)

  const EmptyTree := Tree([], None)

  /** `insert`: fails once the index has been queried, otherwise appends one leaf. */
  function Insert(t: Tree, min: int, max: int, item: nat): (r: Result<Tree, TreeError>)
    ensures r.Err? <==> t.root.Some?
    ensures r.Ok? ==> r.value.leaves == t.leaves + [Entry(min, max, item)] && r.value.root == None
  {
    if t.root.Some? then Err(QueriedBeforeInsert)
    else Ok(Tree(t.leaves + [Entry(min, max, item)], None))
  }

  /**
   * `buildLevel`: consecutive pairs of nodes become branches, an odd last
   * node is carried up; the level halves, rounding up, and the leaves keep
   * their left-to-right order.
   */
  function BuildLevel(src: seq<Node>): (dest: seq<Node>)
    ensures |dest| == (|src| + 1) / 2
    ensures forall k :: 0 <= k < |src| / 2 ==> dest[k] == Branch(src[2 * k], src[2 * k + 1])
    ensures |src| % 2 == 1 ==> dest[|dest| - 1] == src[|src| - 1]
  {
    if |src| == 0 then []
    else if |src| == 1 then [src[0]]
    else [Branch(src[0], src[1])] + BuildLevel(src[2..])
  }

  lemma {:induction false} BuildLevelKeepsLeaves(src: seq<Node>)
    ensures Flatten(BuildLevel(src)) == Flatten(src)
  {
    if |src| <= 1 {
    } else {
      var rest := BuildLevel(src[2..]);
      BuildLevelKeepsLeaves(src[2..]);
      FlattenAppend([Branch(src[0], src[1])], rest);
      assert src == [src[0], src[1]] + src[2..];
      FlattenAppend([src[0], src[1]], src[2..]);
      FlattenAppend([src[0]], [src[1]]);
    }
  }

  /**
   * `buildTree` after sorting: levels are built until one node is left.
   * It needs at least one leaf; see `EmptyLevelIsFixpoint`.
   */
  function BuildTree(src: seq<Node>): (root: Node)
    requires |src| >= 1
    decreases |src|
  {
    var dest := BuildLevel(src);
    if |dest| == 1 then dest[0] else BuildTree(dest)
  }

  /** The root holds every leaf of the bottom level, in order. */
  lemma {:induction false} BuildTreeKeepsLeaves(src: seq<Node>)
    requires |src| >= 1
    ensures LeavesOf(BuildTree(src)) == Flatten(src)
    decreases |src|
  {
    var dest := BuildLevel(src);
    BuildLevelKeepsLeaves(src);
    if |dest| == 1 {
      assert Flatten(dest) == LeavesOf(dest[0]) + Flatten(dest[1..]);
    } else {
      BuildTreeKeepsLeaves(dest);
    }
  }

  /** On zero leaves a level builds to zero nodes again, so `buildTree`'s loop never reaches one node. */
  lemma EmptyLevelIsFixpoint()
    ensures BuildLevel([]) == [] && |BuildLevel([])| != 1
  {
  }

  /** `IntervalRTreeNode.query`: a subtree whose interval misses the query is skipped whole. */
  function Visit(n: Node, qMin: int, qMax: int): seq<nat> {
    if !Meets(NodeMin(n), NodeMax(n), qMin, qMax) then []
    else match n
      case Leaf(e) => [e.item]
      case Branch(l, r) => Visit(l, qMin, qMax) + Visit(r, qMin, qMax)
  }

  /** The items of the entries meeting the query, in order. */
  function Matching(es: seq<Entry>, qMin: int, qMax: int): seq<nat> {
    if |es| == 0 then []
    else (if Meets(es[0].min, es[0].max, qMin, qMax) then [es[0].item] else []) + Matching(es[1..], qMin, qMax)
  }

  lemma {:induction false} MatchingAppend(a: seq<Entry>, b: seq<Entry>, qMin: int, qMax: int)
    ensures Matching(a + b, qMin, qMax) == Matching(a, qMin, qMax) + Matching(b, qMin, qMax)
  {
    if |a| == 0 {
      assert a + b == b;
    } else {
      var head := if Meets(a[0].min, a[0].max, qMin, qMax) then [a[0].item] else [];
      assert (a + b)[0] == a[0];
      assert (a + b)[1..] == a[1..] + b;
      MatchingAppend(a[1..], b, qMin, qMax);
      calc {
        Matching(a + b, qMin, qMax);
        head + Matching(a[1..] + b, qMin, qMax);
        head + (Matching(a[1..], qMin, qMax) + Matching(b, qMin, qMax));
        (head + Matching(a[1..], qMin, qMax)) + Matching(b, qMin, qMax);
      }
    }
  }

  /** Every entry lies inside its subtree's interval. */
  lemma {:induction false} LeavesInsideNode(n: Node, k: int)
    requires 0 <= k < |LeavesOf(n)|
    ensures NodeMin(n) <= LeavesOf(n)[k].min && LeavesOf(n)[k].max <= NodeMax(n)
  {
    match n
    case Leaf(e) =>
    case Branch(l, r) =>
      if k < |LeavesOf(l)| {
        LeavesInsideNode(l, k);
      } else {
        LeavesInsideNode(r, k - |LeavesOf(l)|);
      }
  }

  lemma {:induction false} NothingMatchesOutside(es: seq<Entry>, lo: int, hi: int, qMin: int, qMax: int)
    requires forall k :: 0 <= k < |es| ==> lo <= es[k].min && es[k].max <= hi
    requires !Meets(lo, hi, qMin, qMax)
    ensures Matching(es, qMin, qMax) == []
  {
    if |es| > 0 {
      NothingMatchesOutside(es[1..], lo, hi, qMin, qMax);
    }
  }

  /** Pruning loses nothing: the visit reports exactly the entries meeting the query. */
  lemma {:induction false} VisitFindsExactlyMatching(n: Node, qMin: int, qMax: int)
    ensures Visit(n, qMin, qMax) == Matching(LeavesOf(n), qMin, qMax)
  {
    if !Meets(NodeMin(n), NodeMax(n), qMin, qMax) {
      forall k | 0 <= k < |LeavesOf(n)|
        ensures NodeMin(n) <= LeavesOf(n)[k].min && LeavesOf(n)[k].max <= NodeMax(n)
      {
        LeavesInsideNode(n, k);
      }
      NothingMatchesOutside(LeavesOf(n), NodeMin(n), NodeMax(n), qMin, qMax);
    } else {
      match n
      case Leaf(e) =>
        assert Matching([e][1..], qMin, qMax) == [];
      case Branch(l, r) =>
        VisitFindsExactlyMatching(l, qMin, qMax);
        VisitFindsExactlyMatching(r, qMin, qMax);
        MatchingAppend(LeavesOf(l), LeavesOf(r), qMin, qMax);
    }
  }

  /**
   * The leaves in sorted order, one leaf node per entry: read back through
   * `Flatten` they are the entries rearranged by the sort, each entry as often
   * as it was inserted.
   */
  function SortedLeaves(leaves: seq<Entry>, order: seq<nat>): (r: seq<Node>)
    requires IsPermutation(order, |leaves|)
    ensures |r| == |leaves|
    ensures forall p :: 0 <= p < |r| ==> r[p].Leaf?
    ensures Flatten(r) == Permuted(leaves, order)
    ensures multiset(Flatten(r)) == multiset(leaves)
  {
    var r := seq(|leaves|, p requires 0 <= p < |leaves| => Leaf(leaves[order[p]]));
    FlattenLeaves(r);
    PermutedMultiset(leaves, order);
    r
  }

  lemma {:induction false} FlattenLeaves(ns: seq<Node>)
    requires forall p :: 0 <= p < |ns| ==> ns[p].Leaf?
    ensures |Flatten(ns)| == |ns|
    ensures forall p :: 0 <= p < |ns| ==> Flatten(ns)[p] == ns[p].entry
  {
    if |ns| > 0 {
      FlattenLeaves(ns[1..]);
    }
  }

  /**
   * `query`: builds the root on first use (never again), then reports the
   * item of every leaf whose interval meets [qMin, qMax], in sorted-leaf order.
   * The index must hold a leaf; `QueryOrNothing` is the version that does not
   * need one.
   */
  method Query(t: Tree, order: seq<nat>, qMin: int, qMax: int) returns (r: Tree, items: seq<nat>)
    requires t.root.None? ==> |t.leaves| >= 1 && IsPermutation(order, |t.leaves|)
    ensures r.leaves == t.leaves && r.root.Some?
    ensures t.root.Some? ==> r.root == t.root
    ensures t.root.None? ==> LeavesOf(r.root.value) == Flatten(SortedLeaves(t.leaves, order))
    ensures items == Matching(LeavesOf(r.root.value), qMin, qMax)
  {
    var root: Node;
    if t.root.Some? {
      root := t.root.value;
    } else {
      root := BuildTree(SortedLeaves(t.leaves, order));
      BuildTreeKeepsLeaves(SortedLeaves(t.leaves, order));
    }
    r := Tree(t.leaves, Some(root));
    items := Visit(root, qMin, qMax);
    VisitFindsExactlyMatching(root, qMin, qMax);
  }

  /** The first query's root holds exactly the inserted entries, rearranged by the sort. */
  lemma FirstQueryRootHoldsSortedLeaves(leaves: seq<Entry>, order: seq<nat>)
    requires |leaves| >= 1 && IsPermutation(order, |leaves|)
    ensures |LeavesOf(BuildTree(SortedLeaves(leaves, order)))| == |leaves|
    ensures forall p :: 0 <= p < |leaves| ==> LeavesOf(BuildTree(SortedLeaves(leaves, order)))[p] == leaves[order[p]]
    ensures multiset(LeavesOf(BuildTree(SortedLeaves(leaves, order)))) == multiset(leaves)
  {
    BuildTreeKeepsLeaves(SortedLeaves(leaves, order));
    FlattenLeaves(SortedLeaves(leaves, order));
  }

  /** The evidently intended `query`: an index with no leaves reports nothing instead of looping. */
  method QueryOrNothing(t: Tree, order: seq<nat>, qMin: int, qMax: int) returns (r: Tree, items: seq<nat>)
    requires t.root.None? ==> IsPermutation(order, |t.leaves|)
    ensures r.leaves == t.leaves
    ensures |t.leaves| == 0 && t.root.None? ==> items == [] && r == t
    ensures r.root.Some? ==> items == Matching(LeavesOf(r.root.value), qMin, qMax)
    ensures r.root.Some? || items == []
  {
    if t.root.None? && |t.leaves| == 0 {
      return t, [];
    }
    r, items := Query(t, order, qMin, qMax);
  }
}
