/**
 * The shared node behaviour of the quadtree, `index/quadtree/NodeBase.java`:
 * the quadrant choice for an envelope, and the recursive item operations of
 * a node with its own items and (normally four) subnode slots.
 *
 * `isSearchMatch` is abstract in the source (a node tests its envelope, the
 * root matches everything), so it is a parameter here. Items are compared
 * by value, as `List.remove(Object)` compares them with `equals`.
 */
module QuadtreeNode {
  import opened Geom
  import opened Results

  type Item = nat

  /**
   * `getSubnodeIndex`: the later tests override the earlier ones, in the
   * order 3, 1, 2, 0, and -1 stays when no test passes.
   */
  function GetSubnodeIndex(env: Envelope, centreX: int, centreY: int): (r: int)
    ensures -1 <= r <= 3
    ensures r == 3 ==> env.minX >= centreX && env.minY >= centreY
    ensures r == 1 ==> env.minX >= centreX && env.maxY <= centreY
    ensures r == 2 ==> env.maxX <= centreX && env.minY >= centreY
    ensures r == 0 ==> env.maxX <= centreX && env.maxY <= centreY
    ensures r == -1 <==> !(env.minX >= centreX || env.maxX <= centreX) || !(env.minY >= centreY || env.maxY <= centreY)
  {
    var r0 := -1;
    var r1 := if env.minX >= centreX && env.minY >= centreY then 3 else r0;
    var r2 := if env.minX >= centreX && env.maxY <= centreY then 1 else r1;
    var r3 := if env.maxX <= centreX && env.minY >= centreY then 2 else r2;
    if env.maxX <= centreX && env.maxY <= centreY then 0 else r3
  }

  /** For a proper envelope, no quadrant holds it exactly when it straddles a centre line. */
  lemma NoQuadrantIffStraddles(env: Envelope, centreX: int, centreY: int)
    requires ValidEnvelope(env)
    ensures GetSubnodeIndex(env, centreX, centreY) == -1 <==>
      (env.minX < centreX < env.maxX) || (env.minY < centreY < env.maxY)
  {
  }

  /** A point exactly on the centre is given to quadrant 0, the last test that passes. */
  lemma CentrePointGoesToQuadrantZero(c: int)
    ensures GetSubnodeIndex(Envelope(c, c, c, c), c, c) == 0
  {
  }

  /** A node: its envelope, its own items, and its subnode slots (2 | 3 above 0 | 1). */
  datatype QNode = QNode(env: Envelope, items: seq<Item>, subnode: seq<Option<QNode>>)

  function EmptyNode(env: Envelope): (r: QNode)
    ensures |r.subnode| == 4 && r.items == []
  {
    QNode(env, [], [None, None, None, None])
  }

  type SearchMatch = QNode -> bool

  ghost predicate AllMatch(isSearchMatch: SearchMatch) {
    forall q :: isSearchMatch(q)
  }

  /** Every item of a subtree: the node's own, then each slot's subtree in slot order. */
  ghost function AllItems(n: QNode): seq<Item>
    decreases n, 1
  {
    n.items + SlotsItems(n, 0)
  }

  ghost function SlotsItems(n: QNode, i: nat): seq<Item>
    requires i <= |n.subnode|
    decreases n, 0, |n.subnode| - i
  {
    if i == |n.subnode| then []
    else (if n.subnode[i].Some? then AllItems(n.subnode[i].value) else []) + SlotsItems(n, i + 1)
  }

  ghost function SlotItems(o: Option<QNode>): seq<Item> {
    if o.Some? then AllItems(o.value) else []
  }

  /** `size`: the item count of the subtree. */
  function Size(n: QNode): (r: nat)
    ensures r == |AllItems(n)|
    decreases n, 1
  {
    SlotsSize(n, 0) + |n.items|
  }

  function SlotsSize(n: QNode, i: nat): (r: nat)
    requires i <= |n.subnode|
    ensures r == |SlotsItems(n, i)|
    decreases n, 0, |n.subnode| - i
  {
    if i == |n.subnode| then 0
    else (if n.subnode[i].Some? then Size(n.subnode[i].value) else 0) + SlotsSize(n, i + 1)
  }

  /** `addAllItems`: appends the subtree's items to `acc`, the node's own first. */
  function AddAllItems(n: QNode, acc: seq<Item>): (r: seq<Item>)
    ensures r == acc + AllItems(n)
    decreases n, 1
  {
    SlotsAddAll(n, 0, acc + n.items)
  }

  function SlotsAddAll(n: QNode, i: nat, acc: seq<Item>): (r: seq<Item>)
    requires i <= |n.subnode|
    ensures r == acc + SlotsItems(n, i)
    decreases n, 0, |n.subnode| - i
  {
    if i == |n.subnode| then acc
    else
      var mid := if n.subnode[i].Some? then AddAllItems(n.subnode[i].value, acc) else acc;
      assert SlotsItems(n, i) == SlotItems(n.subnode[i]) + SlotsItems(n, i + 1);
      assert mid == acc + SlotItems(n.subnode[i]);
      var r := SlotsAddAll(n, i + 1, mid);
      assert r == acc + (SlotItems(n.subnode[i]) + SlotsItems(n, i + 1));
      r
  }

  /** `addAllItems` on an empty list holds exactly `size` items. */
  lemma AddAllItemsCountsSize(n: QNode)
    ensures |AddAllItems(n, [])| == Size(n)
  {
  }

  /**
   * The items an overlap query reports: nothing from a subtree whose node
   * is not a search match, otherwise the node's own items and then the
   * matched items of each slot's subtree in slot order.
   */
  ghost function MatchedItems(n: QNode, isSearchMatch: SearchMatch): seq<Item>
    decreases n, 1
  {
    if !isSearchMatch(n) then [] else n.items + SlotsMatched(n, isSearchMatch, 0)
  }

  ghost function SlotsMatched(n: QNode, isSearchMatch: SearchMatch, i: nat): seq<Item>
    requires i <= |n.subnode|
    decreases n, 0, |n.subnode| - i
  {
    if i == |n.subnode| then []
    else
      var here := if n.subnode[i].Some? then MatchedItems(n.subnode[i].value, isSearchMatch) else [];
      here + SlotsMatched(n, isSearchMatch, i + 1)
  }

  ghost function SlotMatched(o: Option<QNode>, isSearchMatch: SearchMatch): seq<Item> {
    if o.Some? then MatchedItems(o.value, isSearchMatch) else []
  }

  /**
   * `addAllItemsFromOverlapping`: a subtree whose node is not a search
   * match is skipped whole; otherwise the node's items and then each
   * slot's matches are appended.
   */
  function AddAllItemsFromOverlapping(n: QNode, isSearchMatch: SearchMatch, acc: seq<Item>): (r: seq<Item>)
    ensures |acc| <= |r| && r[..|acc|] == acc
    ensures multiset(r[|acc|..]) <= multiset(AllItems(n))
    ensures isSearchMatch(n) ==> |acc| + |n.items| <= |r| && r[|acc|..|acc| + |n.items|] == n.items
    ensures !isSearchMatch(n) ==> r == acc
    ensures AllMatch(isSearchMatch) ==> r == acc + AllItems(n)
    ensures r == acc + MatchedItems(n, isSearchMatch)
    decreases n, 1
  {
    if !isSearchMatch(n) then acc
    else
      MatchedNode(n, isSearchMatch, acc);
      SlotsOverlapping(n, isSearchMatch, 0, acc + n.items)
  }

  /** A matching node contributes its own items, then what its slots contribute. */
  lemma MatchedNode(n: QNode, isSearchMatch: SearchMatch, acc: seq<Item>)
    ensures var r := SlotsOverlapping(n, isSearchMatch, 0, acc + n.items);
      && |acc| <= |r| && r[..|acc|] == acc
      && multiset(r[|acc|..]) <= multiset(AllItems(n))
      && |acc| + |n.items| <= |r| && r[|acc|..|acc| + |n.items|] == n.items
      && (AllMatch(isSearchMatch) ==> r == acc + AllItems(n))
      && (isSearchMatch(n) ==> r == acc + MatchedItems(n, isSearchMatch))
    decreases n, 0, |n.subnode| + 1
  {
    var r := SlotsOverlapping(n, isSearchMatch, 0, acc + n.items);
    assert AllItems(n) == n.items + SlotsItems(n, 0);
    OwnItemsThenSlots(acc, n.items, SlotsItems(n, 0), r);
    if isSearchMatch(n) {
      Associate(acc, n.items, SlotsMatched(n, isSearchMatch, 0), r);
    }
  }

  /** Appending two lists in turn is appending their concatenation. */
  lemma Associate(acc: seq<Item>, a: seq<Item>, b: seq<Item>, r: seq<Item>)
    requires r == acc + a + b
    ensures r == acc + (a + b)
  {
  }

  /** Appending a node's own items and then matches drawn from its slots keeps the node's items in place. */
  lemma OwnItemsThenSlots(acc: seq<Item>, items: seq<Item>, slots: seq<Item>, r: seq<Item>)
    requires |acc + items| <= |r| && r[..|acc + items|] == acc + items
    requires multiset(r[|acc + items|..]) <= multiset(slots)
    ensures |acc| <= |r| && r[..|acc|] == acc
    ensures multiset(r[|acc|..]) <= multiset(items + slots)
    ensures |acc| + |items| <= |r| && r[|acc|..|acc| + |items|] == items
    ensures r == acc + items + slots ==> r == acc + (items + slots)
  {
    var mid := acc + items;
    PrefixChain(acc, mid, r);
    assert mid[|acc|..] == items;
    assert r[|acc|..|acc| + |items|] == r[..|mid|][|acc|..];
  }

  /** Extending a list twice keeps the first prefix and splits the added tail at the middle. */
  lemma PrefixChain(acc: seq<Item>, mid: seq<Item>, r: seq<Item>)
    requires |acc| <= |mid| <= |r| && mid[..|acc|] == acc && r[..|mid|] == mid
    ensures r[..|acc|] == acc && r[|acc|..] == mid[|acc|..] + r[|mid|..]
  {
    assert r[..|acc|] == r[..|mid|][..|acc|];
  }

  /** Two successive extensions, each drawn from its own pool, draw the whole tail from both pools. */
  lemma ExtendTwice(acc: seq<Item>, mid: seq<Item>, r: seq<Item>, a: seq<Item>, b: seq<Item>)
    requires |acc| <= |mid| && mid[..|acc|] == acc && multiset(mid[|acc|..]) <= multiset(a)
    requires |mid| <= |r| && r[..|mid|] == mid && multiset(r[|mid|..]) <= multiset(b)
    ensures r[..|acc|] == acc && multiset(r[|acc|..]) <= multiset(a + b)
    ensures mid == acc + a && r == mid + b ==> r == acc + (a + b)
  {
    PrefixChain(acc, mid, r);
  }

  function SlotsOverlapping(n: QNode, isSearchMatch: SearchMatch, i: nat, acc: seq<Item>): (r: seq<Item>)
    requires i <= |n.subnode|
    ensures |acc| <= |r| && r[..|acc|] == acc
    ensures multiset(r[|acc|..]) <= multiset(SlotsItems(n, i))
    ensures AllMatch(isSearchMatch) ==> r == acc + SlotsItems(n, i)
    ensures r == acc + SlotsMatched(n, isSearchMatch, i)
    decreases n, 0, |n.subnode| - i
  {
    if i == |n.subnode| then acc
    else
      var mid := SlotOverlapping(n.subnode[i], isSearchMatch, acc);
      var r := SlotsOverlapping(n, isSearchMatch, i + 1, mid);
      assert SlotsItems(n, i) == SlotItems(n.subnode[i]) + SlotsItems(n, i + 1);
      ExtendTwice(acc, mid, r, SlotItems(n.subnode[i]), SlotsItems(n, i + 1));
      assert SlotsMatched(n, isSearchMatch, i) == SlotMatched(n.subnode[i], isSearchMatch) + SlotsMatched(n, isSearchMatch, i + 1);
      Associate(acc, SlotMatched(n.subnode[i], isSearchMatch), SlotsMatched(n, isSearchMatch, i + 1), r);
      r
  }

  /** One slot of `addAllItemsFromOverlapping`: an empty slot adds nothing. */
  function SlotOverlapping(o: Option<QNode>, isSearchMatch: SearchMatch, acc: seq<Item>): (r: seq<Item>)
    ensures |acc| <= |r| && r[..|acc|] == acc
    ensures multiset(r[|acc|..]) <= multiset(SlotItems(o))
    ensures AllMatch(isSearchMatch) ==> r == acc + SlotItems(o)
    ensures r == acc + SlotMatched(o, isSearchMatch)
    decreases o, 2
  {
    if o.Some? then AddAllItemsFromOverlapping(o.value, isSearchMatch, acc) else acc
  }

  /** `visit`: the visitor receives the same items, in the same order, as `addAllItemsFromOverlapping` collects. */
  function Visit(n: QNode, isSearchMatch: SearchMatch, visited: seq<Item>): (r: seq<Item>)
    ensures r == visited + MatchedItems(n, isSearchMatch)
    decreases n, 1
  {
    if !isSearchMatch(n) then visited
    else
      var r := SlotsVisit(n, isSearchMatch, 0, visited + n.items);
      Associate(visited, n.items, SlotsMatched(n, isSearchMatch, 0), r);
      r
  }

  function SlotsVisit(n: QNode, isSearchMatch: SearchMatch, i: nat, visited: seq<Item>): (r: seq<Item>)
    requires i <= |n.subnode|
    ensures r == visited + SlotsMatched(n, isSearchMatch, i)
    decreases n, 0, |n.subnode| - i
  {
    if i == |n.subnode| then visited
    else
      var mid := if n.subnode[i].Some? then Visit(n.subnode[i].value, isSearchMatch, visited) else visited;
      var r := SlotsVisit(n, isSearchMatch, i + 1, mid);
      assert SlotsMatched(n, isSearchMatch, i) == SlotMatched(n.subnode[i], isSearchMatch) + SlotsMatched(n, isSearchMatch, i + 1);
      Associate(visited, SlotMatched(n.subnode[i], isSearchMatch), SlotsMatched(n, isSearchMatch, i + 1), r);
      r
  }

  lemma {:induction false} VisitIsOverlapping(n: QNode, isSearchMatch: SearchMatch, acc: seq<Item>)
    ensures Visit(n, isSearchMatch, acc) == AddAllItemsFromOverlapping(n, isSearchMatch, acc)
    decreases n, 1
  {
    if isSearchMatch(n) {
      SlotsVisitIsOverlapping(n, isSearchMatch, 0, acc + n.items);
    }
  }

  lemma {:induction false} SlotsVisitIsOverlapping(n: QNode, isSearchMatch: SearchMatch, i: nat, acc: seq<Item>)
    requires i <= |n.subnode|
    ensures SlotsVisit(n, isSearchMatch, i, acc) == SlotsOverlapping(n, isSearchMatch, i, acc)
    decreases n, 0, |n.subnode| - i
  {
    if i < |n.subnode| {
      if n.subnode[i].Some? {
        VisitIsOverlapping(n.subnode[i].value, isSearchMatch, acc);
        SlotsVisitIsOverlapping(n, isSearchMatch, i + 1, Visit(n.subnode[i].value, isSearchMatch, acc));
      } else {
        SlotsVisitIsOverlapping(n, isSearchMatch, i + 1, acc);
      }
    }
  }

  /** `hasChildren`: some slot is occupied; a node without children holds only its own items. */
  function HasChildren(n: QNode): (r: bool)
    ensures r <==> exists i :: 0 <= i < |n.subnode| && n.subnode[i].Some?
    ensures !r ==> AllItems(n) == n.items && Size(n) == |n.items|
  {
    var r := exists i :: 0 <= i < |n.subnode| && n.subnode[i].Some?;
    if r then r
    else
      NoSlotsNoItems(n, 0);
      r
  }

  /** A node has children exactly when its subtree is more than one level deep. */
  lemma HasChildrenIffDeeper(n: QNode)
    ensures HasChildren(n) <==> Depth(n) > 1
  {
    if HasChildren(n) {
      var i :| 0 <= i < |n.subnode| && n.subnode[i].Some?;
      SlotsDepthIsMax(n, 0, i);
    } else if SlotsDepth(n, 0) > 0 {
      var t := SlotsDepthAttained(n, 0);
      assert false;
    }
  }

  /** `isPrunable`: neither subnodes nor items of its own. */
  function IsPrunable(n: QNode): (r: bool)
    ensures r <==> n.items == [] && forall i :: 0 <= i < |n.subnode| ==> n.subnode[i].None?
  {
    !(HasChildren(n) || |n.items| > 0)
  }

  /** `isEmpty`: no items here and every present subnode is empty. */
  function IsEmpty(n: QNode): bool
    decreases n, 1
  {
    |n.items| == 0 && SlotsEmpty(n, 0)
  }

  function SlotsEmpty(n: QNode, i: nat): bool
    requires i <= |n.subnode|
    decreases n, 0, |n.subnode| - i
  {
    i == |n.subnode| || ((n.subnode[i].None? || IsEmpty(n.subnode[i].value)) && SlotsEmpty(n, i + 1))
  }

  /** A subtree is empty exactly when it holds no items, although empty subnodes may remain. */
  lemma {:induction false} IsEmptyIffNoItems(n: QNode)
    ensures IsEmpty(n) <==> Size(n) == 0
    decreases n, 1
  {
    SlotsEmptyIffNoItems(n, 0);
  }

  lemma {:induction false} SlotsEmptyIffNoItems(n: QNode, i: nat)
    requires i <= |n.subnode|
    ensures SlotsEmpty(n, i) <==> SlotsSize(n, i) == 0
    decreases n, 0, |n.subnode| - i
  {
    if i < |n.subnode| {
      if n.subnode[i].Some? {
        IsEmptyIffNoItems(n.subnode[i].value);
      }
      SlotsEmptyIffNoItems(n, i + 1);
    }
  }

  /** `list.remove(item)`: drops the first occurrence, if any. */
  function RemoveFirst(s: seq<Item>, x: Item): (r: seq<Item>)
    ensures x in s ==> multiset(r) == multiset(s) - multiset{x} && |r| == |s| - 1
    ensures x !in s ==> r == s
  {
    if |s| == 0 then s
    else if s[0] == x then
      assert s == [s[0]] + s[1..];
      s[1..]
    else
      var t := RemoveFirst(s[1..], x);
      assert s == [s[0]] + s[1..];
      [s[0]] + t
  }

  /** Replacing slot `i` changes the slot items from `j <= i` on by exactly the swapped subtree. */
  lemma {:induction false} ReplaceSlot(n: QNode, m: QNode, i: nat, j: nat)
    requires j <= i < |n.subnode| == |m.subnode|
    requires forall t :: 0 <= t < |n.subnode| && t != i ==> m.subnode[t] == n.subnode[t]
    ensures multiset(SlotsItems(m, j)) + multiset(SlotItems(n.subnode[i])) ==
            multiset(SlotsItems(n, j)) + multiset(SlotItems(m.subnode[i]))
    decreases i - j
  {
    if j == i {
      ReplaceSlotHere(n, m, i);
    } else {
      ReplaceSlot(n, m, i, j + 1);
      ReplaceSlotBefore(n, m, i, j);
    }
  }

  /** At the replaced slot itself the two sums differ only in which subtree heads them. */
  lemma ReplaceSlotHere(n: QNode, m: QNode, i: nat)
    requires i < |n.subnode| == |m.subnode|
    requires forall t :: 0 <= t < |n.subnode| && t != i ==> m.subnode[t] == n.subnode[t]
    ensures multiset(SlotsItems(m, i)) + multiset(SlotItems(n.subnode[i])) ==
            multiset(SlotsItems(n, i)) + multiset(SlotItems(m.subnode[i]))
  {
    SlotsUnfold(m, i);
    SlotsUnfold(n, i);
    SlotsAfterSame(n, m, i + 1);
    var rest := multiset(SlotsItems(n, i + 1));
    assert multiset(SlotsItems(m, i + 1)) == rest;
    MultisetSwap(multiset(SlotsItems(m, i)), multiset(SlotsItems(n, i)),
      multiset(SlotItems(m.subnode[i])), multiset(SlotItems(n.subnode[i])), rest);
  }

  /** An unchanged slot before the replaced one adds the same items to both sums. */
  lemma ReplaceSlotBefore(n: QNode, m: QNode, i: nat, j: nat)
    requires j < i < |n.subnode| == |m.subnode|
    requires m.subnode[j] == n.subnode[j]
    requires multiset(SlotsItems(m, j + 1)) + multiset(SlotItems(n.subnode[i])) ==
             multiset(SlotsItems(n, j + 1)) + multiset(SlotItems(m.subnode[i]))
    ensures multiset(SlotsItems(m, j)) + multiset(SlotItems(n.subnode[i])) ==
            multiset(SlotsItems(n, j)) + multiset(SlotItems(m.subnode[i]))
  {
    SlotsUnfold(m, j);
    SlotsUnfold(n, j);
    MultisetStep(multiset(SlotItems(n.subnode[j])), multiset(SlotsItems(m, j + 1)), multiset(SlotsItems(n, j + 1)),
      multiset(SlotItems(n.subnode[i])), multiset(SlotItems(m.subnode[i])));
  }

  /** Two sums sharing a tail, each topped up with the other's head, are equal. */
  lemma MultisetSwap(x: multiset<Item>, y: multiset<Item>, a: multiset<Item>, b: multiset<Item>, rest: multiset<Item>)
    requires x == a + rest && y == b + rest
    ensures x + b == y + a
  {
    forall e ensures (x + b)[e] == (y + a)[e] {
    }
  }

  lemma SlotsUnfold(n: QNode, j: nat)
    requires j < |n.subnode|
    ensures multiset(SlotsItems(n, j)) == multiset(SlotItems(n.subnode[j])) + multiset(SlotsItems(n, j + 1))
  {
  }

  lemma MultisetStep(h: multiset<Item>, mRest: multiset<Item>, nRest: multiset<Item>, o: multiset<Item>, w: multiset<Item>)
    requires mRest + o == nRest + w
    ensures (h + mRest) + o == (h + nRest) + w
  {
    forall y ensures ((h + mRest) + o)[y] == ((h + nRest) + w)[y] {
      assert (mRest + o)[y] == (nRest + w)[y];
    }
  }

  lemma {:induction false} SlotsAfterSame(n: QNode, m: QNode, k: nat)
    requires |n.subnode| == |m.subnode| && k <= |n.subnode|
    requires forall t :: k <= t < |n.subnode| ==> n.subnode[t] == m.subnode[t]
    ensures SlotsItems(m, k) == SlotsItems(n, k)
    decreases |n.subnode| - k
  {
    if k < |n.subnode| {
      SlotsAfterSame(n, m, k + 1);
    }
  }

  /**
   * `remove`: searches only subtrees that are search matches; the first
   * subnode that removes the item ends the search and is dropped if it
   * became prunable; otherwise the first occurrence in the node's own items
   * is removed. Success removes exactly one occurrence of the item; failure
   * changes nothing; when every node matches, the item is found whenever
   * the subtree holds it.
   */
  function Remove(n: QNode, isSearchMatch: SearchMatch, item: Item): (r: (QNode, bool))
    ensures !r.1 ==> r.0 == n
    ensures r.1 ==> (item in multiset(AllItems(n)) &&
      multiset(AllItems(r.0)) == multiset(AllItems(n)) - multiset{item})
    ensures r.1 ==> Size(r.0) == Size(n) - 1
    ensures |r.0.subnode| == |n.subnode| && r.0.env == n.env
    ensures !isSearchMatch(n) ==> r == (n, false)
    decreases n, 1
  {
    if !isSearchMatch(n) then (n, false)
    else
      var (m, found) := RemoveFromSlots(n, isSearchMatch, item, 0);
      if found then
        MultisetRemoveRight(multiset(n.items), multiset(SlotsItems(n, 0)), item);
        SizeDrops(AllItems(m), AllItems(n), item);
        (m, true)
      else if item in n.items then
        var m2 := n.(items := RemoveFirst(n.items, item));
        SlotsAfterSame(n, m2, 0);
        MultisetRemoveLeft(multiset(n.items), multiset(SlotsItems(n, 0)), item);
        SizeDrops(AllItems(m2), AllItems(n), item);
        (m2, true)
      else (n, false)
  }

  lemma MultisetRemoveRight(a: multiset<Item>, b: multiset<Item>, x: Item)
    requires x in b
    ensures a + (b - multiset{x}) == (a + b) - multiset{x} && x in a + b
  {
  }

  lemma MultisetRemoveLeft(a: multiset<Item>, b: multiset<Item>, x: Item)
    requires x in a
    ensures (a - multiset{x}) + b == (a + b) - multiset{x} && x in a + b
  {
  }

  /** If `x + a` and `b + (a - {item})` agree and `a` holds the item, then `x` is `b` less the item. */
  lemma MultisetCancel(x: multiset<Item>, a: multiset<Item>, b: multiset<Item>, item: Item)
    requires item in a && x + a == b + (a - multiset{item})
    ensures item in b && x == b - multiset{item}
  {
    assert (x + a)[item] == (b + (a - multiset{item}))[item];
    forall y ensures x[y] == (b - multiset{item})[y] {
      assert (x + a)[y] == (b + (a - multiset{item}))[y];
    }
  }

  lemma SizeDrops(a: seq<Item>, b: seq<Item>, x: Item)
    requires x in multiset(b) && multiset(a) == multiset(b) - multiset{x}
    ensures |a| == |b| - 1
  {
    assert |multiset(a)| == |multiset(b)| - 1;
  }

  /** A node with no subnodes holds only its own items. */
  lemma {:induction false} NoSlotsNoItems(n: QNode, i: nat)
    requires i <= |n.subnode| && forall t :: 0 <= t < |n.subnode| ==> n.subnode[t].None?
    ensures SlotsItems(n, i) == []
    decreases |n.subnode| - i
  {
    if i < |n.subnode| {
      NoSlotsNoItems(n, i + 1);
    }
  }

  /** The slot loop of `remove`, from slot `i` on; only slots at or after `i` may change, and the node's items never do. */
  function RemoveFromSlots(n: QNode, isSearchMatch: SearchMatch, item: Item, i: nat): (r: (QNode, bool))
    requires i <= |n.subnode|
    ensures !r.1 ==> r.0 == n
    ensures r.0.items == n.items && |r.0.subnode| == |n.subnode| && r.0.env == n.env
    ensures r.1 ==> (item in multiset(SlotsItems(n, i)) &&
      multiset(SlotsItems(r.0, i)) == multiset(SlotsItems(n, i)) - multiset{item})
    ensures forall t :: 0 <= t < i ==> r.0.subnode[t] == n.subnode[t]
    decreases n, 0, |n.subnode| - i, 2
  {
    if i == |n.subnode| then (n, false)
    else if n.subnode[i].None? then
      var r := RemoveFromSlots(n, isSearchMatch, item, i + 1);
      SlotsAfterPrefix(n, r.0, i);
      r
    else RemoveAtSlot(n, isSearchMatch, item, i)
  }

  /** One pass of the slot loop at an occupied slot: the first subnode that removes the item ends the loop. */
  function RemoveAtSlot(n: QNode, isSearchMatch: SearchMatch, item: Item, i: nat): (r: (QNode, bool))
    requires i < |n.subnode| && n.subnode[i].Some?
    ensures !r.1 ==> r.0 == n
    ensures r.0.items == n.items && |r.0.subnode| == |n.subnode| && r.0.env == n.env
    ensures r.1 ==> (item in multiset(SlotsItems(n, i)) &&
      multiset(SlotsItems(r.0, i)) == multiset(SlotsItems(n, i)) - multiset{item})
    ensures forall t :: 0 <= t < i ==> r.0.subnode[t] == n.subnode[t]
    ensures var c := Remove(n.subnode[i].value, isSearchMatch, item);
      c.1 ==> r.1 && r.0.subnode[i] == (if IsPrunable(c.0) then None else Some(c.0))
    decreases n, 0, |n.subnode| - i, 1
  {
    var child := n.subnode[i].value;
    var (c, found) := Remove(child, isSearchMatch, item);
    if found then
      RemovedFromChild(n, isSearchMatch, item, i);
      (n.(subnode := n.subnode[i := if IsPrunable(c) then None else Some(c)]), true)
    else
      var r := RemoveFromSlots(n, isSearchMatch, item, i + 1);
      if r.1 then
        SlotsAfterPrefix(n, r.0, i);
        MultisetRemoveRight(multiset(AllItems(child)), multiset(SlotsItems(n, i + 1)), item);
        r
      else r
  }

  /** The subnode at slot `i` removed the item: the slot takes the new subnode, or is emptied if it became prunable. */
  lemma RemovedFromChild(n: QNode, isSearchMatch: SearchMatch, item: Item, i: nat)
    requires i < |n.subnode| && n.subnode[i].Some?
    requires Remove(n.subnode[i].value, isSearchMatch, item).1
    ensures var c := Remove(n.subnode[i].value, isSearchMatch, item).0;
      var m := n.(subnode := n.subnode[i := if IsPrunable(c) then None else Some(c)]);
      item in multiset(SlotsItems(n, i)) &&
      multiset(SlotsItems(m, i)) == multiset(SlotsItems(n, i)) - multiset{item}
    decreases n, 0, |n.subnode| - i, 0
  {
    var child := n.subnode[i].value;
    var c := Remove(child, isSearchMatch, item).0;
    var m := n.(subnode := n.subnode[i := if IsPrunable(c) then None else Some(c)]);
    if IsPrunable(c) {
      NoSlotsNoItems(c, 0);
    }
    RemovedInSlot(n, m, i, item, multiset(AllItems(child)));
  }

  /** When every node is a search match, `remove` finds the item whenever the subtree holds it. */
  lemma {:induction false} RemoveFindsWhenAllMatch(n: QNode, isSearchMatch: SearchMatch, item: Item)
    requires AllMatch(isSearchMatch)
    ensures Remove(n, isSearchMatch, item).1 <==> item in AllItems(n)
    decreases n, 1
  {
    assert isSearchMatch(n);
    RemoveFromSlotsFindsWhenAllMatch(n, isSearchMatch, item, 0);
  }

  lemma {:induction false} RemoveFromSlotsFindsWhenAllMatch(n: QNode, isSearchMatch: SearchMatch, item: Item, i: nat)
    requires AllMatch(isSearchMatch) && i <= |n.subnode|
    ensures RemoveFromSlots(n, isSearchMatch, item, i).1 <==> item in SlotsItems(n, i)
    decreases n, 0, |n.subnode| - i
  {
    if i < |n.subnode| {
      SlotsAfterPrefix(n, n, i);
      if n.subnode[i].Some? {
        RemoveFindsWhenAllMatch(n.subnode[i].value, isSearchMatch, item);
        assert RemoveFromSlots(n, isSearchMatch, item, i) == RemoveAtSlot(n, isSearchMatch, item, i);
      }
      RemoveFromSlotsFindsWhenAllMatch(n, isSearchMatch, item, i + 1);
    }
  }

  /** Slot `i` lost one occurrence of the item and nothing else changed: so did the slots from `i` on. */
  lemma RemovedInSlot(n: QNode, m: QNode, i: nat, item: Item, before: multiset<Item>)
    requires i < |n.subnode| == |m.subnode|
    requires forall t :: 0 <= t < |n.subnode| && t != i ==> m.subnode[t] == n.subnode[t]
    requires before == multiset(SlotItems(n.subnode[i])) && item in before
    requires multiset(SlotItems(m.subnode[i])) == before - multiset{item}
    ensures item in multiset(SlotsItems(n, i)) &&
      multiset(SlotsItems(m, i)) == multiset(SlotsItems(n, i)) - multiset{item}
  {
    ReplaceSlot(n, m, i, i);
    MultisetCancel(multiset(SlotsItems(m, i)), before, multiset(SlotsItems(n, i)), item);
  }

  /** When slot `i` is unchanged, the slot items from `i` differ only through the slots after it. */
  lemma SlotsAfterPrefix(n: QNode, m: QNode, i: nat)
    requires i < |n.subnode| == |m.subnode| && m.subnode[i] == n.subnode[i]
    ensures SlotsItems(m, i) == SlotItems(n.subnode[i]) + SlotsItems(m, i + 1)
    ensures SlotsItems(n, i) == SlotItems(n.subnode[i]) + SlotsItems(n, i + 1)
  {
  }

  /** `depth`: one more than the deepest subnode, so at least 1 and above every subnode. */
  function Depth(n: QNode): (r: nat)
    ensures r >= 1
    decreases n, 1
  {
    SlotsDepth(n, 0) + 1
  }

  function SlotsDepth(n: QNode, i: nat): nat
    requires i <= |n.subnode|
    decreases n, 0, |n.subnode| - i
  {
    if i == |n.subnode| then 0
    else
      var rest := SlotsDepth(n, i + 1);
      if n.subnode[i].Some? && Depth(n.subnode[i].value) > rest then Depth(n.subnode[i].value) else rest
  }

  /** The slot maximum bounds every present subnode from slot `i` on, and is attained unless 0. */
  lemma {:induction false} SlotsDepthIsMax(n: QNode, i: nat, t: nat)
    requires i <= t < |n.subnode| && n.subnode[t].Some?
    ensures Depth(n.subnode[t].value) <= SlotsDepth(n, i)
    decreases t - i
  {
    if i < t {
      SlotsDepthIsMax(n, i + 1, t);
    }
  }

  lemma {:induction false} SlotsDepthAttained(n: QNode, i: nat) returns (t: nat)
    requires i <= |n.subnode| && SlotsDepth(n, i) > 0
    ensures i <= t < |n.subnode| && n.subnode[t].Some? && Depth(n.subnode[t].value) == SlotsDepth(n, i)
    decreases |n.subnode| - i
  {
    var rest := SlotsDepth(n, i + 1);
    if n.subnode[i].Some? && Depth(n.subnode[i].value) > rest {
      t := i;
    } else {
      t := SlotsDepthAttained(n, i + 1);
    }
  }

  /** Every subnode is strictly shallower than its parent. */
  lemma DepthAboveSubnodes(n: QNode, i: nat)
    requires i < |n.subnode| && n.subnode[i].Some?
    ensures Depth(n.subnode[i].value) < Depth(n)
  {
    SlotsDepthIsMax(n, 0, i);
  }

  /** `getNodeCount` as written: one plus the item counts (not node counts) of the subnodes. */
  function GetNodeCount(n: QNode): (r: nat)
    ensures r == Size(n) - |n.items| + 1
  {
    SlotsSize(n, 0) + 1
  }

  /** The number of nodes in a subtree. */
  function NodeCount(n: QNode): (r: nat)
    ensures r >= 1
    decreases n, 1
  {
    SlotsNodeCount(n, 0) + 1
  }

  function SlotsNodeCount(n: QNode, i: nat): nat
    requires i <= |n.subnode|
    decreases n, 0, |n.subnode| - i
  {
    if i == |n.subnode| then 0
    else (if n.subnode[i].Some? then NodeCount(n.subnode[i].value) else 0) + SlotsNodeCount(n, i + 1)
  }

  lemma {:induction false} SlotsNodeCountCovers(n: QNode, i: nat, t: nat)
    requires i <= t < |n.subnode| && n.subnode[t].Some?
    ensures NodeCount(n.subnode[t].value) <= SlotsNodeCount(n, i)
    decreases t - i
  {
    if i < t {
      SlotsNodeCountCovers(n, i + 1, t);
    }
  }

  /** A node never has fewer nodes than levels. */
  lemma {:induction false} NodeCountAtLeastDepth(n: QNode)
    ensures NodeCount(n) >= Depth(n)
    decreases n, 1
  {
    if SlotsDepth(n, 0) > 0 {
      var t := SlotsDepthAttained(n, 0);
      NodeCountAtLeastDepth(n.subnode[t].value);
      SlotsNodeCountCovers(n, 0, t);
    }
  }

  /** A root whose one subnode is a leaf with two items: two nodes, but `getNodeCount` says three. */
  lemma GetNodeCountCountsItems(env: Envelope)
    ensures var leaf := QNode(env, [7, 8], [None, None, None, None]);
      var root := QNode(env, [], [Some(leaf), None, None, None]);
      GetNodeCount(root) == 3 && NodeCount(root) == 2
  {
    var leaf := QNode(env, [7, 8], [None, None, None, None]);
    var root := QNode(env, [], [Some(leaf), None, None, None]);
    assert SlotsNodeCount(leaf, 4) == 0 && SlotsSize(leaf, 4) == 0;
    assert SlotsNodeCount(leaf, 3) == 0 && SlotsSize(leaf, 3) == 0;
    assert SlotsNodeCount(leaf, 2) == 0 && SlotsSize(leaf, 2) == 0;
    assert SlotsNodeCount(leaf, 1) == 0 && SlotsSize(leaf, 1) == 0;
    assert SlotsNodeCount(leaf, 0) == 0 && SlotsSize(leaf, 0) == 0;
    assert SlotsNodeCount(root, 4) == 0 && SlotsSize(root, 4) == 0;
    assert SlotsNodeCount(root, 3) == 0 && SlotsSize(root, 3) == 0;
    assert SlotsNodeCount(root, 2) == 0 && SlotsSize(root, 2) == 0;
    assert SlotsNodeCount(root, 1) == 0 && SlotsSize(root, 1) == 0;
    assert SlotsNodeCount(root, 0) == 1 && SlotsSize(root, 0) == 2;
  }
}
