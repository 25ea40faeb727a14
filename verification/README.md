# JTS noding and indexing core in Dafny

This project models the sequential core of the JTS Topology Suite's noding and
spatial-indexing layer, together with the small combinatorial helpers around it.
The modelled parts are:

- the noding drivers and oracles: `NodingValidator`, `IteratedNoder`, `MCIndexNoder`,
  `SimpleEdgeSetIntersector` and `SegmentStringDissolver`;
- the index building blocks: quadtree `NodeBase`, `Bintree`, `SortedPackedIntervalRTree`
  and `SweepLineIndex`;
- the small algorithms: `RayCrossingCounter`, `BoundaryOp`, `UniqueCoordinateArrayFilter`,
  `DouglasPeuckerLineSimplifier`, `PreparedPolygonPredicate`,
  `ConsistentPolygonRingChecker`, planar-graph `Subgraph` and the test builder's
  `AdjacentVertexFinder`;
- the `Location` and `Position` constant classes.

There is one Dafny module per Java class. `Geom` holds the shared point, envelope and
line types, and `Results` holds the `Result`, `Outcome` and `Option` wrappers.

The conventions are:

- Coordinates are exact integers. `Bintree` intervals and the Douglas-Peucker tolerance
  are exact reals.
- Java object identity is modelled as position identity inside a collection.
- Exceptions become error values.
- Every collaborator whose code is not part of this model becomes a function parameter
  carrying only what the modelled code relies on. These are the line intersector, the
  noding pass, the monotone chain builder, the spatial index query, the chain overlap
  enumeration, the intersector's `isDone`, the quadtree `isSearchMatch`, the `Bintree`
  root, the boundary node rule, the point locator, `isResultOfOp` and the segment
  distance.
- A sort by a comparator is modelled as an arbitrary permutation `order` of the
  elements. The results are stated in terms of that permutation.

## Model

| member | source | states |
|---|---|---|
| Location.ToLocationSymbol | modules/core/src/main/java/org/locationtech/jts/geom/Location.java:58-69 | interior, boundary, exterior and none map to 'i', 'b', 'e', '-' (each in both directions); every other value is an error carrying that value |
| Location.ConstantsDistinctAndIndexable | modules/core/src/main/java/org/locationtech/jts/geom/Location.java:32-49 | the four constants are distinct, interior/boundary/exterior are valid indices of a 3-element array, and the symbol map is injective on the constants |
| Position.Opposite | modules/core/src/main/java/org/locationtech/jts/geomgraph/Position.java:36-41 | LEFT and RIGHT are swapped; every other value, ON included, is returned unchanged |
| Position.OppositeInvolution | modules/core/src/main/java/org/locationtech/jts/geomgraph/Position.java:36-41 | applying opposite twice is the identity, and its fixed points are exactly the values other than LEFT and RIGHT |
| Position.ConstantsDistinct | modules/core/src/main/java/org/locationtech/jts/geomgraph/Position.java:26-31 | ON, LEFT and RIGHT are the distinct values 0, 1, 2 |
| NodingValidator.HasInteriorIntersection | modules/core/src/main/java/org/locationtech/jts/noding/NodingValidator.java:125-133 | true iff some reported intersection point differs from both segment endpoints |
| NodingValidator.CheckCollapses | modules/core/src/main/java/org/locationtech/jts/noding/NodingValidator.java:51-72 | passes iff no string has an index i with pts[i] equal to pts[i+2]; a failure reports such a triple |
| NodingValidator.CheckEndPtAgainstAll | modules/core/src/main/java/org/locationtech/jts/noding/NodingValidator.java:149-159 | passes iff the point equals no vertex at index 1..n-2 of any string; a failure reports that index |
| NodingValidator.CheckEndPtVertexIntersections | modules/core/src/main/java/org/locationtech/jts/noding/NodingValidator.java:139-159 | passes iff no first or last point of any string equals an interior vertex of any string, the same string included |
| NodingValidator.CheckStringPair | modules/core/src/main/java/org/locationtech/jts/noding/NodingValidator.java:89-121 | passes iff no segment pair of the two strings, other than a segment against itself, has a proper or interior intersection; a failure reports the four points of one such pair |
| NodingValidator.CheckInteriorIntersections | modules/core/src/main/java/org/locationtech/jts/noding/NodingValidator.java:77-121 | passes iff no ordered pair of strings (a string with itself included) has a failing segment pair; a failure is a non-noded intersection whose segments do fail |
| NodingValidator.CheckValid | modules/core/src/main/java/org/locationtech/jts/noding/NodingValidator.java:40-46 | passes iff all three checks pass; otherwise it reports the endpoint error first, then the interior-intersection error, then the collapse |
| NodingValidator.ShortStringsPassVertexChecks | modules/core/src/main/java/org/locationtech/jts/noding/NodingValidator.java:59-65 | strings of at most two points have neither a collapse nor an endpoint on an interior vertex |
| NodingValidator.SelfPairsSkipped | modules/core/src/main/java/org/locationtech/jts/noding/NodingValidator.java:100-102 | a segment checked against itself never fails |
| IteratedNoder.NewIteratedNoder | modules/core/src/main/java/org/locationtech/jts/noding/IteratedNoder.java:38-43 | a new noder's iteration threshold is 5 |
| IteratedNoder.SetMaximumIterations | modules/core/src/main/java/org/locationtech/jts/noding/IteratedNoder.java:61-64 | the threshold becomes the given value |
| IteratedNoder.ComputeNodes | modules/core/src/main/java/org/locationtech/jts/noding/IteratedNoder.java:77-117 | at least one pass runs, each fed the previous output; every earlier pass reports intersections and does not throw; normal exit comes exactly at a zero count with the last pass's strings; the exception comes only at a non-declining count after more than maxIter passes |
| IteratedNoder.DefaultThresholdGraceFivePasses | modules/core/src/main/java/org/locationtech/jts/noding/IteratedNoder.java:94-98 | with the default threshold no exception is possible before the sixth pass |
| MCIndexNoder.WithIds | modules/core/src/main/java/org/locationtech/jts/noding/MCIndexNoder.java:96-98 | every built chain is kept with all but its id unchanged; the ids start at first and rise by one along the list, so they are distinct and fill [first, first + count) |
| MCIndexNoder.Add | modules/core/src/main/java/org/locationtech/jts/noding/MCIndexNoder.java:93-102 | every built chain gets the next counter value as its id and is appended both to the index and to the chain list, in build order; earlier chains are kept |
| MCIndexNoder.AddAllAssignsPositions | modules/core/src/main/java/org/locationtech/jts/noding/MCIndexNoder.java:59-64 | adding all strings gives the chains ids 0,1,2,… equal to their positions, so the ids are distinct |
| MCIndexNoder.ChainCalls | modules/core/src/main/java/org/locationtech/jts/noding/MCIndexNoder.java:114-119 | one call per enumerated overlap, in enumeration order; every call names the two parent strings; a call is made exactly for the enumerated start pairs |
| MCIndexNoder.CallsOfAppend | modules/core/src/main/java/org/locationtech/jts/noding/MCIndexNoder.java:82-84 | processing one more pair appends exactly that pair's forwarded calls |
| MCIndexNoder.FreshPair | modules/core/src/main/java/org/locationtech/jts/noding/MCIndexNoder.java:76-85 | a candidate met for the first time has not been processed yet, so no pair is processed twice |
| MCIndexNoder.NotDoneAppend | modules/core/src/main/java/org/locationtech/jts/noding/MCIndexNoder.java:86-88 | extending the processed pairs while the intersector is not done keeps "no pair processed after done" |
| MCIndexNoder.ProcessStep | modules/core/src/main/java/org/locationtech/jts/noding/MCIndexNoder.java:82-85 | a candidate with a larger id is processed and its overlaps forwarded |
| MCIndexNoder.PairStep | modules/core/src/main/java/org/locationtech/jts/noding/MCIndexNoder.java:82-85 | a candidate with a larger id is an index chain and becomes a new pair, so processed pairs stay distinct, lower id first, and cover every larger candidate seen so far |
| MCIndexNoder.SkipStep | modules/core/src/main/java/org/locationtech/jts/noding/MCIndexNoder.java:82 | a candidate with an id not above the query chain's is skipped |
| MCIndexNoder.HandleCandidate | modules/core/src/main/java/org/locationtech/jts/noding/MCIndexNoder.java:77-85 | one candidate: a larger id appends that chain pair and its overlap calls, a smaller or equal id leaves pairs and calls unchanged |
| MCIndexNoder.ProcessCandidates | modules/core/src/main/java/org/locationtech/jts/noding/MCIndexNoder.java:74-89 | one query chain's candidates: stopping means the intersector is done, and every processed pair is an index candidate with the lower id first |
| MCIndexNoder.IntersectChains | modules/core/src/main/java/org/locationtech/jts/noding/MCIndexNoder.java:69-91 | no self pair, the lower id first, no pair twice, only index candidates, calls forwarded in pair order, nothing after the intersector is done; if the index never misses and the intersector is not done, every pair with intersecting envelopes is processed |
| MCIndexNoder.ComputeNodes | modules/core/src/main/java/org/locationtech/jts/noding/MCIndexNoder.java:59-67 | the noded strings are the input collection, chain ids are positions, and over all built chains: no self pair, lower id first, no pair twice, only index candidates processed, every overlap forwarded, nothing processed once the intersector is done, and nothing missed unless it is done |
| SweepLineIndex.Add | modules/core/src/main/java/org/locationtech/jts/index/sweepline/SweepLineIndex.java:36-41 | appends exactly two events, an insert at min and a delete at max linked to that insert, and keeps the index well formed |
| SweepLineIndex.AppendWellFormed | modules/core/src/main/java/org/locationtech/jts/index/sweepline/SweepLineIndex.java:36-41 | appending an interval's event pair keeps ids distinct and each insert paired with exactly one delete |
| SweepLineIndex.Permute | modules/core/src/main/java/org/locationtech/jts/index/sweepline/SweepLineIndex.java:50 | the sorted event list holds the same events with the same multiplicities, placed as the sort permutation says |
| Permutation.PermutedMultiset | modules/core/src/main/java/org/locationtech/jts/index/sweepline/SweepLineIndex.java:50 | rearranging a list by a permutation of its positions keeps every element with its multiplicity |
| SweepLineIndex.PermuteWellFormed | modules/core/src/main/java/org/locationtech/jts/index/sweepline/SweepLineIndex.java:50 | sorting keeps the events well formed |
| SweepLineIndex.BuildIndex | modules/core/src/main/java/org/locationtech/jts/index/sweepline/SweepLineIndex.java:48-60 | works at most once (a built index is returned unchanged); after building, each insert's stored delete index is the sorted position of its own delete event |
| SweepLineIndex.DeleteMap | modules/core/src/main/java/org/locationtech/jts/index/sweepline/SweepLineIndex.java:52-58 | the index loop records, for every delete event, its sorted position under its insert's id, and every recorded position holds that insert's delete |
| SweepLineIndex.DeletePositions | modules/core/src/main/java/org/locationtech/jts/index/sweepline/SweepLineIndex.java:52-58 | after the loop every insert has a recorded position, and the event there is its own delete with the same interval |
| SweepLineIndex.ProcessOverlaps | modules/core/src/main/java/org/locationtech/jts/index/sweepline/SweepLineIndex.java:76-92 | fires once, in increasing position order, for each insert event in [start, end), the starting insert included, and never for a delete |
| SweepLineIndex.ComputeOverlaps | modules/core/src/main/java/org/locationtech/jts/index/sweepline/SweepLineIndex.java:62-74 | builds once, then reports exactly the pairs (insert i, insert j) with i <= j before i's delete, in order; nOverlaps equals the number of calls |
| SweepLineIndex.ScanOverlaps | modules/core/src/main/java/org/locationtech/jts/index/sweepline/SweepLineIndex.java:67-72 | the event loop over a built index reports exactly the overlapping insert pairs, ordered by first and then second position |
| SweepLineIndex.OverlapStep | modules/core/src/main/java/org/locationtech/jts/index/sweepline/SweepLineIndex.java:67-72 | one more event's overlaps extend the reported pairs to that event, keeping their order |
| SweepLineIndex.AddAfterBuildReportsNothing | modules/core/src/main/java/org/locationtech/jts/index/sweepline/SweepLineIndex.java:36-60 | an interval added after building has no recorded delete index, so its insert reports no overlaps |
| SortedPackedIntervalRTree.FlattenAppend | modules/core/src/main/java/org/locationtech/jts/index/intervalrtree/SortedPackedIntervalRTree.java:100-119 | the leaves beneath a concatenated level are the concatenation of the leaves |
| SortedPackedIntervalRTree.Insert | modules/core/src/main/java/org/locationtech/jts/index/intervalrtree/SortedPackedIntervalRTree.java:57-62 | fails iff the root is built, leaving the tree unchanged; otherwise appends exactly one leaf |
| SortedPackedIntervalRTree.BuildLevel | modules/core/src/main/java/org/locationtech/jts/index/intervalrtree/SortedPackedIntervalRTree.java:100-119 | yields ceil(n/2) nodes: positions 2k and 2k+1 become one branch, and an odd last node is carried up unchanged |
| SortedPackedIntervalRTree.BuildLevelKeepsLeaves | modules/core/src/main/java/org/locationtech/jts/index/intervalrtree/SortedPackedIntervalRTree.java:104-118 | a level keeps the sequence of leaves beneath it |
| SortedPackedIntervalRTree.BuildTreeKeepsLeaves | modules/core/src/main/java/org/locationtech/jts/index/intervalrtree/SortedPackedIntervalRTree.java:76-96 | with at least one node the built root holds exactly the leaves beneath the start level, in order |
| SortedPackedIntervalRTree.EmptyLevelIsFixpoint | modules/core/src/main/java/org/locationtech/jts/index/intervalrtree/SortedPackedIntervalRTree.java:87-95 | an empty level builds to an empty level and never reaches size 1, so the build loop does not end on zero leaves |
| SortedPackedIntervalRTree.MatchingAppend | modules/core/src/main/java/org/locationtech/jts/index/intervalrtree/SortedPackedIntervalRTree.java:134-139 | matching leaves of a concatenation are the concatenated matches |
| SortedPackedIntervalRTree.LeavesInsideNode | modules/core/src/main/java/org/locationtech/jts/index/intervalrtree/SortedPackedIntervalRTree.java:100-119 | every leaf lies inside its ancestor's interval |
| SortedPackedIntervalRTree.NothingMatchesOutside | modules/core/src/main/java/org/locationtech/jts/index/intervalrtree/SortedPackedIntervalRTree.java:134-139 | when a node's interval misses the query, none of its leaves matches, so pruning the subtree loses nothing |
| SortedPackedIntervalRTree.VisitFindsExactlyMatching | modules/core/src/main/java/org/locationtech/jts/index/intervalrtree/SortedPackedIntervalRTree.java:134-139 | a query of a tree visits exactly the leaves whose interval meets the query, in leaf order |
| SortedPackedIntervalRTree.SortedLeaves | modules/core/src/main/java/org/locationtech/jts/index/intervalrtree/SortedPackedIntervalRTree.java:80-84 | the start level is all leaf nodes; read back, they are the entries rearranged by the sort, each as often as inserted |
| SortedPackedIntervalRTree.FlattenLeaves | modules/core/src/main/java/org/locationtech/jts/index/intervalrtree/SortedPackedIntervalRTree.java:80-84 | a level of leaf nodes flattens to their entries |
| SortedPackedIntervalRTree.Query | modules/core/src/main/java/org/locationtech/jts/index/intervalrtree/SortedPackedIntervalRTree.java:64-74 | the root is built at most once and reused by later queries; the first query builds it from the sorted leaves; the result is exactly the leaves meeting the query |
| SortedPackedIntervalRTree.FirstQueryRootHoldsSortedLeaves | modules/core/src/main/java/org/locationtech/jts/index/intervalrtree/SortedPackedIntervalRTree.java:76-96 | the first-built root holds the inserted entries in sorted order, each as often as inserted |
| SortedPackedIntervalRTree.QueryOrNothing | modules/core/src/main/java/org/locationtech/jts/index/intervalrtree/SortedPackedIntervalRTree.java:134-139 | corrected query: an index with no leaves answers nothing; otherwise it behaves as the query |
| QuadtreeNode.GetSubnodeIndex | modules/core/src/main/java/org/locationtech/jts/index/quadtree/NodeBase.java:42-54 | the result is in {-1,0,1,2,3}; k >= 0 means the envelope lies in closed quadrant k of the layout 2/3 over 0/1; -1 iff it crosses a centre line |
| QuadtreeNode.NoQuadrantIffStraddles | modules/core/src/main/java/org/locationtech/jts/index/quadtree/NodeBase.java:44-53 | for a valid envelope the result is -1 iff minX < cx < maxX or minY < cy < maxY |
| QuadtreeNode.CentrePointGoesToQuadrantZero | modules/core/src/main/java/org/locationtech/jts/index/quadtree/NodeBase.java:44-53 | a point envelope at the centre is placed in quadrant 0 |
| QuadtreeNode.EmptyNode | modules/core/src/main/java/org/locationtech/jts/index/quadtree/NodeBase.java:56-68 | a new node has four empty subnode slots and no items |
| QuadtreeNode.Size | modules/core/src/main/java/org/locationtech/jts/index/quadtree/NodeBase.java:212-221 | the size is the number of items in the subtree |
| QuadtreeNode.AddAllItems | modules/core/src/main/java/org/locationtech/jts/index/quadtree/NodeBase.java:143-154 | appends all items of the subtree to the given list |
| QuadtreeNode.AddAllItemsCountsSize | modules/core/src/main/java/org/locationtech/jts/index/quadtree/NodeBase.java:143-154 | the collected item list is as long as the size |
| QuadtreeNode.AddAllItemsFromOverlapping | modules/core/src/main/java/org/locationtech/jts/index/quadtree/NodeBase.java:157-171 | appends exactly the matched items of the subtree: nothing below a non-matching node, otherwise the node's own items unfiltered and then each slot's matched items in slot order; what it adds is a sub-multiset of the subtree's items, and when every node matches it is all of them |
| QuadtreeNode.Visit | modules/core/src/main/java/org/locationtech/jts/index/quadtree/NodeBase.java:173-195 | the visitor receives exactly the matched items of the subtree: nothing below a non-matching node, otherwise the node's own items and then each slot's matched items in slot order |
| QuadtreeNode.VisitIsOverlapping | modules/core/src/main/java/org/locationtech/jts/index/quadtree/NodeBase.java:173-195 | visiting reports the same items, in the same order, as collecting from overlapping nodes |
| QuadtreeNode.HasChildren | modules/core/src/main/java/org/locationtech/jts/index/quadtree/NodeBase.java:119-126 | a node without children holds only its own items, so its size is its own item count |
| QuadtreeNode.HasChildrenIffDeeper | modules/core/src/main/java/org/locationtech/jts/index/quadtree/NodeBase.java:199-210 | a node has children exactly when its depth exceeds 1 |
| QuadtreeNode.IsPrunable | modules/core/src/main/java/org/locationtech/jts/index/quadtree/NodeBase.java:114-117 | true iff the node has no children and no items |
| QuadtreeNode.IsEmptyIffNoItems | modules/core/src/main/java/org/locationtech/jts/index/quadtree/NodeBase.java:128-139 | a subtree is empty iff its size is 0 |
| QuadtreeNode.RemoveFirst | modules/core/src/main/java/org/locationtech/jts/index/quadtree/NodeBase.java:109 | removing an item present in the list drops one occurrence; otherwise the list is unchanged |
| QuadtreeNode.Remove | modules/core/src/main/java/org/locationtech/jts/index/quadtree/NodeBase.java:89-112 | an envelope mismatch returns false and changes nothing; true means exactly one occurrence of the item left the subtree, so the size dropped by 1 |
| QuadtreeNode.RemoveFromSlots | modules/core/src/main/java/org/locationtech/jts/index/quadtree/NodeBase.java:94-106 | trying the subnodes in order removes at most one occurrence below them and leaves earlier slots and the node's own items alone |
| QuadtreeNode.RemoveAtSlot | modules/core/src/main/java/org/locationtech/jts/index/quadtree/NodeBase.java:96-104 | after a successful child removal that slot is emptied iff the child became prunable |
| QuadtreeNode.RemoveFindsWhenAllMatch | modules/core/src/main/java/org/locationtech/jts/index/quadtree/NodeBase.java:89-112 | when every node matches the envelope, removal succeeds iff the item is in the subtree |
| QuadtreeNode.Depth | modules/core/src/main/java/org/locationtech/jts/index/quadtree/NodeBase.java:199-210 | the depth is at least 1 |
| QuadtreeNode.SlotsDepthIsMax | modules/core/src/main/java/org/locationtech/jts/index/quadtree/NodeBase.java:201-208 | the maximum over subnode depths bounds every present subnode's depth |
| QuadtreeNode.SlotsDepthAttained | modules/core/src/main/java/org/locationtech/jts/index/quadtree/NodeBase.java:201-208 | a positive maximum subnode depth is the depth of some present subnode |
| QuadtreeNode.DepthAboveSubnodes | modules/core/src/main/java/org/locationtech/jts/index/quadtree/NodeBase.java:199-210 | a node is deeper than each of its subnodes |
| QuadtreeNode.GetNodeCount | modules/core/src/main/java/org/locationtech/jts/index/quadtree/NodeBase.java:223-232 | as written: one plus the number of items held by the subnodes' subtrees |
| QuadtreeNode.GetNodeCountCountsItems | modules/core/src/main/java/org/locationtech/jts/index/quadtree/NodeBase.java:223-232 | a root with one leaf child of two items has getNodeCount 3 but only 2 nodes |
| QuadtreeNode.NodeCount | modules/core/src/main/java/org/locationtech/jts/index/quadtree/NodeBase.java:223-232 | corrected node count: at least 1 |
| QuadtreeNode.SlotsNodeCountCovers | modules/core/src/main/java/org/locationtech/jts/index/quadtree/NodeBase.java:223-232 | the corrected count of the subnodes covers each present subnode's count |
| QuadtreeNode.NodeCountAtLeastDepth | modules/core/src/main/java/org/locationtech/jts/index/quadtree/NodeBase.java:199-232 | the corrected node count is at least the depth |
| Bintree.EnsureExtent | modules/core/src/main/java/org/locationtech/jts/index/bintree/Bintree.java:60-73 | a non-zero-width interval is returned unchanged; a zero-width interval at v becomes [v - e/2, v] |
| Bintree.PaddedPointContainsPoint | modules/core/src/main/java/org/locationtech/jts/index/bintree/Bintree.java:57-72 | with e > 0 the padded interval has min < max, still contains v, ends at v and has width e/2 |
| Bintree.CollectStats | modules/core/src/main/java/org/locationtech/jts/index/bintree/Bintree.java:187-192 | the statistic never increases and is lowered only to a positive width below it |
| Bintree.NewTree | modules/core/src/main/java/org/locationtech/jts/index/bintree/Bintree.java:86-91 | a new tree has the minimum extent 1.0 |
| Bintree.Insert | modules/core/src/main/java/org/locationtech/jts/index/bintree/Bintree.java:114-129 | the statistic is updated first, from the unpadded interval, and the root receives the interval padded with the updated extent; the extent stays positive |
| Bintree.Remove | modules/core/src/main/java/org/locationtech/jts/index/bintree/Bintree.java:138-142 | removal pads with the current minimum extent, as insert does, and leaves the statistic unchanged |
| Bintree.Query | modules/core/src/main/java/org/locationtech/jts/index/bintree/Bintree.java:163-185 | an interval query answers what the root finds for the interval, unpadded |
| Bintree.QueryPoint | modules/core/src/main/java/org/locationtech/jts/index/bintree/Bintree.java:151-154 | querying a value x is querying the zero-width interval [x, x] |
| Bintree.InsertAll | modules/core/src/main/java/org/locationtech/jts/index/bintree/Bintree.java:114-129 | any sequence of inserts keeps the minimum extent positive |
| Bintree.StatisticOverInserts | modules/core/src/main/java/org/locationtech/jts/index/bintree/Bintree.java:86 | after any inserts the extent is positive, at most its start value, and either unchanged or the width of one inserted interval |
| Bintree.InsertedIntervalHasExtent | modules/core/src/main/java/org/locationtech/jts/index/bintree/Bintree.java:114-119 | every interval handed to the root has positive width and contains the original interval |
| SimpleEdgeSetIntersector.IncreasingAppend | modules/core/src/main/java/org/locationtech/jts/geomgraph/index/SimpleEdgeSetIntersector.java:73-82 | concatenating call lists in loop order keeps the calls in increasing order |
| SimpleEdgeSetIntersector.SegmentCount | modules/core/src/main/java/org/locationtech/jts/geomgraph/index/SimpleEdgeSetIntersector.java:77-78 | an edge of n >= 2 points has n-1 segments; fewer than two points give none |
| SimpleEdgeSetIntersector.SegmentRow | modules/core/src/main/java/org/locationtech/jts/geomgraph/index/SimpleEdgeSetIntersector.java:78-80 | one call per segment of the second edge, in order |
| SimpleEdgeSetIntersector.ComputeIntersects | modules/core/src/main/java/org/locationtech/jts/geomgraph/index/SimpleEdgeSetIntersector.java:73-82 | exactly one call per (i0, i1) with i0 < n0-1 and i1 < n1-1, in loop order, (n0-1)(n1-1) calls in all |
| SimpleEdgeSetIntersector.SingleSetRow | modules/core/src/main/java/org/locationtech/jts/geomgraph/index/SimpleEdgeSetIntersector.java:45-50 | one edge against every edge of the set, skipping itself unless testAllSegments |
| SimpleEdgeSetIntersector.ComputeIntersectionsSingle | modules/core/src/main/java/org/locationtech/jts/geomgraph/index/SimpleEdgeSetIntersector.java:40-52 | every ordered edge pair, both (a,b) and (b,a), with e0 == e1 skipped only when testAllSegments is false; nOverlaps is 0 |
| SimpleEdgeSetIntersector.TwoSetRow | modules/core/src/main/java/org/locationtech/jts/geomgraph/index/SimpleEdgeSetIntersector.java:59-64 | one edge of the first set against every edge of the second |
| SimpleEdgeSetIntersector.ComputeIntersectionsTwoSets | modules/core/src/main/java/org/locationtech/jts/geomgraph/index/SimpleEdgeSetIntersector.java:55-66 | every pair in edges0 × edges1 exactly once, in loop order; nOverlaps is 0 |
| SegmentStringDissolver.Reverse | modules/core/src/main/java/org/locationtech/jts/noding/SegmentStringDissolver.java:106 | the reversed coordinate list, used to compare strings up to orientation |
| SegmentStringDissolver.ReverseInvolution | modules/core/src/main/java/org/locationtech/jts/noding/SegmentStringDissolver.java:106 | reversing twice gives the original list back |
| SegmentStringDissolver.SameUpToOrientationIsEquivalence | modules/core/src/main/java/org/locationtech/jts/noding/SegmentStringDissolver.java:106-107 | equality up to orientation is reflexive, symmetric and transitive, so it can key a map |
| SegmentStringDissolver.NewDissolver | modules/core/src/main/java/org/locationtech/jts/noding/SegmentStringDissolver.java:71-80 | a new dissolver stores nothing and remembers whether it has a merger |
| SegmentStringDissolver.FindMatching | modules/core/src/main/java/org/locationtech/jts/noding/SegmentStringDissolver.java:120-131 | finds nothing iff no stored string is equal up to orientation; a match is stored and equal up to orientation |
| SegmentStringDissolver.Dissolve | modules/core/src/main/java/org/locationtech/jts/noding/SegmentStringDissolver.java:104-118 | the string is stored iff no stored string matches; on a match the store is unchanged (the first representative stays) and a merger, if present, is called once with (existing, new) and isSameOrientation iff the arrays are equal in order |
| SegmentStringDissolver.DissolveAll | modules/core/src/main/java/org/locationtech/jts/noding/SegmentStringDissolver.java:86-91 | earlier representatives are kept, new ones come from the input, pairwise distinctness is kept, and with no merger no merge call is made |
| SegmentStringDissolver.DissolveCoversOne | modules/core/src/main/java/org/locationtech/jts/noding/SegmentStringDissolver.java:104-118 | after dissolving a string some stored string matches it |
| SegmentStringDissolver.DissolveAllCovers | modules/core/src/main/java/org/locationtech/jts/noding/SegmentStringDissolver.java:86-91 | after dissolving a collection every input matches some stored string |
| SegmentStringDissolver.GetDissolvedProperties | modules/core/src/main/java/org/locationtech/jts/noding/SegmentStringDissolver.java:151 | the dissolved strings are pairwise distinct up to orientation, come from the input, are no more numerous than it, and every input matches one |
| RayCrossingCounter.NewCounter | modules/core/src/main/java/org/locationtech/jts/algorithm/RayCrossingCounter.java:92-100 | a new counter has no crossings and is not on a segment |
| RayCrossingCounter.Sign | modules/core/src/main/java/org/locationtech/jts/algorithm/RayCrossingCounter.java:166-172 | the exact sign of the determinant, in {-1, 0, 1} |
| RayCrossingCounter.CountSegment | modules/core/src/main/java/org/locationtech/jts/algorithm/RayCrossingCounter.java:108-181 | a segment left of p changes nothing; p equal to p2 sets the flag only; a horizontal segment at p.y never counts and sets the flag iff p.x is in its range; otherwise only a segment with exactly one endpoint above p.y is considered: it sets the flag iff the point is on its line (zero determinant), and the count rises by one iff the orientation-adjusted determinant sign is positive; the flag is never cleared |
| RayCrossingCounter.SignProduct | modules/core/src/main/java/org/locationtech/jts/algorithm/RayCrossingCounter.java:170-178 | the orientation-adjusted sign is positive iff determinant times dy is positive |
| RayCrossingCounter.CrossingIsRightOfPoint | modules/core/src/main/java/org/locationtech/jts/algorithm/RayCrossingCounter.java:153-178 | a positive adjusted sign means the segment crosses the ray strictly right of p |
| RayCrossingCounter.GetLocation | modules/core/src/main/java/org/locationtech/jts/algorithm/RayCrossingCounter.java:204-215 | BOUNDARY iff flagged, else INTERIOR iff the count is odd, else EXTERIOR |
| RayCrossingCounter.IsPointInPolygon | modules/core/src/main/java/org/locationtech/jts/algorithm/RayCrossingCounter.java:227-230 | true iff the location is not EXTERIOR |
| RayCrossingCounter.BoundaryIsSticky | modules/core/src/main/java/org/locationtech/jts/algorithm/RayCrossingCounter.java:192 | once BOUNDARY, any further segment keeps it BOUNDARY |
| RayCrossingCounter.CountAll | modules/core/src/main/java/org/locationtech/jts/algorithm/RayCrossingCounter.java:58-63 | feeding a run of segments keeps p, adds at most one crossing per segment and never clears the flag |
| RayCrossingCounter.LocatePointInRing | modules/core/src/main/java/org/locationtech/jts/algorithm/RayCrossingCounter.java:54-66 | feeding (ring[i], ring[i-1]) in order, stopping once the flag is set, gives the same location as feeding every segment; fewer than two points give EXTERIOR |
| RayCrossingCounter.CountAllStep | modules/core/src/main/java/org/locationtech/jts/algorithm/RayCrossingCounter.java:58-63 | one more loop step counts segment (ring[i], ring[i-1]) |
| RayCrossingCounter.CountAllSplit | modules/core/src/main/java/org/locationtech/jts/algorithm/RayCrossingCounter.java:58-63 | a run of segments can be split at any point |
| RayCrossingCounter.OnSegmentStaysBoundary | modules/core/src/main/java/org/locationtech/jts/algorithm/RayCrossingCounter.java:61-62 | once flagged, the remaining segments do not change the location, so stopping early is sound |
| RayCrossingCounter.SquareCentreIsInterior | modules/core/src/main/java/org/locationtech/jts/algorithm/RayCrossingCounter.java:54-66 | the centre of a 10×10 square is INTERIOR |
| RayCrossingCounter.SquareSideIsBoundary | modules/core/src/main/java/org/locationtech/jts/algorithm/RayCrossingCounter.java:54-66 | a point on the square's left side is BOUNDARY |
| RayCrossingCounter.SquareRightIsExterior | modules/core/src/main/java/org/locationtech/jts/algorithm/RayCrossingCounter.java:54-66 | a point right of the square is EXTERIOR |
| BoundaryOp.LookupPresent | modules/core/src/main/java/org/locationtech/jts/operation/BoundaryOp.java:128-136 | a key of the endpoint map is found with its count |
| BoundaryOp.LookupAbsent | modules/core/src/main/java/org/locationtech/jts/operation/BoundaryOp.java:128-136 | a point that is not a key has count 0 |
| BoundaryOp.AddEndpoint | modules/core/src/main/java/org/locationtech/jts/operation/BoundaryOp.java:128-136 | the point's counter rises by one (created at 1 when absent), every other counter is unchanged, and the map stays sorted |
| BoundaryOp.EndpointMap | modules/core/src/main/java/org/locationtech/jts/operation/BoundaryOp.java:104-114 | each point's counter is its valence: how many non-empty components start at it plus how many end at it |
| BoundaryOp.Accepted | modules/core/src/main/java/org/locationtech/jts/operation/BoundaryOp.java:116-123 | in sorted key order, exactly the points whose counter the rule accepts |
| BoundaryOp.ComputeBoundaryCoordinates | modules/core/src/main/java/org/locationtech/jts/operation/BoundaryOp.java:104-126 | each endpoint appears at most once, in sorted order, and appears iff its valence is positive and the rule accepts it |
| BoundaryOp.BoundaryLineString | modules/core/src/main/java/org/locationtech/jts/operation/BoundaryOp.java:138-158 | empty gives an empty MultiPoint; closed gives the start point iff the rule accepts valence 2, else empty; open gives start and end without consulting the rule |
| BoundaryOp.BoundaryMultiLineString | modules/core/src/main/java/org/locationtech/jts/operation/BoundaryOp.java:76-90 | all-empty gives an empty MultiPoint; exactly one boundary point gives a Point; otherwise a MultiPoint of the computed coordinates |
| BoundaryOp.GetBoundary | modules/core/src/main/java/org/locationtech/jts/operation/BoundaryOp.java:64-69 | line strings and multi line strings go to their boundary rules; every other geometry answers its own boundary |
| BoundaryOp.GetBoundaryDefault | modules/core/src/main/java/org/locationtech/jts/operation/BoundaryOp.java:36-55 | the default rule is the mod-2 rule |
| BoundaryOp.ClosedLineHasNoMod2Boundary | modules/core/src/main/java/org/locationtech/jts/operation/BoundaryOp.java:144-152 | under the mod-2 rule a closed line string has an empty boundary |
| BoundaryOp.JoinedPathBoundary | modules/core/src/main/java/org/locationtech/jts/operation/BoundaryOp.java:104-126 | under the mod-2 rule, two lines a-b and b-c have boundary {a, c}: the shared point has valence 2 |
| BoundaryOp.SingleOpenComponentAgrees | modules/core/src/main/java/org/locationtech/jts/operation/BoundaryOp.java:104-126 | under the mod-2 rule a single open component has its two endpoints, in sorted order, as its boundary coordinates |
| UniqueCoordinateFilter.FilterPoint | modules/core/src/main/java/org/locationtech/jts/util/UniqueCoordinateArrayFilter.java:64-69 | a seen coordinate leaves the filter unchanged; a new one is appended and recorded |
| UniqueCoordinateFilter.FilterAll | modules/core/src/main/java/org/locationtech/jts/util/UniqueCoordinateArrayFilter.java:40-47 | filtering a list keeps the filter's list duplicate-free and in step with the seen set |
| UniqueCoordinateFilter.GetCoordinates | modules/core/src/main/java/org/locationtech/jts/util/UniqueCoordinateArrayFilter.java:59-62 | returns the filtered list, which has no duplicates |
| UniqueCoordinateFilter.FilterCoordinates | modules/core/src/main/java/org/locationtech/jts/util/UniqueCoordinateArrayFilter.java:40-47 | the output has no duplicates |
| UniqueCoordinateFilter.FirstIndexOfNew | modules/core/src/main/java/org/locationtech/jts/util/UniqueCoordinateArrayFilter.java:64-69 | a coordinate first met at position i has first index i |
| UniqueCoordinateFilter.FilterCoordinatesProperties | modules/core/src/main/java/org/locationtech/jts/util/UniqueCoordinateArrayFilter.java:25-47 | output and input have the same set of coordinates, the output is no longer than the input, and it is in first-occurrence order |
| UniqueCoordinateFilter.NoDuplicatesPassThrough | modules/core/src/main/java/org/locationtech/jts/util/UniqueCoordinateArrayFilter.java:64-69 | a duplicate-free input comes back unchanged |
| UniqueCoordinateFilter.FilterCoordinatesIdempotent | modules/core/src/main/java/org/locationtech/jts/util/UniqueCoordinateArrayFilter.java:40-47 | filtering twice equals filtering once |
| DouglasPeucker.ScanFarthest | modules/core/src/main/java/org/locationtech/jts/simplify/DouglasPeuckerLineSimplifier.java:77-85 | the strict-greater scan returns an index strictly inside (i, j) at the maximal distance, the first such index |
| DouglasPeucker.Farthest | modules/core/src/main/java/org/locationtech/jts/simplify/DouglasPeuckerLineSimplifier.java:77-85 | the first interior index of maximal chord distance |
| DouglasPeucker.ClearInterior | modules/core/src/main/java/org/locationtech/jts/simplify/DouglasPeuckerLineSimplifier.java:86-90 | clears exactly the flags strictly between i and j |
| DouglasPeucker.SimplifySection | modules/core/src/main/java/org/locationtech/jts/simplify/DouglasPeuckerLineSimplifier.java:70-95 | only clears flags strictly inside (i, j) and leaves the rest; a section with j = i+1 is untouched; if every interior point is within tolerance all of them are dropped |
| DouglasPeucker.SplitsAtFirstFarthest | modules/core/src/main/java/org/locationtech/jts/simplify/DouglasPeuckerLineSimplifier.java:77-94 | any index that is the first of maximal distance is the split index |
| DouglasPeucker.ClearedBracket | modules/core/src/main/java/org/locationtech/jts/simplify/DouglasPeuckerLineSimplifier.java:86-90 | after clearing a section its ends bracket every interior point |
| DouglasPeucker.SplitBracket | modules/core/src/main/java/org/locationtech/jts/simplify/DouglasPeuckerLineSimplifier.java:91-94 | after splitting, the retained points bracketing a point lie on the same side of the split |
| DouglasPeucker.SplitWithinTolerance | modules/core/src/main/java/org/locationtech/jts/simplify/DouglasPeuckerLineSimplifier.java:91-94 | the within-tolerance property of both halves gives it for the whole section |
| DouglasPeucker.DroppedWithinTolerance | modules/core/src/main/java/org/locationtech/jts/simplify/DouglasPeuckerLineSimplifier.java:70-95 | every dropped vertex is within tolerance of the chord between its bracketing retained vertices |
| DouglasPeucker.NegativeToleranceKeepsAll | modules/core/src/main/java/org/locationtech/jts/simplify/DouglasPeuckerLineSimplifier.java:86-94 | with a negative tolerance and non-negative distances no vertex is dropped |
| DouglasPeucker.Select | modules/core/src/main/java/org/locationtech/jts/simplify/DouglasPeuckerLineSimplifier.java:60-65 | the kept points are no more than the input, and the first point is kept when flagged |
| DouglasPeucker.SelectLast | modules/core/src/main/java/org/locationtech/jts/simplify/DouglasPeuckerLineSimplifier.java:60-65 | a flagged last point is the last point of the output |
| DouglasPeucker.SelectIsSubsequence | modules/core/src/main/java/org/locationtech/jts/simplify/DouglasPeuckerLineSimplifier.java:60-65 | the output is a subsequence of the input in original order |
| DouglasPeucker.AllKept | modules/core/src/main/java/org/locationtech/jts/simplify/DouglasPeuckerLineSimplifier.java:55-59 | the initial flags keep every point |
| DouglasPeucker.Simplify | modules/core/src/main/java/org/locationtech/jts/simplify/DouglasPeuckerLineSimplifier.java:53-66 | fails iff the input is empty, or is one point with tolerance below -1; a single point otherwise comes back as is; a result is non-empty, no longer than the input and starts with its first point |
| DouglasPeucker.SimplifyKeepsEnds | modules/core/src/main/java/org/locationtech/jts/simplify/DouglasPeuckerLineSimplifier.java:53-66 | with at least two points the result keeps both end points, has at least two points and is a subsequence of the input |
| DouglasPeucker.NegativeToleranceIsIdentity | modules/core/src/main/java/org/locationtech/jts/simplify/DouglasPeuckerLineSimplifier.java:53-95 | with a negative tolerance (at least -1 for one point) and non-negative distances the input comes back unchanged |
| DouglasPeucker.SelectAll | modules/core/src/main/java/org/locationtech/jts/simplify/DouglasPeuckerLineSimplifier.java:60-65 | when every point is flagged the output is the input |
| PreparedPolygonPredicate.ScanUntil | modules/core/src/main/java/org/locationtech/jts/geom/prep/PreparedPolygonPredicate.java:56-66 | stops at the first point whose location is decisive and reports whether one exists |
| PreparedPolygonPredicate.IsAllTestComponentsInTarget | modules/core/src/main/java/org/locationtech/jts/geom/prep/PreparedPolygonPredicate.java:56-66 | true iff no coordinate locates EXTERIOR |
| PreparedPolygonPredicate.IsAllTestComponentsInTargetInterior | modules/core/src/main/java/org/locationtech/jts/geom/prep/PreparedPolygonPredicate.java:76-86 | true iff every coordinate locates INTERIOR |
| PreparedPolygonPredicate.IsAnyTestComponentInTarget | modules/core/src/main/java/org/locationtech/jts/geom/prep/PreparedPolygonPredicate.java:96-106 | true iff some coordinate does not locate EXTERIOR |
| PreparedPolygonPredicate.IsAnyTestComponentInTargetInterior | modules/core/src/main/java/org/locationtech/jts/geom/prep/PreparedPolygonPredicate.java:116-126 | true iff some coordinate locates INTERIOR |
| PreparedPolygonPredicate.IsAnyTargetComponentInAreaTest | modules/core/src/main/java/org/locationtech/jts/geom/prep/PreparedPolygonPredicate.java:137-147 | true iff some representative point does not locate EXTERIOR of the test area |
| PreparedPolygonPredicate.ComponentTestsAreOrdered | modules/core/src/main/java/org/locationtech/jts/geom/prep/PreparedPolygonPredicate.java:56-126 | all-interior implies all-in, any-interior implies any-in, all-in on a non-empty input implies any-in, and with no coordinates the "all" tests are true and the "any" tests false |
| ConsistentPolygonRingChecker.GetPotentialResultAreaEdges | modules/core/src/main/java/org/locationtech/jts/operation/overlay/ConsistentPolygonRingChecker.java:63-90 | keeps, in star order, exactly the edges where the edge or its sym is a potential result area edge: area-labelled, not an interior area edge, and accepted by the op on the right-side locations |
| ConsistentPolygonRingChecker.Step | modules/core/src/main/java/org/locationtech/jts/operation/overlay/ConsistentPolygonRingChecker.java:105-129 | a non-area edge leaves the state alone; the first potential outgoing edge is remembered; SCANNING goes to LINKING on a potential incoming sym and LINKING to SCANNING on a potential outgoing edge |
| ConsistentPolygonRingChecker.ScanEdgesSummary | modules/core/src/main/java/org/locationtech/jts/operation/overlay/ConsistentPolygonRingChecker.java:105-129 | firstOut is absent iff no edge is a potential out, and otherwise is the first one; with none, the scan ends LINKING iff some sym is a potential in |
| ConsistentPolygonRingChecker.TestLinkResultDirectedEdges | modules/core/src/main/java/org/locationtech/jts/operation/overlay/ConsistentPolygonRingChecker.java:95-137 | fails with the node coordinate iff the scan ends LINKING with no first outgoing edge |
| ConsistentPolygonRingChecker.TestLinkFailsIff | modules/core/src/main/java/org/locationtech/jts/operation/overlay/ConsistentPolygonRingChecker.java:95-137 | a node fails iff none of its ring edges is a potential out and some ring edge's sym is a potential in |
| ConsistentPolygonRingChecker.FirstFailure | modules/core/src/main/java/org/locationtech/jts/operation/overlay/ConsistentPolygonRingChecker.java:55-61 | passes iff every outcome passes; otherwise it is the first failure |
| ConsistentPolygonRingChecker.FirstFailureIsFirst | modules/core/src/main/java/org/locationtech/jts/operation/overlay/ConsistentPolygonRingChecker.java:55-61 | a failure that follows only passes is the one reported |
| ConsistentPolygonRingChecker.NodeOutcomes | modules/core/src/main/java/org/locationtech/jts/operation/overlay/ConsistentPolygonRingChecker.java:55-61 | one outcome per node, in node order |
| ConsistentPolygonRingChecker.Check | modules/core/src/main/java/org/locationtech/jts/operation/overlay/ConsistentPolygonRingChecker.java:55-61 | passes iff every node passes for the op |
| ConsistentPolygonRingChecker.CheckRaisesFirstFailure | modules/core/src/main/java/org/locationtech/jts/operation/overlay/ConsistentPolygonRingChecker.java:55-61 | the error raised is the first failing node's |
| ConsistentPolygonRingChecker.CheckAll | modules/core/src/main/java/org/locationtech/jts/operation/overlay/ConsistentPolygonRingChecker.java:42-48 | checks INTERSECTION, DIFFERENCE, UNION, SYMDIFFERENCE in that order and reports the first failure |
| ConsistentPolygonRingChecker.CheckAllPassesIff | modules/core/src/main/java/org/locationtech/jts/operation/overlay/ConsistentPolygonRingChecker.java:42-61 | checkAll passes iff every node passes for every overlay op |
| Subgraph.DirEdgesOf | modules/core/src/main/java/org/locationtech/jts/planargraph/Subgraph.java:65-67 | the directed edges of a list of edges are dirEdge(0) then dirEdge(1) of each, in order |
| Subgraph.Add | modules/core/src/main/java/org/locationtech/jts/planargraph/Subgraph.java:61-70 | a contained edge changes nothing; a new edge is added, dirEdge(0) then dirEdge(1) are appended and both from-nodes added; afterwards contains holds exactly for the old edges and the new one |
| Subgraph.AddKeepsOrder | modules/core/src/main/java/org/locationtech/jts/planargraph/Subgraph.java:61-80 | adding keeps the directed edges in insertion order |
| Subgraph.SetOfNoDuplicates | modules/core/src/main/java/org/locationtech/jts/planargraph/Subgraph.java:61-70 | a duplicate-free edge list is as large as its set |
| Subgraph.TwoDirEdgesPerEdge | modules/core/src/main/java/org/locationtech/jts/planargraph/Subgraph.java:61-70 | a subgraph built by adds has exactly twice as many directed edges as edges |
| Subgraph.FirstOccurrences | modules/core/src/main/java/org/locationtech/jts/planargraph/Subgraph.java:61-70 | the first occurrence of each edge, duplicate-free, with the same set |
| Subgraph.AddAllFromEmpty | modules/core/src/main/java/org/locationtech/jts/planargraph/Subgraph.java:61-103 | after adding a list of edges, contains holds exactly for the listed edges, and the directed edges iterate in first-insertion order |
| AdjacentVertexFinder.FilterVertex | modules/app/src/main/java/org/locationtech/jtstest/testbuilder/geom/AdjacentVertexFinder.java:64-76 | a non-matching vertex adds nothing; a matching one adds the predecessor if any, then the successor if any; a single point adds nothing |
| AdjacentVertexFinder.GetVertices | modules/app/src/main/java/org/locationtech/jtstest/testbuilder/geom/AdjacentVertexFinder.java:31-50 | at most two neighbours per matching vertex |
| AdjacentVertexFinder.FilterPrefixBound | modules/app/src/main/java/org/locationtech/jtstest/testbuilder/geom/AdjacentVertexFinder.java:64-76 | a prefix of a sequence yields at most two points per match in it |
| AdjacentVertexFinder.FilterAllBound | modules/app/src/main/java/org/locationtech/jtstest/testbuilder/geom/AdjacentVertexFinder.java:64-76 | all sequences together yield at most two points per match |
| AdjacentVertexFinder.FilterPrefixContents | modules/app/src/main/java/org/locationtech/jtstest/testbuilder/geom/AdjacentVertexFinder.java:64-76 | a point is reported from a prefix iff it is adjacent to an occurrence of the base point in it |
| AdjacentVertexFinder.GetVerticesContents | modules/app/src/main/java/org/locationtech/jtstest/testbuilder/geom/AdjacentVertexFinder.java:31-50 | a point is reported iff it is adjacent, in some sequence, to an occurrence of the base point |
| AdjacentVertexFinder.NoNeighboursWithoutMatch | modules/app/src/main/java/org/locationtech/jtstest/testbuilder/geom/AdjacentVertexFinder.java:66-68 | with no occurrence of the base point nothing is reported |

## Left out

- Floating point. Coordinates are exact integers and intervals and distances exact reals. `RobustDeterminant.signOfDet2x2` is replaced by the exact sign of the integer determinant.
- Collaborators whose code is not part of this model become parameters: `RobustLineIntersector`, `MonotoneChainBuilder`, `MonotoneChain.computeOverlaps`, `STRtree`, `NodedSegmentString.getNodedSubstrings`, `IntersectionAdder`, `OrientedCoordinateArray`, `BoundaryNodeRule`, `Bintree` `Root`/`Node`, the point locators, the overlay label tests, `LineSegment.distance` and the geometry factory.
- Comparator sorts (`SweepLineEvent`, the interval R-tree node comparator) are modelled as any permutation of the elements. The ordering the comparators impose is not modelled.
- `SegmentStringDissolver.getDissolved` returns the `TreeMap` values in `OrientedCoordinateArray` order. The model keeps the representatives in first-stored order.
- `MCIndexNoder`'s `nOverlaps` is a statistics counter and is not modelled.
- The `synchronized` lazy root build in `SortedPackedIntervalRTree` is modelled single-threaded, as "build once".
- Iterator order over hash-based collections (the subgraph's edge and node sets) is not modelled. Only the directed-edge list has an order.
- `Subgraph.edgeIterator`, `nodeIterator` and `getParent` are not modelled; they return the stored collections.
- `NodeBase.add`, `hasItems` and `getItems` read or append to the node's own item list and are not modelled as separate operations; `QNode.items` is that list.
- The `Bintree` `depth`/`size`/`nodeSize`/`iterator` wrappers delegate to the unmodelled root.
- Geometries other than line strings answer their own `getBoundary()`, which is not modelled.
- IteratedNoder.ComputeNodes: the pass counter is an unbounded integer, so the model's loop always ends. The source counts passes in a 32-bit `int`; with a threshold of `Integer.MAX_VALUE` that counter never exceeds it, and a pass sequence whose counts never decline loops forever instead of throwing. That wrap-around is not modelled.
- `DouglasPeucker.Simplify`: the source's recursion does not end for one point with a tolerance below -1, and an empty input fails with an index exception; the model returns these as error values rather than diverging or throwing.
- `NodingValidator.CheckEndPtVertexIntersections` and `NodingValidator.CheckValid` require every string to be non-empty; the source fails with an index exception on an empty string, which is not modelled.
- `MCIndexNoder.ComputeNodes` requires that the index returns each chain at most once and only chains it holds. That is the contract of the spatial index, which is not part of this model.
- `MCIndexNoder.IntersectChains` relates "every intersecting pair is processed" to an index that never misses an intersecting envelope, as a hypothesis rather than a fact about `STRtree`.
- `SortedPackedIntervalRTree.Query` requires at least one leaf before the first build, because the source's build loop does not terminate on zero leaves (see Findings).
- `Bintree.Query`, `Bintree.QueryPoint` and `Bintree.Remove` state only what they hand to the root, because the root is not part of this model.
- `AdjacentVertexFinder`'s `isDone` and `isGeometryChanged` are constantly false, so the model always traverses every sequence and never changes the geometry.
- I/O, rendering and printing (`printNode`, debug output) are not modelled.

## Findings

| source | as written | input that shows it | evidently intended | confidence | as-written member | corrected member |
|---|---|---|---|---|---|---|
| modules/core/src/main/java/org/locationtech/jts/index/intervalrtree/SortedPackedIntervalRTree.java:87-95 | `buildTree` repeats `buildLevel` until one node remains, starting from the leaves | the first query on an index with no leaves: each level of 0 nodes builds another level of 0 nodes, so the loop never ends | a query on an empty index returns no items | not executed | SortedPackedIntervalRTree.EmptyLevelIsFixpoint | SortedPackedIntervalRTree.QueryOrNothing |
| modules/core/src/main/java/org/locationtech/jts/index/quadtree/NodeBase.java:223-232 | `getNodeCount` adds up `size()` of the subnodes, which counts items, plus one | a root with no items and one leaf child holding 2 items: getNodeCount is 3, but there are 2 nodes | one plus the node counts of the subnodes | not executed | QuadtreeNode.GetNodeCount | QuadtreeNode.NodeCount |
