/**
 * `planargraph/Subgraph.java`: a subset of the edges of a planar graph,
 * with their directed edges (in insertion order) and end nodes. Edges and
 * nodes are compared by identity, which the `id` fields stand for.
 */
module Subgraph {

  datatype Node = Node(id: nat)
  datatype DirEdge = DirEdge(id: nat, fromNode: Node)

  /** A graph edge and its two directed edges, `getDirEdge(0)` and `getDirEdge(1)`. */
  datatype Edge = Edge(id: nat, dirEdge0: DirEdge, dirEdge1: DirEdge)

  datatype Graph = Graph(edges: set<Edge>, dirEdges: seq<DirEdge>, nodes: set<Node>)

  const Empty := Graph({}, [], {})

  /** No edge occurs twice. */
  predicate NoDuplicates(es: seq<Edge>) {
    forall a, b :: 0 <= a < b < |es| ==> es[a] != es[b]
  }

  /** The directed edges of `es`, both of each edge, edge by edge. */
  function DirEdgesOf(es: seq<Edge>): (r: seq<DirEdge>)
    ensures |r| == 2 * |es|
    ensures forall k :: 0 <= k < |es| ==> r[2 * k] == es[k].dirEdge0 && r[2 * k + 1] == es[k].dirEdge1
  {
    if |es| == 0 then []
    else
      var prefix := DirEdgesOf(es[..|es| - 1]);
      var last := es[|es| - 1];
      var r := prefix + [last.dirEdge0, last.dirEdge1];
      assert forall k :: 0 <= k < |es| - 1 ==> es[..|es| - 1][k] == es[k];
      r
  }

  /** The from-nodes of the directed edges of `es`. */
  function NodesOf(es: seq<Edge>): set<Node> {
    set k, d | 0 <= k < |es| && d in {es[k].dirEdge0, es[k].dirEdge1} :: d.fromNode
  }

  function SetOf(es: seq<Edge>): set<Edge> {
    set k | 0 <= k < |es| :: es[k]
  }

  /** The state `add` builds up: there is an order of adding the edges that explains it. */
  ghost predicate Valid(g: Graph) {
    exists order :: AddedInOrder(g, order)
  }

  /** `g` holds exactly the edges of `order`, their directed edges in that order, and their from-nodes. */
  predicate AddedInOrder(g: Graph, order: seq<Edge>) {
    && NoDuplicates(order)
    && g.edges == SetOf(order)
    && g.dirEdges == DirEdgesOf(order)
    && g.nodes == NodesOf(order)
  }

  /** `contains`. */
  predicate Contains(g: Graph, e: Edge) {
    e in g.edges
  }

  /**
   * `add`: an edge already present changes nothing; a new one is recorded,
   * its two directed edges appended (0 then 1) and their from-nodes added.
   */
  function Add(g: Graph, e: Edge): (r: Graph)
    ensures Contains(g, e) ==> r == g
    ensures !Contains(g, e) ==> && r.edges == g.edges + {e}
                                && r.dirEdges == g.dirEdges + [e.dirEdge0, e.dirEdge1]
                                && r.nodes == g.nodes + {e.dirEdge0.fromNode, e.dirEdge1.fromNode}
    ensures forall f :: Contains(r, f) <==> Contains(g, f) || f == e
  {
    if e in g.edges then g
    else Graph(g.edges + {e}, g.dirEdges + [e.dirEdge0, e.dirEdge1], g.nodes + {e.dirEdge0.fromNode, e.dirEdge1.fromNode})
  }

  /** `add` extends the explaining order by the new edge. */
  lemma AddKeepsOrder(g: Graph, order: seq<Edge>, e: Edge)
    requires AddedInOrder(g, order)
    ensures AddedInOrder(Add(g, e), if Contains(g, e) then order else order + [e])
  {
    if !Contains(g, e) {
      var o := order + [e];
      assert o[..|o| - 1] == order;
      assert SetOf(o) == SetOf(order) + {e} by {
        forall f | f in SetOf(o)
          ensures f in SetOf(order) + {e}
        {
          var k :| 0 <= k < |o| && o[k] == f;
        }
        forall f | f in SetOf(order)
          ensures f in SetOf(o)
        {
          var k :| 0 <= k < |order| && order[k] == f;
          assert o[k] == f;
        }
        assert o[|order|] == e;
      }
      assert NodesOf(o) == NodesOf(order) + {e.dirEdge0.fromNode, e.dirEdge1.fromNode} by {
        forall n | n in NodesOf(o)
          ensures n in NodesOf(order) + {e.dirEdge0.fromNode, e.dirEdge1.fromNode}
        {
          var k, d :| 0 <= k < |o| && d in {o[k].dirEdge0, o[k].dirEdge1} && d.fromNode == n;
          if k < |order| {
            assert o[k] == order[k];
          }
        }
        forall n | n in NodesOf(order)
          ensures n in NodesOf(o)
        {
          var k, d :| 0 <= k < |order| && d in {order[k].dirEdge0, order[k].dirEdge1} && d.fromNode == n;
          assert o[k] == order[k];
        }
        assert o[|order|] == e;
        assert e.dirEdge0 in {o[|order|].dirEdge0, o[|order|].dirEdge1};
        assert e.dirEdge1 in {o[|order|].dirEdge0, o[|order|].dirEdge1};
      }
      forall a | 0 <= a < |order|
        ensures o[a] != e
      {
        assert order[a] in SetOf(order);
      }
    }
  }

  lemma {:induction false} SetOfNoDuplicates(es: seq<Edge>)
    requires NoDuplicates(es)
    ensures |SetOf(es)| == |es|
  {
    if |es| > 0 {
      var prefix := es[..|es| - 1];
      SetOfNoDuplicates(prefix);
      assert SetOf(es) == SetOf(prefix) + {es[|es| - 1]} by {
        forall f | f in SetOf(es)
          ensures f in SetOf(prefix) + {es[|es| - 1]}
        {
          var k :| 0 <= k < |es| && es[k] == f;
          if k < |es| - 1 {
            assert prefix[k] == f;
          }
        }
      }
      assert es[|es| - 1] !in SetOf(prefix);
    }
  }

  /** Every valid subgraph has exactly two directed edges per edge. */
  lemma TwoDirEdgesPerEdge(g: Graph)
    requires Valid(g)
    ensures |g.dirEdges| == 2 * |g.edges|
  {
    var order :| AddedInOrder(g, order);
    SetOfNoDuplicates(order);
  }

  /** Edges added in turn, as by repeated `add`. */
  function AddAll(g: Graph, es: seq<Edge>): Graph {
    if |es| == 0 then g else Add(AddAll(g, es[..|es| - 1]), es[|es| - 1])
  }

  /** The edges of `es` by first occurrence: the order in which `add` records them. */
  function FirstOccurrences(es: seq<Edge>): (r: seq<Edge>)
    ensures NoDuplicates(r)
    ensures SetOf(r) == SetOf(es)
  {
    if |es| == 0 then []
    else
      var prefix := es[..|es| - 1];
      var last := es[|es| - 1];
      var p := FirstOccurrences(prefix);
      assert SetOf(es) == SetOf(prefix) + {last} by {
        forall f | f in SetOf(es)
          ensures f in SetOf(prefix) + {last}
        {
          var k :| 0 <= k < |es| && es[k] == f;
          if k < |es| - 1 {
            assert prefix[k] == f;
          }
        }
      }
      if last in SetOf(p) then p
      else
        var r := p + [last];
        assert forall k :: 0 <= k < |p| ==> r[k] == p[k] && p[k] in SetOf(p);
        assert SetOf(r) == SetOf(p) + {last} by {
          forall f | f in SetOf(r)
            ensures f in SetOf(p) + {last}
          {
            var k :| 0 <= k < |r| && r[k] == f;
          }
          assert r[|p|] == last;
        }
        r
  }

  /**
   * Adding a sequence of edges to an empty subgraph: it contains exactly
   * the added edges, and its directed edges are theirs in the order each
   * edge was first added.
   */
  lemma {:induction false} AddAllFromEmpty(es: seq<Edge>)
    ensures AddedInOrder(AddAll(Empty, es), FirstOccurrences(es))
    ensures forall e :: Contains(AddAll(Empty, es), e) <==> e in es
    ensures AddAll(Empty, es).dirEdges == DirEdgesOf(FirstOccurrences(es))
  {
    var fo := FirstOccurrences(es);
    if |es| > 0 {
      var prefix := es[..|es| - 1];
      AddAllFromEmpty(prefix);
      AddKeepsOrder(AddAll(Empty, prefix), FirstOccurrences(prefix), es[|es| - 1]);
    } else {
      assert SetOf(fo) == {};
      assert NodesOf(fo) == {};
    }
    forall e
      ensures e in SetOf(es) <==> e in es
    {
      if e in es {
        var k :| 0 <= k < |es| && es[k] == e;
      }
    }
  }
}
