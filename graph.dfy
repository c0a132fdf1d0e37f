/** The graph form of one wire: an arena of nodes indexed by position in a
    list, each with an adjacency list of node ids. */
module WireGraphs {
  import opened Geometry

  /** One distinct position of a wire (IWireGraphNode). */
  datatype GraphNode = GraphNode(id: nat, pos: Point, ref: Option<ElRef>, edges: seq<nat>)

  /** The graph of a wire; it carries the wire's id (IWireGraph). */
  datatype WireGraph = WireGraph(id: string, nodes: seq<GraphNode>)

  /** Each node's id is its index in the list. */
  predicate IdsAreIndices(nodes: seq<GraphNode>) {
    forall i :: 0 <= i < |nodes| ==> nodes[i].id == i
  }

  /** Every adjacency entry names a node of the list. */
  predicate EdgesInRange(nodes: seq<GraphNode>) {
    forall i, e :: 0 <= i < |nodes| && e in nodes[i].edges ==> e < |nodes|
  }

  /** No node lists itself. */
  predicate LoopFree(nodes: seq<GraphNode>) {
    forall i :: 0 <= i < |nodes| ==> i !in nodes[i].edges
  }

  /** Every edge appears in both endpoints' lists, as often in one as in the other. */
  predicate Symmetric(nodes: seq<GraphNode>) {
    forall i, j :: 0 <= i < |nodes| && 0 <= j < |nodes| ==>
      multiset(nodes[i].edges)[j] == multiset(nodes[j].edges)[i]
  }

  /** No two nodes share a position. */
  predicate DistinctPositions(nodes: seq<GraphNode>) {
    forall i, j :: 0 <= i < j < |nodes| ==> nodes[i].pos != nodes[j].pos
  }

  /** The invariants every graph built from a wire satisfies. */
  predicate WellFormed(nodes: seq<GraphNode>) {
    IdsAreIndices(nodes) && EdgesInRange(nodes) && LoopFree(nodes) && Symmetric(nodes) && DistinctPositions(nodes)
  }

  /** The two pushes that record an edge between nodes `a` and `b`. */
  function Link(nodes: seq<GraphNode>, a: nat, b: nat): (r: seq<GraphNode>)
    requires a < |nodes| && b < |nodes| && a != b
    ensures |r| == |nodes|
  {
    var once := nodes[a := nodes[a].(edges := nodes[a].edges + [b])];
    once[b := once[b].(edges := once[b].edges + [a])]
  }

  /** Linking keeps ids, positions and refs and adds the edge once in each direction. */
  lemma {:induction false} LinkShape(nodes: seq<GraphNode>, a: nat, b: nat)
    requires a < |nodes| && b < |nodes| && a != b
    ensures var r := Link(nodes, a, b);
      && |r| == |nodes|
      && (forall i :: 0 <= i < |r| ==> r[i].id == nodes[i].id && r[i].pos == nodes[i].pos && r[i].ref == nodes[i].ref)
      && r[a].edges == nodes[a].edges + [b] && r[b].edges == nodes[b].edges + [a]
      && (forall i :: 0 <= i < |r| && i != a && i != b ==> r[i].edges == nodes[i].edges)
  {
  }

  /** Linking two distinct nodes preserves the adjacency invariants. */
  lemma {:induction false} LinkKeepsInvariants(nodes: seq<GraphNode>, a: nat, b: nat)
    requires a < |nodes| && b < |nodes| && a != b
    requires EdgesInRange(nodes) && LoopFree(nodes) && Symmetric(nodes)
    ensures EdgesInRange(Link(nodes, a, b)) && LoopFree(Link(nodes, a, b)) && Symmetric(Link(nodes, a, b))
  {
    LinkShape(nodes, a, b);
    LinkKeepsSymmetric(nodes, a, b);
    var r := Link(nodes, a, b);
    forall i, e | 0 <= i < |r| && e in r[i].edges ensures e < |r| {
      if i == a || i == b {
        assert e in nodes[i].edges || e == a || e == b;
      }
    }
    forall i | 0 <= i < |r| ensures i !in r[i].edges {
      assert i !in nodes[i].edges;
    }
  }

  lemma {:induction false} LinkKeepsSymmetric(nodes: seq<GraphNode>, a: nat, b: nat)
    requires a < |nodes| && b < |nodes| && a != b && Symmetric(nodes)
    ensures Symmetric(Link(nodes, a, b))
  {
    var r := Link(nodes, a, b);
    LinkShape(nodes, a, b);
    assert multiset(r[a].edges) == multiset(nodes[a].edges) + multiset{b};
    assert multiset(r[b].edges) == multiset(nodes[b].edges) + multiset{a};
    forall i, j | 0 <= i < |r| && 0 <= j < |r|
      ensures multiset(r[i].edges)[j] == multiset(r[j].edges)[i]
    {
      assert multiset(nodes[i].edges)[j] == multiset(nodes[j].edges)[i];
    }
  }
}
