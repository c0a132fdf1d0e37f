/** Turning a graph back into a wire (graphToWire): one segment per edge,
    emitted from the end with the lower id. */
module Serializer {
  import opened Geometry
  import opened WireGraphs

  /** The entries of `es` (a part of node `a`'s adjacency list) that lead to a
      node with a higher id, as (from, to) index pairs. An entry outside the
      node list never qualifies; the serialiser requires there are none. */
  function UpPairs(nodes: seq<GraphNode>, a: nat, es: seq<nat>): (r: seq<(nat, nat)>)
    requires a < |nodes|
    ensures forall k :: 0 <= k < |r| ==> r[k].0 == a && r[k].1 < |nodes| && nodes[r[k].1].id > nodes[a].id
  {
    if es == [] then []
    else
      var e := es[|es| - 1];
      UpPairs(nodes, a, es[..|es| - 1]) + (if e < |nodes| && nodes[e].id > nodes[a].id then [(a, e)] else [])
  }

  /** The pairs of the first `n` nodes, node by node. */
  function Pairs(nodes: seq<GraphNode>, n: nat): (r: seq<(nat, nat)>)
    requires n <= |nodes|
    ensures forall k :: 0 <= k < |r| ==> r[k].0 < n && r[k].1 < |nodes|
  {
    if n == 0 then [] else Pairs(nodes, n - 1) + UpPairs(nodes, n - 1, nodes[n - 1].edges)
  }

  /** The segment drawn for one edge: from the first node to the second, with both references. */
  function SegmentOf(nodes: seq<GraphNode>, pr: (nat, nat)): Segment
    requires pr.0 < |nodes| && pr.1 < |nodes|
  {
    Segment(nodes[pr.0].pos, nodes[pr.1].pos, nodes[pr.0].ref, nodes[pr.1].ref)
  }

  predicate InRange(nodes: seq<GraphNode>, prs: seq<(nat, nat)>) {
    forall k :: 0 <= k < |prs| ==> prs[k].0 < |nodes| && prs[k].1 < |nodes|
  }

  /** The segments drawn for a list of pairs, one per pair, in order. */
  function SegmentsOf(nodes: seq<GraphNode>, prs: seq<(nat, nat)>): (r: seq<Segment>)
    requires InRange(nodes, prs)
    ensures |r| == |prs|
  {
    seq(|prs|, k requires 0 <= k < |prs| => SegmentOf(nodes, prs[k]))
  }

  /** The wire `graphToWire` returns for a graph. */
  function Serialized(g: WireGraph): Wire
    requires EdgesInRange(g.nodes)
  {
    Wire(g.id, SegmentsOf(g.nodes, Pairs(g.nodes, |g.nodes|)))
  }

  /** The segments for one node's edges (the inner loop of graphToWire). */
  method EmitNode(nodes: seq<GraphNode>, a: nat, segments: seq<Segment>) returns (segments': seq<Segment>)
    requires a < |nodes| && EdgesInRange(nodes)
    ensures segments' == segments + SegmentsOf(nodes, UpPairs(nodes, a, nodes[a].edges))
  {
    segments' := segments;
    var edges := nodes[a].edges;
    for j := 0 to |edges|
      invariant segments' == segments + SegmentsOf(nodes, UpPairs(nodes, a, edges[..j]))
    {
      var e := edges[j];
      EmitStep(nodes, a, j);
      if nodes[e].id > nodes[a].id {
        segments' := segments' + [SegmentOf(nodes, (a, e))];
      }
    }
    assert edges[..|edges|] == edges;
  }

  /** One entry of the inner loop: the segments grow by the entry's segment
      exactly when it leads to a higher id. */
  lemma {:induction false} EmitStep(nodes: seq<GraphNode>, a: nat, j: nat)
    requires a < |nodes| && j < |nodes[a].edges| && EdgesInRange(nodes)
    ensures nodes[a].edges[j] < |nodes|
    ensures var e := nodes[a].edges[j];
      SegmentsOf(nodes, UpPairs(nodes, a, nodes[a].edges[..j + 1])) ==
      SegmentsOf(nodes, UpPairs(nodes, a, nodes[a].edges[..j])) +
        (if nodes[e].id > nodes[a].id then [SegmentOf(nodes, (a, e))] else [])
  {
    var edges := nodes[a].edges;
    var e := edges[j];
    assert e in edges;
    assert edges[..j + 1][..j] == edges[..j];
    var before := UpPairs(nodes, a, edges[..j]);
    if nodes[e].id > nodes[a].id {
      SegmentsOfAppend(nodes, before, [(a, e)]);
    } else {
      assert before + [] == before;
    }
  }

  /** The wire of a graph (graphToWire). */
  method GraphToWire(g: WireGraph) returns (w: Wire)
    requires EdgesInRange(g.nodes)
    ensures w == Serialized(g)
  {
    var segments: seq<Segment> := [];
    for i := 0 to |g.nodes|
      invariant segments == SegmentsOf(g.nodes, Pairs(g.nodes, i))
    {
      segments := EmitNode(g.nodes, i, segments);
      PairsStep(g.nodes, i);
    }
    w := Wire(g.id, segments);
  }

  lemma {:induction false} PairsStep(nodes: seq<GraphNode>, i: nat)
    requires i < |nodes|
    ensures SegmentsOf(nodes, Pairs(nodes, i + 1)) ==
      SegmentsOf(nodes, Pairs(nodes, i)) + SegmentsOf(nodes, UpPairs(nodes, i, nodes[i].edges))
  {
    SegmentsOfAppend(nodes, Pairs(nodes, i), UpPairs(nodes, i, nodes[i].edges));
  }

  lemma {:induction false} SegmentsOfAppend(nodes: seq<GraphNode>, p: seq<(nat, nat)>, q: seq<(nat, nat)>)
    requires InRange(nodes, p) && InRange(nodes, q)
    ensures InRange(nodes, p + q) && SegmentsOf(nodes, p + q) == SegmentsOf(nodes, p) + SegmentsOf(nodes, q)
  {
    var l, r := SegmentsOf(nodes, p + q), SegmentsOf(nodes, p) + SegmentsOf(nodes, q);
    assert |l| == |r|;
    forall k | 0 <= k < |l| ensures l[k] == r[k] {
      if k < |p| {
        assert (p + q)[k] == p[k];
      } else {
        assert (p + q)[k] == q[k - |p|];
      }
    }
  }

  /** Every segment of the wire is an edge of the graph, drawn from the node
      with the lower id to the one with the higher id, with both references. */
  lemma {:induction false} SegmentsAreEdges(g: WireGraph, k: nat)
    requires EdgesInRange(g.nodes) && k < |Serialized(g).segments|
    ensures exists a, b :: (0 <= a < |g.nodes| && 0 <= b < |g.nodes| && b in g.nodes[a].edges &&
      g.nodes[a].id < g.nodes[b].id &&
      Serialized(g).segments[k] == Segment(g.nodes[a].pos, g.nodes[b].pos, g.nodes[a].ref, g.nodes[b].ref))
  {
    var prs := Pairs(g.nodes, |g.nodes|);
    PairIsEdge(g.nodes, |g.nodes|, k);
  }

  /** Each pair of `UpPairs` is an entry of `es` leading to a higher id. */
  lemma {:induction false} UpPairIsEdge(nodes: seq<GraphNode>, a: nat, es: seq<nat>, k: nat)
    requires a < |nodes| && k < |UpPairs(nodes, a, es)|
    ensures var pr := UpPairs(nodes, a, es)[k]; pr.1 in es && nodes[pr.1].id > nodes[a].id
  {
    var init := es[..|es| - 1];
    if k < |UpPairs(nodes, a, init)| {
      UpPairIsEdge(nodes, a, init, k);
      assert init[..] <= es;
    }
  }

  /** Each pair (a, b) of `Pairs` is an edge from `a` to a node with a higher id. */
  lemma {:induction false} PairIsEdge(nodes: seq<GraphNode>, n: nat, k: nat)
    requires n <= |nodes| && k < |Pairs(nodes, n)|
    ensures var pr := Pairs(nodes, n)[k]; pr.1 in nodes[pr.0].edges && nodes[pr.1].id > nodes[pr.0].id
  {
    var before := Pairs(nodes, n - 1);
    if k < |before| {
      PairIsEdge(nodes, n - 1, k);
    } else {
      UpPairIsEdge(nodes, n - 1, nodes[n - 1].edges, k - |before|);
    }
  }

  /** Node `a` contributes one pair (a, b) per copy of `b` in `es` when `b`
      has the higher id, and none otherwise. */
  lemma {:induction false} UpPairsCount(nodes: seq<GraphNode>, a: nat, es: seq<nat>, pr: (nat, nat))
    requires a < |nodes| && pr.1 < |nodes|
    ensures multiset(UpPairs(nodes, a, es))[pr] ==
      if pr.0 == a && nodes[pr.1].id > nodes[a].id then multiset(es)[pr.1] else 0
  {
    if pr.0 == a && nodes[pr.1].id > nodes[a].id {
      UpPairsCountUp(nodes, a, es, pr.1);
    } else {
      assert pr !in UpPairs(nodes, a, es);
    }
  }

  /** Each copy of a higher neighbour `b` gives one pair (a, b). */
  lemma {:induction false} UpPairsCountUp(nodes: seq<GraphNode>, a: nat, es: seq<nat>, b: nat)
    requires a < |nodes| && b < |nodes| && nodes[b].id > nodes[a].id
    ensures multiset(UpPairs(nodes, a, es))[(a, b)] == multiset(es)[b]
  {
    if es != [] {
      var init, e := es[..|es| - 1], es[|es| - 1];
      UpPairsCountUp(nodes, a, init, b);
      assert es == init + [e];
      SnocCount(init, e, b);
      if e < |nodes| && nodes[e].id > nodes[a].id {
        assert UpPairs(nodes, a, es) == UpPairs(nodes, a, init) + [(a, e)];
        SnocCount(UpPairs(nodes, a, init), (a, e), (a, b));
      } else {
        assert UpPairs(nodes, a, es) == UpPairs(nodes, a, init);
      }
    }
  }

  /** Appending one element adds one to its own count and nothing to any other. */
  lemma {:induction false} SnocCount<T>(xs: seq<T>, x: T, y: T)
    ensures multiset(xs + [x])[y] == multiset(xs)[y] + (if x == y then 1 else 0)
  {
  }

  /** How often an edge (a, b) occurs among the pairs of the first `n` nodes. */
  lemma {:induction false} PairsCount(nodes: seq<GraphNode>, n: nat, pr: (nat, nat))
    requires n <= |nodes| && pr.1 < |nodes|
    ensures multiset(Pairs(nodes, n))[pr] ==
      if pr.0 < n && nodes[pr.1].id > nodes[pr.0].id then multiset(nodes[pr.0].edges)[pr.1] else 0
  {
    if n > 0 {
      var a := n - 1;
      var ups := UpPairs(nodes, a, nodes[a].edges);
      assert Pairs(nodes, n) == Pairs(nodes, a) + ups;
      if pr.0 == a {
        NoPairsFrom(nodes, a, pr);
        UpPairsCount(nodes, a, nodes[a].edges, pr);
      } else {
        PairsCount(nodes, a, pr);
        NoUpPairsFrom(nodes, a, nodes[a].edges, pr);
      }
    }
  }

  /** The pairs of the first `n` nodes all start below `n`. */
  lemma {:induction false} NoPairsFrom(nodes: seq<GraphNode>, n: nat, pr: (nat, nat))
    requires n <= |nodes| && n <= pr.0
    ensures multiset(Pairs(nodes, n))[pr] == 0
  {
    assert pr !in Pairs(nodes, n);
  }

  /** The pairs of node `a` all start at `a`. */
  lemma {:induction false} NoUpPairsFrom(nodes: seq<GraphNode>, a: nat, es: seq<nat>, pr: (nat, nat))
    requires a < |nodes| && pr.0 != a
    ensures multiset(UpPairs(nodes, a, es))[pr] == 0
  {
    assert pr !in UpPairs(nodes, a, es);
  }

  /** In a symmetric, loop-free graph whose ids are its indices, each
      undirected edge {a, b} gives as many segments as it has copies: they are
      all drawn as (a, b) with a < b, none as (b, a). */
  lemma {:induction false} OneSegmentPerEdge(g: WireGraph, a: nat, b: nat)
    requires IdsAreIndices(g.nodes) && EdgesInRange(g.nodes) && Symmetric(g.nodes) && LoopFree(g.nodes)
    requires a < b < |g.nodes|
    ensures multiset(Pairs(g.nodes, |g.nodes|))[(a, b)] == multiset(g.nodes[a].edges)[b]
    ensures multiset(Pairs(g.nodes, |g.nodes|))[(a, b)] == multiset(g.nodes[b].edges)[a]
    ensures multiset(Pairs(g.nodes, |g.nodes|))[(b, a)] == 0
  {
    PairsCount(g.nodes, |g.nodes|, (a, b));
    PairsCount(g.nodes, |g.nodes|, (b, a));
  }
}
