/** The connectivity analyser: splitting a graph into its connected parts
    (splitIntoIslands) and renumbering the node ids of one part
    (repackGraphIds). */
module Islands {
  import opened Geometry
  import opened WireGraphs

  /** The ids of a list of nodes. */
  function IdsOf(nodes: seq<GraphNode>): set<nat> {
    set k | 0 <= k < |nodes| :: nodes[k].id
  }

  /** No two nodes of the list share an id. */
  predicate DistinctIds(nodes: seq<GraphNode>) {
    forall a, b :: 0 <= a < b < |nodes| ==> nodes[a].id != nodes[b].id
  }

  /** Every adjacency entry is the id of a node of the list. */
  predicate EdgesClosed(nodes: seq<GraphNode>) {
    forall k, e :: 0 <= k < |nodes| && e in nodes[k].edges ==> e in IdsOf(nodes)
  }

  // ---------------------------------------------------------------------
  // repackGraphIds

  /** Where each id now sits: the id of the k-th node maps to k; when two
      nodes share an id the later one wins, as with repeated `Map.set`. */
  function IdMap(nodes: seq<GraphNode>): (m: map<nat, nat>)
    ensures m.Keys == IdsOf(nodes)
    ensures forall id :: id in m ==> m[id] < |nodes| && nodes[m[id]].id == id
  {
    if nodes == [] then map[]
    else
      var init := nodes[..|nodes| - 1];
      assert IdsOf(nodes) == IdsOf(init) + {nodes[|nodes| - 1].id} by {
        assert forall k :: 0 <= k < |init| ==> init[k] == nodes[k];
      }
      IdMap(init)[nodes[|nodes| - 1].id := |nodes| - 1]
  }

  /** An adjacency list rewritten through the id map. */
  function Renumber(es: seq<nat>, m: map<nat, nat>): (r: seq<nat>)
    requires forall e :: e in es ==> e in m
    ensures |r| == |es|
  {
    seq(|es|, j requires 0 <= j < |es| => m[es[j]])
  }

  /** The graph `repackGraphIds` returns: node k gets id k and keeps its
      position and reference; every edge is rewritten through the id map. */
  function Repacked(g: WireGraph): WireGraph
    requires EdgesClosed(g.nodes)
  {
    var m := IdMap(g.nodes);
    WireGraph(g.id, seq(|g.nodes|, k requires 0 <= k < |g.nodes| =>
      g.nodes[k].(id := k, edges := Renumber(g.nodes[k].edges, m))))
  }

  /** Renumbers the node ids of a graph to 0, 1, ... (repackGraphIds): a
      first pass assigns the new ids and records the map, a second pass
      rewrites every adjacency list. */
  method RepackGraphIds(g: WireGraph) returns (r: WireGraph)
    requires EdgesClosed(g.nodes)
    ensures r == Repacked(g)
  {
    var idMap, newNodes := AssignIds(g.nodes);
    newNodes := RenumberAll(g.nodes, idMap, newNodes);
    r := WireGraph(g.id, newNodes);
  }

  /** The first pass: node k gets id k and the id map records where each old id went. */
  method AssignIds(nodes: seq<GraphNode>) returns (idMap: map<nat, nat>, newNodes: seq<GraphNode>)
    ensures idMap == IdMap(nodes)
    ensures |newNodes| == |nodes| && forall t :: 0 <= t < |nodes| ==> newNodes[t] == nodes[t].(id := t)
  {
    var idCntr := 0;
    idMap, newNodes := map[], [];
    for k := 0 to |nodes|
      invariant idCntr == k && idMap == IdMap(nodes[..k])
      invariant |newNodes| == k && forall t :: 0 <= t < k ==> newNodes[t] == nodes[t].(id := t)
    {
      var node := nodes[k];
      var newId := idCntr;
      idCntr := idCntr + 1;
      assert nodes[..k + 1][..k] == nodes[..k];
      idMap := idMap[node.id := newId];
      newNodes := newNodes + [node.(id := newId)];
    }
    assert nodes[..|nodes|] == nodes;
  }

  /** The second pass: every adjacency list is rewritten through the id map. */
  method RenumberAll(nodes: seq<GraphNode>, idMap: map<nat, nat>, newNodes: seq<GraphNode>) returns (out: seq<GraphNode>)
    requires EdgesClosed(nodes) && idMap == IdMap(nodes)
    requires |newNodes| == |nodes| && forall t :: 0 <= t < |nodes| ==> newNodes[t] == nodes[t].(id := t)
    ensures |out| == |nodes|
    ensures forall t :: 0 <= t < |nodes| ==> out[t] == nodes[t].(id := t, edges := Renumber(nodes[t].edges, idMap))
  {
    out := newNodes;
    for k := 0 to |out|
      invariant |out| == |nodes|
      invariant forall t :: 0 <= t < k ==> out[t] == nodes[t].(id := t, edges := Renumber(nodes[t].edges, idMap))
      invariant forall t :: k <= t < |nodes| ==> out[t] == nodes[t].(id := t)
    {
      assert forall e :: e in nodes[k].edges ==> e in idMap;
      out := out[k := out[k].(edges := Renumber(out[k].edges, idMap))];
    }
  }


  /** With distinct ids, the id map sends the id of the k-th node to k. */
  lemma {:induction false} IdMapAt(nodes: seq<GraphNode>, k: nat)
    requires DistinctIds(nodes) && k < |nodes|
    ensures nodes[k].id in IdMap(nodes) && IdMap(nodes)[nodes[k].id] == k
  {
    var m := IdMap(nodes);
    assert nodes[k].id in IdsOf(nodes);
    var j := m[nodes[k].id];
    assert nodes[j].id == nodes[k].id;
  }

  /** Renumbering through a map that is one-to-one keeps the count of every entry. */
  lemma {:induction false} RenumberCount(es: seq<nat>, m: map<nat, nat>, x: nat)
    requires forall e :: e in es ==> e in m
    requires x in m && forall y :: y in m && m[y] == m[x] ==> y == x
    ensures multiset(Renumber(es, m))[m[x]] == multiset(es)[x]
  {
    if es != [] {
      var init, e := es[..|es| - 1], es[|es| - 1];
      assert es == init + [e];
      assert forall y :: y in init ==> y in es;
      RenumberCount(init, m, x);
      assert Renumber(es, m) == Renumber(init, m) + [m[e]];
    }
  }

  /** A repacked graph has ids equal to indices and edges in range; it keeps
      every position and reference. */
  lemma {:induction false} RepackedShape(g: WireGraph)
    requires EdgesClosed(g.nodes)
    ensures var r := Repacked(g);
      && r.id == g.id && |r.nodes| == |g.nodes|
      && IdsAreIndices(r.nodes) && EdgesInRange(r.nodes)
      && (forall k :: 0 <= k < |r.nodes| ==> r.nodes[k].pos == g.nodes[k].pos && r.nodes[k].ref == g.nodes[k].ref)
  {
    var r := Repacked(g);
    var m := IdMap(g.nodes);
    forall i, e | 0 <= i < |r.nodes| && e in r.nodes[i].edges ensures e < |r.nodes| {
      var j :| 0 <= j < |r.nodes[i].edges| && r.nodes[i].edges[j] == e;
      assert g.nodes[i].edges[j] in g.nodes[i].edges;
    }
  }

  /** Repacking a list of nodes with distinct ids whose edges stay inside it
      yields a well-formed graph when the old graph was one when read by id:
      no node lists its own id, each edge is listed equally often at both
      ends, and no two nodes share a position. */
  lemma {:induction false} RepackedWellFormed(g: WireGraph)
    requires DistinctIds(g.nodes) && EdgesClosed(g.nodes)
    requires forall k :: 0 <= k < |g.nodes| ==> g.nodes[k].id !in g.nodes[k].edges
    requires forall a, b :: 0 <= a < |g.nodes| && 0 <= b < |g.nodes| ==>
      multiset(g.nodes[a].edges)[g.nodes[b].id] == multiset(g.nodes[b].edges)[g.nodes[a].id]
    requires DistinctPositions(g.nodes)
    ensures WellFormed(Repacked(g).nodes)
  {
    RepackedShape(g);
    RepackedSymmetric(g);
    RepackedLoopFree(g);
  }

  lemma {:induction false} RepackedLoopFree(g: WireGraph)
    requires DistinctIds(g.nodes) && EdgesClosed(g.nodes)
    requires forall k :: 0 <= k < |g.nodes| ==> g.nodes[k].id !in g.nodes[k].edges
    ensures LoopFree(Repacked(g).nodes)
  {
    var r := Repacked(g);
    forall k | 0 <= k < |r.nodes| ensures k !in r.nodes[k].edges {
      IdMapAt(g.nodes, k);
    }
  }

  lemma {:induction false} RepackedSymmetric(g: WireGraph)
    requires DistinctIds(g.nodes) && EdgesClosed(g.nodes)
    requires forall a, b :: 0 <= a < |g.nodes| && 0 <= b < |g.nodes| ==>
      multiset(g.nodes[a].edges)[g.nodes[b].id] == multiset(g.nodes[b].edges)[g.nodes[a].id]
    ensures Symmetric(Repacked(g).nodes)
  {
    var r := Repacked(g);
    var m := IdMap(g.nodes);
    forall a, b | 0 <= a < |r.nodes| && 0 <= b < |r.nodes|
      ensures multiset(r.nodes[a].edges)[b] == multiset(r.nodes[b].edges)[a]
    {
      IdMapAt(g.nodes, a);
      IdMapAt(g.nodes, b);
      Injective(g.nodes, g.nodes[a].id);
      Injective(g.nodes, g.nodes[b].id);
      RenumberCount(g.nodes[a].edges, m, g.nodes[b].id);
      RenumberCount(g.nodes[b].edges, m, g.nodes[a].id);
    }
  }

  /** The id map never sends two ids to one place. */
  lemma {:induction false} Injective(nodes: seq<GraphNode>, x: nat)
    requires x in IdMap(nodes)
    ensures forall y :: y in IdMap(nodes) && IdMap(nodes)[y] == IdMap(nodes)[x] ==> y == x
  {
  }

  // ---------------------------------------------------------------------
  // splitIntoIslands

  /** The graph invariants the traversal relies on: ids are indices, edges
      name nodes of the graph, and edges are listed at both ends. */
  predicate Graph(nodes: seq<GraphNode>) {
    IdsAreIndices(nodes) && EdgesInRange(nodes) && Symmetric(nodes)
  }

  /** Every node of the list is the graph's node at its id. */
  predicate FromGraph(nodes: seq<GraphNode>, part: seq<GraphNode>) {
    forall k :: 0 <= k < |part| ==> part[k].id < |nodes| && nodes[part[k].id] == part[k]
  }

  /** A set of ids with no edge leaving it. */
  ghost predicate Closed(nodes: seq<GraphNode>, s: set<nat>) {
    forall i, e :: i in s && 0 <= i < |nodes| && e in nodes[i].edges ==> e in s
  }

  /** Every node after the first is adjacent to an earlier one, so the
      nodes are connected. */
  ghost predicate Spanned(part: seq<GraphNode>) {
    forall k :: 0 < k < |part| ==> HasParent(part, k)
  }

  /** The k-th node is adjacent to an earlier one. */
  ghost predicate HasParent(part: seq<GraphNode>, k: nat)
    requires k < |part|
  {
    exists m :: 0 <= m < k && part[k].id in part[m].edges
  }

  /** A connected part of the graph: a non-empty, connected list of graph
      nodes without repetition and with no edge leaving it. */
  ghost predicate Component(nodes: seq<GraphNode>, island: seq<GraphNode>) {
    && island != []
    && FromGraph(nodes, island) && DistinctIds(island)
    && Closed(nodes, IdsOf(island)) && Spanned(island)
  }

  /** One island: a connected part that starts at its smallest id. */
  ghost predicate IslandOk(nodes: seq<GraphNode>, island: seq<GraphNode>) {
    Component(nodes, island) && forall k :: 0 <= k < |island| ==> island[0].id <= island[k].id
  }

  /** The islands of a graph: each an island, pairwise disjoint, ordered by
      their first node, and together covering every node. */
  ghost predicate IslandsOf(nodes: seq<GraphNode>, islands: seq<seq<GraphNode>>) {
    && (forall k :: 0 <= k < |islands| ==> IslandOk(nodes, islands[k]))
    && (forall k1, k2 :: 0 <= k1 < k2 < |islands| ==>
          IdsOf(islands[k1]) !! IdsOf(islands[k2]) && islands[k1][0].id < islands[k2][0].id)
    && Union(islands) == Range(|nodes|)
  }

  /** The ids of all the islands together. */
  function Union(islands: seq<seq<GraphNode>>): set<nat> {
    if islands == [] then {} else Union(islands[..|islands| - 1]) + IdsOf(islands[|islands| - 1])
  }

  /** The indices 0 .. n-1. */
  function Range(n: nat): (r: set<nat>)
    ensures forall i: nat :: i in r <==> i < n
  {
    if n == 0 then {} else Range(n - 1) + {n - 1}
  }

  /** The graph nodes at the given ids, pushed in the order of the list. */
  function Targets(nodes: seq<GraphNode>, es: seq<nat>): (r: seq<GraphNode>)
    requires forall j :: 0 <= j < |es| ==> es[j] < |nodes|
  {
    seq(|es|, j requires 0 <= j < |es| => nodes[es[j]])
  }

  /** What the traversal of one island has taken so far: graph nodes without
      repetition, the start node first, each later one adjacent to an earlier
      one; the seen set has grown by exactly their ids. */
  ghost predicate Taken(nodes: seq<GraphNode>, start: nat, seen0: set<nat>, island: seq<GraphNode>, seen: set<nat>) {
    && start < |nodes| && start !in seen0
    && FromGraph(nodes, island) && DistinctIds(island)
    && seen == seen0 + IdsOf(island) && seen0 !! IdsOf(island)
    && (island != [] ==> island[0].id == start)
    && Spanned(island)
  }

  /** Every stacked node is a graph node, and is the start or a neighbour of
      a node taken. */
  ghost predicate Stacked(nodes: seq<GraphNode>, start: nat, stack: seq<GraphNode>, island: seq<GraphNode>) {
    && FromGraph(nodes, stack)
    && (island == [] ==> start < |nodes| && stack == [nodes[start]])
    && forall t :: 0 <= t < |stack| ==>
         stack[t].id == start || exists m :: 0 <= m < |island| && stack[t].id in island[m].edges
  }

  /** Every neighbour of a node taken is seen or still stacked. */
  ghost predicate Frontier(island: seq<GraphNode>, seen: set<nat>, stack: seq<GraphNode>) {
    forall k, e :: 0 <= k < |island| && e in island[k].edges ==> e in seen || e in IdsOf(stack)
  }

  /** Pushes the nodes at the listed ids onto the stack (the `for` over `node.edges`). */
  method PushTargets(nodes: seq<GraphNode>, stack: seq<GraphNode>, es: seq<nat>) returns (stack': seq<GraphNode>)
    requires forall j :: 0 <= j < |es| ==> es[j] < |nodes|
    ensures stack' == stack + Targets(nodes, es)
  {
    stack' := stack;
    for j := 0 to |es|
      invariant stack' == stack + Targets(nodes, es[..j])
    {
      assert es[..j + 1] == es[..j] + [es[j]];
      stack' := stack' + [nodes[es[j]]];
    }
    assert es[..|es|] == es;
  }

  /** The stack walk of splitIntoIslands as a function of the stack, the
      island so far and the seen set: the top node is popped; when unseen it
      is appended to the island, marked seen and its neighbours are pushed
      in the order of its adjacency list. The result is the island and the
      seen set once the stack is empty. */
  function Walk(nodes: seq<GraphNode>, stack: seq<GraphNode>, island: seq<GraphNode>, seen: set<nat>): (r: (seq<GraphNode>, set<nat>))
    requires Graph(nodes) && FromGraph(nodes, stack)
    decreases Range(|nodes|) - seen, |stack|
  {
    if stack == [] then (island, seen)
    else
      var node := stack[|stack| - 1];
      var rest := stack[..|stack| - 1];
      if node.id in seen then Walk(nodes, rest, island, seen)
      else
        PushedFromGraph(nodes, rest, node);
        assert node.id in Range(|nodes|) - seen;
        Walk(nodes, rest + Targets(nodes, node.edges), island + [node], seen + {node.id})
  }

  /** The islands and the seen set after the outer loop of splitIntoIslands
      has looked at the first `i` nodes: a node not yet seen starts a new
      walk, whose island is appended. */
  function Scan(nodes: seq<GraphNode>, i: nat): (r: (seq<seq<GraphNode>>, set<nat>))
    requires Graph(nodes) && i <= |nodes|
  {
    if i == 0 then ([], {})
    else
      var (islands, seen) := Scan(nodes, i - 1);
      if nodes[i - 1].id in seen then (islands, seen)
      else
        var (island, seen') := Walk(nodes, [nodes[i - 1]], [], seen);
        (islands + [island], seen')
  }

  /** The stack after popping a graph node and pushing its neighbours still
      holds graph nodes only. */
  lemma {:induction false} PushedFromGraph(nodes: seq<GraphNode>, rest: seq<GraphNode>, node: GraphNode)
    requires Graph(nodes) && FromGraph(nodes, rest + [node])
    ensures forall j :: 0 <= j < |node.edges| ==> node.edges[j] < |nodes|
    ensures FromGraph(nodes, rest + Targets(nodes, node.edges))
  {
    var stack := rest + [node];
    assert stack[|rest|] == node;
    NodeEdges(nodes, node);
    var s := rest + Targets(nodes, node.edges);
    forall t | 0 <= t < |s| ensures s[t].id < |nodes| && nodes[s[t].id] == s[t] {
      if t < |rest| {
        assert s[t] == stack[t];
      }
    }
  }

  /** The traversal from one unseen node (the `while` loop of
      splitIntoIslands): pops a node, and when it is unseen takes it into the
      island and stacks its neighbours. */
  method Explore(nodes: seq<GraphNode>, start: nat, seen: set<nat>) returns (island: seq<GraphNode>, seen': set<nat>)
    requires Graph(nodes) && start < |nodes| && start !in seen && Closed(nodes, seen)
    ensures seen' == seen + IdsOf(island) && seen !! IdsOf(island)
    ensures Component(nodes, island) && island[0].id == start
    ensures (island, seen') == Walk(nodes, [nodes[start]], [], seen)
  {
    var stack := [nodes[start]];
    island := [];
    seen' := seen;
    while stack != []
      invariant Taken(nodes, start, seen, island, seen')
      invariant Stacked(nodes, start, stack, island)
      invariant Frontier(island, seen', stack)
      invariant Walk(nodes, stack, island, seen') == Walk(nodes, [nodes[start]], [], seen)
      decreases Range(|nodes|) - seen', |stack|
    {
      ghost var before, depth := seen', |stack|;
      stack, island, seen' := Visit(nodes, start, seen, stack, island, seen');
      assert Range(|nodes|) - seen' < Range(|nodes|) - before || (seen' == before && |stack| < depth);
    }
    ExploreDone(nodes, start, seen, island, seen');
  }

  /** One turn of the traversal loop: pops the top of the stack, and when it
      is unseen takes it into the island, marks it seen and stacks its
      neighbours. */
  method Visit(nodes: seq<GraphNode>, start: nat, seen0: set<nat>,
               stack: seq<GraphNode>, island: seq<GraphNode>, seen: set<nat>)
    returns (stack': seq<GraphNode>, island': seq<GraphNode>, seen': set<nat>)
    requires Graph(nodes) && stack != []
    requires Taken(nodes, start, seen0, island, seen) && Stacked(nodes, start, stack, island) && Frontier(island, seen, stack)
    ensures Taken(nodes, start, seen0, island', seen') && Stacked(nodes, start, stack', island') && Frontier(island', seen', stack')
    ensures var node := stack[|stack| - 1];
      if node.id in seen then stack' == stack[..|stack| - 1] && island' == island && seen' == seen
      else (&& node.id < |nodes| && island' == island + [node] && seen' == seen + {node.id}
            && (forall j :: 0 <= j < |node.edges| ==> node.edges[j] < |nodes|)
            && stack' == stack[..|stack| - 1] + Targets(nodes, node.edges))
  {
    var node := stack[|stack| - 1];
    var rest := stack[..|stack| - 1];
    assert stack == rest + [node];
    if node.id !in seen {
      NodeEdges(nodes, node);
      TakeTaken(nodes, start, seen0, rest, node, island, seen);
      TakeStacked(nodes, start, rest, node, island);
      TakeFrontier(nodes, island, seen, rest, node);
      island' := island + [node];
      seen' := seen + {node.id};
      stack' := PushTargets(nodes, rest, node.edges);
    } else {
      SkipStacked(nodes, start, seen0, rest, node, island, seen);
      SkipFrontier(island, seen, rest, node);
      stack', island', seen' := rest, island, seen;
    }
  }

  lemma {:induction false} IdsOfSnoc(part: seq<GraphNode>, node: GraphNode)
    ensures IdsOf(part + [node]) == IdsOf(part) + {node.id}
  {
    var p := part + [node];
    assert forall k :: 0 <= k < |part| ==> p[k] == part[k];
    assert p[|part|] == node;
  }

  lemma {:induction false} IdsOfAppend(a: seq<GraphNode>, b: seq<GraphNode>)
    ensures IdsOf(a + b) == IdsOf(a) + IdsOf(b)
  {
    var p := a + b;
    assert forall k :: 0 <= k < |a| ==> p[k] == a[k];
    assert forall k :: 0 <= k < |b| ==> p[|a| + k] == b[k];
    forall x | x in IdsOf(p) ensures x in IdsOf(a) + IdsOf(b) {
      var k :| 0 <= k < |p| && p[k].id == x;
      if k >= |a| {
        assert b[k - |a|].id == x;
      }
    }
  }

  /** A graph node's edges name graph nodes. */
  lemma {:induction false} NodeEdges(nodes: seq<GraphNode>, node: GraphNode)
    requires Graph(nodes) && node.id < |nodes| && nodes[node.id] == node
    ensures forall j :: 0 <= j < |node.edges| ==> node.edges[j] < |nodes|
  {
    forall j | 0 <= j < |node.edges| ensures node.edges[j] < |nodes| {
      assert node.edges[j] in nodes[node.id].edges;
    }
  }

  /** Popping a node already seen keeps the stack invariant. */
  lemma {:induction false} SkipStacked(nodes: seq<GraphNode>, start: nat, seen0: set<nat>,
                                       rest: seq<GraphNode>, node: GraphNode, island: seq<GraphNode>, seen: set<nat>)
    requires Graph(nodes) && Taken(nodes, start, seen0, island, seen) && Stacked(nodes, start, rest + [node], island)
    requires node.id in seen
    ensures Stacked(nodes, start, rest, island)
  {
    var s := rest + [node];
    assert forall t :: 0 <= t < |rest| ==> s[t] == rest[t];
    if island == [] {
      assert node.id == start by {
        assert s == [nodes[start]];
        assert s[0] == node;
      }
    }
  }

  /** Popping a node already seen keeps the frontier. */
  lemma {:induction false} SkipFrontier(island: seq<GraphNode>, seen: set<nat>, rest: seq<GraphNode>, node: GraphNode)
    requires Frontier(island, seen, rest + [node]) && node.id in seen
    ensures Frontier(island, seen, rest)
  {
    IdsOfSnoc(rest, node);
  }

  /** Taking an unseen node extends what has been taken. */
  lemma {:induction false} TakeTaken(nodes: seq<GraphNode>, start: nat, seen0: set<nat>,
                                     rest: seq<GraphNode>, node: GraphNode, island: seq<GraphNode>, seen: set<nat>)
    requires Graph(nodes) && Taken(nodes, start, seen0, island, seen) && Stacked(nodes, start, rest + [node], island)
    requires node.id !in seen
    ensures Taken(nodes, start, seen0, island + [node], seen + {node.id})
  {
    var s := rest + [node];
    assert s[|rest|] == node;
    IdsOfSnoc(island, node);
    TakeDistinct(island, node);
    if island != [] {
      assert island[0].id in IdsOf(island);
      TakeSpanned(island, node);
    }
  }

  lemma {:induction false} TakeDistinct(island: seq<GraphNode>, node: GraphNode)
    requires DistinctIds(island) && node.id !in IdsOf(island)
    ensures DistinctIds(island + [node])
  {
    var p := island + [node];
    forall a, b | 0 <= a < b < |p| ensures p[a].id != p[b].id {
      assert p[a] == island[a];
      if b == |island| {
        assert p[a].id in IdsOf(island);
      } else {
        assert p[b] == island[b];
      }
    }
  }

  /** A node adjacent to one already taken may follow them. */
  lemma {:induction false} TakeSpanned(island: seq<GraphNode>, node: GraphNode)
    requires Spanned(island) && exists m :: 0 <= m < |island| && node.id in island[m].edges
    ensures Spanned(island + [node])
  {
    var p := island + [node];
    forall k | 0 < k < |p| ensures HasParent(p, k) {
      if k < |island| {
        assert p[k] == island[k];
        assert HasParent(island, k);
        var m :| 0 <= m < k && island[k].id in island[m].edges;
        assert p[m] == island[m];
      } else {
        assert p[k] == node;
        var m :| 0 <= m < |island| && node.id in island[m].edges;
        assert p[m] == island[m];
      }
    }
  }

  /** Stacking the neighbours of the node taken keeps the stack invariant. */
  lemma {:induction false} TakeStacked(nodes: seq<GraphNode>, start: nat, rest: seq<GraphNode>, node: GraphNode, island: seq<GraphNode>)
    requires Graph(nodes) && Stacked(nodes, start, rest + [node], island)
    requires forall j :: 0 <= j < |node.edges| ==> node.edges[j] < |nodes|
    ensures Stacked(nodes, start, rest + Targets(nodes, node.edges), island + [node])
  {
    var stack := rest + [node];
    var s := rest + Targets(nodes, node.edges);
    var p := island + [node];
    forall t | 0 <= t < |s| ensures s[t].id < |nodes| && nodes[s[t].id] == s[t] {
      if t < |rest| {
        assert s[t] == stack[t];
      }
    }
    forall t | 0 <= t < |s| ensures s[t].id == start || exists m :: 0 <= m < |p| && s[t].id in p[m].edges {
      if t < |rest| {
        assert s[t] == stack[t];
        if s[t].id != start {
          var m :| 0 <= m < |island| && stack[t].id in island[m].edges;
          assert p[m] == island[m];
        }
      } else {
        assert s[t].id == node.edges[t - |rest|];
        assert p[|island|] == node;
      }
    }
  }

  /** Taking a node and stacking its neighbours keeps the frontier. */
  lemma {:induction false} TakeFrontier(nodes: seq<GraphNode>, island: seq<GraphNode>, seen: set<nat>, rest: seq<GraphNode>, node: GraphNode)
    requires Graph(nodes) && Frontier(island, seen, rest + [node])
    requires forall j :: 0 <= j < |node.edges| ==> node.edges[j] < |nodes|
    ensures Frontier(island + [node], seen + {node.id}, rest + Targets(nodes, node.edges))
  {
    var targets := Targets(nodes, node.edges);
    var p := island + [node];
    IdsOfSnoc(rest, node);
    IdsOfAppend(rest, targets);
    forall k, e | 0 <= k < |p| && e in p[k].edges ensures e in seen + {node.id} || e in IdsOf(rest + targets) {
      if k < |island| {
        assert p[k] == island[k];
      } else {
        var j :| 0 <= j < |node.edges| && node.edges[j] == e;
        assert targets[j].id == e;
      }
    }
  }

  /** When the stack is empty the island is complete: no edge leaves it. */
  lemma {:induction false} ExploreDone(nodes: seq<GraphNode>, start: nat, seen0: set<nat>, island: seq<GraphNode>, seen: set<nat>)
    requires Graph(nodes) && Closed(nodes, seen0)
    requires Taken(nodes, start, seen0, island, seen) && Stacked(nodes, start, [], island) && Frontier(island, seen, [])
    ensures Component(nodes, island) && island[0].id == start
  {
    ExploreClosed(nodes, seen0, island, seen);
  }

  lemma {:induction false} ExploreClosed(nodes: seq<GraphNode>, seen0: set<nat>, island: seq<GraphNode>, seen: set<nat>)
    requires Graph(nodes) && Closed(nodes, seen0) && FromGraph(nodes, island)
    requires seen == seen0 + IdsOf(island) && seen0 !! IdsOf(island) && Frontier(island, seen, [])
    ensures Closed(nodes, IdsOf(island))
  {
    forall i, e | i in IdsOf(island) && 0 <= i < |nodes| && e in nodes[i].edges ensures e in IdsOf(island) {
      var k :| 0 <= k < |island| && island[k].id == i;
      assert e in island[k].edges;
    }
  }

  /** The islands found while scanning the first `i` nodes: each an island
      whose first node comes before `i`, pairwise disjoint and in order of
      their first node; the seen ids are theirs, take in every index below
      `i` and have no edge leaving them. */
  ghost predicate Found(nodes: seq<GraphNode>, islands: seq<seq<GraphNode>>, seen: set<nat>, i: nat) {
    && i <= |nodes|
    && (forall k :: 0 <= k < |islands| ==> IslandOk(nodes, islands[k]) && islands[k][0].id < i)
    && (forall k1, k2 :: 0 <= k1 < k2 < |islands| ==>
          IdsOf(islands[k1]) !! IdsOf(islands[k2]) && islands[k1][0].id < islands[k2][0].id)
    && seen == Union(islands)
    && (forall j: nat :: j < i ==> j in seen)
    && (forall j :: j in seen ==> j < |nodes|)
    && Closed(nodes, seen)
  }

  /** The islands of a graph's nodes, in the order their first node is met
      (the outer loop of splitIntoIslands). */
  method FindIslands(nodes: seq<GraphNode>) returns (islands: seq<seq<GraphNode>>)
    requires Graph(nodes)
    ensures IslandsOf(nodes, islands)
    ensures islands == Scan(nodes, |nodes|).0
  {
    islands := [];
    var seen: set<nat> := {};
    for i := 0 to |nodes|
      invariant Found(nodes, islands, seen, i)
      invariant (islands, seen) == Scan(nodes, i)
    {
      islands, seen := ScanNode(nodes, islands, seen, i);
    }
    FoundAll(nodes, islands, seen);
  }

  /** One turn of the outer loop: node `i`, when unseen, starts a new island. */
  method ScanNode(nodes: seq<GraphNode>, islands: seq<seq<GraphNode>>, seen: set<nat>, i: nat)
    returns (islands': seq<seq<GraphNode>>, seen': set<nat>)
    requires Graph(nodes) && i < |nodes| && Found(nodes, islands, seen, i) && (islands, seen) == Scan(nodes, i)
    ensures Found(nodes, islands', seen', i + 1) && (islands', seen') == Scan(nodes, i + 1)
  {
    var startNode := nodes[i];
    if startNode.id !in seen {
      var island;
      island, seen' := Explore(nodes, startNode.id, seen);
      FoundStep(nodes, islands, seen, i, island, seen');
      ScanTake(nodes, i, islands, seen, island, seen');
      islands' := islands + [island];
    } else {
      ScanSkip(nodes, i, islands, seen);
      FoundSkip(nodes, islands, seen, i);
      islands', seen' := islands, seen;
    }
  }

  /** A node already seen is already inside a found island. */
  lemma {:induction false} FoundSkip(nodes: seq<GraphNode>, islands: seq<seq<GraphNode>>, seen: set<nat>, i: nat)
    requires Graph(nodes) && i < |nodes| && Found(nodes, islands, seen, i) && nodes[i].id in seen
    ensures Found(nodes, islands, seen, i + 1)
  {
    assert nodes[i].id == i;
    forall k | 0 <= k < |islands| ensures islands[k][0].id < i + 1 {
      assert islands[k][0].id < i;
    }
  }

  /** A node already seen leaves the scan as it is. */
  lemma {:induction false} ScanSkip(nodes: seq<GraphNode>, i: nat, islands: seq<seq<GraphNode>>, seen: set<nat>)
    requires Graph(nodes) && i < |nodes| && (islands, seen) == Scan(nodes, i) && nodes[i].id in seen
    ensures Scan(nodes, i + 1) == (islands, seen)
  {
  }

  /** An unseen node appends the island its walk collects. */
  lemma {:induction false} ScanTake(nodes: seq<GraphNode>, i: nat, islands: seq<seq<GraphNode>>, seen: set<nat>,
                                    island: seq<GraphNode>, seen': set<nat>)
    requires Graph(nodes) && i < |nodes| && (islands, seen) == Scan(nodes, i) && nodes[i].id !in seen
    requires (island, seen') == Walk(nodes, [nodes[nodes[i].id]], [], seen)
    ensures Scan(nodes, i + 1) == (islands + [island], seen')
  {
    assert nodes[i].id == i;
  }

  lemma {:induction false} UnionSnoc(islands: seq<seq<GraphNode>>, island: seq<GraphNode>)
    ensures Union(islands + [island]) == Union(islands) + IdsOf(island)
  {
    assert (islands + [island])[..|islands|] == islands;
  }

  lemma {:induction false} InUnion(islands: seq<seq<GraphNode>>, k: nat)
    requires k < |islands|
    ensures IdsOf(islands[k]) <= Union(islands)
  {
    var init := islands[..|islands| - 1];
    if k < |init| {
      InUnion(init, k);
      assert init[k] == islands[k];
    }
  }

  /** An island found from node `i` joins the islands found so far. */
  lemma {:induction false} FoundStep(nodes: seq<GraphNode>, islands: seq<seq<GraphNode>>, seen: set<nat>, i: nat,
                                     island: seq<GraphNode>, seen': set<nat>)
    requires Graph(nodes) && i < |nodes| && Found(nodes, islands, seen, i) && i !in seen
    requires seen' == seen + IdsOf(island) && seen !! IdsOf(island)
    requires Component(nodes, island) && island[0].id == i
    ensures Found(nodes, islands + [island], seen', i + 1)
  {
    UnionSnoc(islands, island);
    LeaderSmallest(seen, i, island);
    FoundIslandsOk(nodes, islands, i, island);
    FoundApart(nodes, islands, seen, i, island);
    assert island[0].id in IdsOf(island);
    IdsInGraph(nodes, seen, island);
    FoundClosed(nodes, seen, island);
  }

  /** Adding the ids of a part of the graph to a set of node indices keeps
      it a set of node indices. */
  lemma {:induction false} IdsInGraph(nodes: seq<GraphNode>, seen: set<nat>, part: seq<GraphNode>)
    requires FromGraph(nodes, part) && forall j :: j in seen ==> j < |nodes|
    ensures forall j :: j in seen + IdsOf(part) ==> j < |nodes|
  {
    forall j | j in seen + IdsOf(part) ensures j < |nodes| {
      if j !in seen {
        var k :| 0 <= k < |part| && part[k].id == j;
      }
    }
  }

  /** An island clear of a seen set holding every id below `i` has no id below `i`. */
  lemma {:induction false} LeaderSmallest(seen: set<nat>, i: nat, island: seq<GraphNode>)
    requires (forall j: nat :: j < i ==> j in seen) && seen !! IdsOf(island)
    ensures forall k :: 0 <= k < |island| ==> i <= island[k].id
  {
    forall k | 0 <= k < |island| ensures i <= island[k].id {
      assert island[k].id in IdsOf(island);
    }
  }

  /** Appending an island led by `i` keeps every island valid and led below `i + 1`. */
  lemma {:induction false} FoundIslandsOk(nodes: seq<GraphNode>, islands: seq<seq<GraphNode>>, i: nat, island: seq<GraphNode>)
    requires forall k :: 0 <= k < |islands| ==> IslandOk(nodes, islands[k]) && islands[k][0].id < i
    requires Component(nodes, island) && island[0].id == i
    requires forall k :: 0 <= k < |island| ==> i <= island[k].id
    ensures var islands' := islands + [island];
      forall k :: 0 <= k < |islands'| ==> IslandOk(nodes, islands'[k]) && islands'[k][0].id < i + 1
  {
    var islands' := islands + [island];
    forall k | 0 <= k < |islands'| ensures IslandOk(nodes, islands'[k]) && islands'[k][0].id < i + 1 {
      if k < |islands| {
        assert islands'[k] == islands[k];
      }
    }
  }

  /** A new island, disjoint from the seen set and led by a node past every
      earlier leader, keeps the islands apart and in order. */
  lemma {:induction false} FoundApart(nodes: seq<GraphNode>, islands: seq<seq<GraphNode>>, seen: set<nat>, i: nat,
                                      island: seq<GraphNode>)
    requires Found(nodes, islands, seen, i) && seen !! IdsOf(island) && |island| > 0 && island[0].id == i
    ensures var islands' := islands + [island];
      forall k1, k2 :: 0 <= k1 < k2 < |islands'| ==>
        IdsOf(islands'[k1]) !! IdsOf(islands'[k2]) && islands'[k1][0].id < islands'[k2][0].id
  {
    var islands' := islands + [island];
    forall k1, k2 | 0 <= k1 < k2 < |islands'|
      ensures IdsOf(islands'[k1]) !! IdsOf(islands'[k2]) && islands'[k1][0].id < islands'[k2][0].id
    {
      assert islands'[k1] == islands[k1];
      if k2 < |islands| {
        assert islands'[k2] == islands[k2];
      } else {
        InUnion(islands, k1);
      }
    }
  }

  /** Adding a set with no edge leaving it keeps the seen set closed. */
  lemma {:induction false} FoundClosed(nodes: seq<GraphNode>, seen: set<nat>, island: seq<GraphNode>)
    requires Closed(nodes, seen) && Closed(nodes, IdsOf(island))
    ensures Closed(nodes, seen + IdsOf(island))
  {
  }

  /** After the scan the islands cover every node. */
  lemma {:induction false} FoundAll(nodes: seq<GraphNode>, islands: seq<seq<GraphNode>>, seen: set<nat>)
    requires Found(nodes, islands, seen, |nodes|)
    ensures IslandsOf(nodes, islands)
  {
    assert seen == Range(|nodes|);
  }

  /** Each island's edges stay inside it; its repacked graph has the graph
      invariants again, and is well formed when the whole graph was. */
  lemma {:induction false} IslandRepack(nodes: seq<GraphNode>, island: seq<GraphNode>, id: string)
    requires Graph(nodes) && Component(nodes, island)
    ensures EdgesClosed(island)
    ensures Graph(Repacked(WireGraph(id, island)).nodes)
    ensures WellFormed(nodes) ==> WellFormed(Repacked(WireGraph(id, island)).nodes)
  {
    forall k, e | 0 <= k < |island| && e in island[k].edges ensures e in IdsOf(island) {
      assert island[k].id in IdsOf(island);
    }
    var g := WireGraph(id, island);
    forall a, b | 0 <= a < |island| && 0 <= b < |island|
      ensures multiset(island[a].edges)[island[b].id] == multiset(island[b].edges)[island[a].id]
    {
    }
    RepackedShape(g);
    RepackedSymmetric(g);
    if WellFormed(nodes) {
      IslandRepackWellFormed(nodes, island, id);
    }
  }

  /** An island of a well-formed graph is well-formed once repacked. */
  lemma {:induction false} IslandRepackWellFormed(nodes: seq<GraphNode>, island: seq<GraphNode>, id: string)
    requires WellFormed(nodes) && Graph(nodes) && Component(nodes, island) && EdgesClosed(island)
    requires Graph(Repacked(WireGraph(id, island)).nodes)
    ensures WellFormed(Repacked(WireGraph(id, island)).nodes)
  {
    var g := WireGraph(id, island);
    forall k | 0 <= k < |island| ensures island[k].id !in island[k].edges {
    }
    forall a, b | 0 <= a < b < |island| ensures island[a].pos != island[b].pos {
      var ia, ib := island[a].id, island[b].id;
      assert ia != ib;
      if ia < ib {
        assert nodes[ia].pos != nodes[ib].pos;
      } else {
        assert nodes[ib].pos != nodes[ia].pos;
      }
    }
    RepackedShape(g);
    RepackedLoopFree(g);
  }

  /** `r` is the split of `g` along `islands`, which are the islands the
      stack walk collects, in its order: the graph itself when there is
      exactly one island, otherwise each island repacked, in order; every part
      keeps the graph's id and invariants. */
  ghost predicate SplitInto(g: WireGraph, islands: seq<seq<GraphNode>>, r: seq<WireGraph>) {
    && Graph(g.nodes)
    && IslandsOf(g.nodes, islands)
    && islands == Scan(g.nodes, |g.nodes|).0
    && (|islands| == 1 ==> r == [g])
    && (|islands| != 1 ==> |r| == |islands| && forall k :: 0 <= k < |r| ==>
          EdgesClosed(islands[k]) && r[k] == Repacked(WireGraph(g.id, islands[k])))
    && (forall k :: 0 <= k < |r| ==> r[k].id == g.id && Graph(r[k].nodes))
  }

  /** Splits a graph into its islands (splitIntoIslands): the graph itself
      when it has exactly one, otherwise every island with its ids repacked,
      in the order the islands were found. */
  method SplitIntoIslands(g: WireGraph) returns (r: seq<WireGraph>, ghost islands: seq<seq<GraphNode>>)
    requires Graph(g.nodes)
    ensures SplitInto(g, islands, r)
    ensures WellFormed(g.nodes) ==> forall k :: 0 <= k < |r| ==> WellFormed(r[k].nodes)
  {
    var parts := FindIslands(g.nodes);
    islands := parts;
    if |parts| == 1 {
      return [g], islands;
    }
    r := [];
    for k := 0 to |parts|
      invariant PackedUpTo(g, parts, r, k)
    {
      r := PackNext(g, parts, r, k);
    }
  }

  /** The first `k` islands are repacked, in order, into graphs with the
      graph's id. */
  ghost predicate PackedUpTo(g: WireGraph, parts: seq<seq<GraphNode>>, r: seq<WireGraph>, k: nat) {
    && |r| == k <= |parts|
    && (forall t :: 0 <= t < k ==> EdgesClosed(parts[t]) && r[t] == Repacked(WireGraph(g.id, parts[t])))
    && (forall t :: 0 <= t < k ==> r[t].id == g.id && Graph(r[t].nodes))
    && (WellFormed(g.nodes) ==> forall t :: 0 <= t < k ==> WellFormed(r[t].nodes))
  }

  /** One step of the loop: repacks island `k` and appends it. */
  method PackNext(g: WireGraph, parts: seq<seq<GraphNode>>, r: seq<WireGraph>, k: nat) returns (r': seq<WireGraph>)
    requires Graph(g.nodes) && k < |parts| && Component(g.nodes, parts[k]) && PackedUpTo(g, parts, r, k)
    ensures PackedUpTo(g, parts, r', k + 1)
  {
    IslandRepack(g.nodes, parts[k], g.id);
    var packed := RepackGraphIds(WireGraph(g.id, parts[k]));
    r' := r + [packed];
  }
}
