/** The interactive edits built on the graph form: dragging one segment of a
    wire (dragSegment, findNodesForSegment) and carrying the wires along with
    a moved component (moveWiresWithComp). */
module Mutators {
  import opened Geometry
  import opened WireGraphs
  import opened BuilderSpec
  import opened Builder
  import opened Serializer
  import opened Islands
  import opened Reconciler

  // ---------------------------------------------------------------------
  // Moving nodes and what it does to the drawn segments

  /** Serialising two graphs that differ only in node positions draws the
      same pairs, so the same segments in the same order with the same
      references, each ending at the new positions of its nodes. */
  lemma {:induction false} MovedSegments(g: WireGraph, g': WireGraph)
    requires EdgesInRange(g.nodes) && |g'.nodes| == |g.nodes| && g'.id == g.id
    requires forall i :: 0 <= i < |g.nodes| ==>
      g'.nodes[i].id == g.nodes[i].id && g'.nodes[i].ref == g.nodes[i].ref && g'.nodes[i].edges == g.nodes[i].edges
    ensures EdgesInRange(g'.nodes)
    ensures Serialized(g').id == Serialized(g).id
    ensures |Serialized(g').segments| == |Serialized(g).segments|
    ensures forall k :: 0 <= k < |Serialized(g).segments| ==>
      var pr := Pairs(g.nodes, |g.nodes|)[k];
      var s, s' := Serialized(g).segments[k], Serialized(g').segments[k];
      && s == Segment(g.nodes[pr.0].pos, g.nodes[pr.1].pos, s.comp0Ref, s.comp1Ref)
      && s' == Segment(g'.nodes[pr.0].pos, g'.nodes[pr.1].pos, s.comp0Ref, s.comp1Ref)
  {
    assert forall i, e :: 0 <= i < |g'.nodes| && e in g'.nodes[i].edges ==> e in g.nodes[i].edges;
    SamePairs(g.nodes, g'.nodes, |g.nodes|);
  }

  /** The pairs depend on ids and adjacency only. */
  lemma {:induction false} SamePairs(n1: seq<GraphNode>, n2: seq<GraphNode>, n: nat)
    requires |n1| == |n2| && n <= |n1|
    requires forall i :: 0 <= i < |n1| ==> n1[i].id == n2[i].id && n1[i].edges == n2[i].edges
    ensures Pairs(n1, n) == Pairs(n2, n)
  {
    if n > 0 {
      SamePairs(n1, n2, n - 1);
      SameUpPairs(n1, n2, n - 1, n1[n - 1].edges);
    }
  }

  lemma {:induction false} SameUpPairs(n1: seq<GraphNode>, n2: seq<GraphNode>, a: nat, es: seq<nat>)
    requires |n1| == |n2| && a < |n1|
    requires forall i :: 0 <= i < |n1| ==> n1[i].id == n2[i].id && n1[i].edges == n2[i].edges
    ensures UpPairs(n1, a, es) == UpPairs(n2, a, es)
  {
    if es != [] {
      SameUpPairs(n1, n2, a, es[..|es| - 1]);
    }
  }

  // ---------------------------------------------------------------------
  // findNodesForSegment

  /** Node `a` sits at the segment's start and its j-th neighbour at its end. */
  predicate Matches(nodes: seq<GraphNode>, seg: Segment, a: nat, j: nat)
    requires EdgesInRange(nodes)
  {
    a < |nodes| && j < |nodes[a].edges| &&
    nodes[a].pos == seg.p0 && nodes[a].edges[j] < |nodes| && nodes[nodes[a].edges[j]].pos == seg.p1
  }

  /** The match (a, j) comes first in the search order: by node, then by edge. */
  ghost predicate FirstMatch(nodes: seq<GraphNode>, seg: Segment, a: nat, j: nat)
    requires EdgesInRange(nodes)
  {
    Matches(nodes, seg, a, j) &&
    forall a': nat, j': nat :: (a' < a || (a' == a && j' < j)) ==> !Matches(nodes, seg, a', j')
  }

  /** Finds the edge a segment was drawn from (findNodesForSegment): the
      first node at its start with a neighbour at its end, giving both ids;
      None stands for the error raised when there is none. */
  method FindNodesForSegment(g: WireGraph, seg: Segment) returns (r: Option<(nat, nat)>)
    requires EdgesInRange(g.nodes)
    ensures r.None? <==> forall a: nat, j: nat :: !Matches(g.nodes, seg, a, j)
    ensures r.Some? ==> exists a: nat, j: nat ::
      FirstMatch(g.nodes, seg, a, j) && r.value == (g.nodes[a].id, g.nodes[g.nodes[a].edges[j]].id)
  {
    var nodes := g.nodes;
    for a := 0 to |nodes|
      invariant forall a': nat, j': nat :: a' < a ==> !Matches(nodes, seg, a', j')
    {
      if nodes[a].pos != seg.p0 {
        continue;
      }
      var edges := nodes[a].edges;
      for j := 0 to |edges|
        invariant forall a': nat, j': nat :: (a' < a || (a' == a && j' < j)) ==> !Matches(nodes, seg, a', j')
      {
        var e := edges[j];
        assert e in nodes[a].edges;
        if nodes[e].pos == seg.p1 {
          assert FirstMatch(nodes, seg, a, j);
          return Some((nodes[a].id, nodes[e].id));
        }
      }
    }
    return None;
  }

  // ---------------------------------------------------------------------
  // dragSegment

  /** Node `e` is a neighbour of node `i` in a direction parallel or
      anti-parallel to `dir`. */
  ghost predicate Step(nodes: seq<GraphNode>, dir: Point, i: nat, e: nat) {
    i < |nodes| && e < |nodes| && e in nodes[i].edges && Parallel(Sub(nodes[e].pos, nodes[i].pos), dir)
  }

  /** No parallel step leaves the set. */
  ghost predicate ClosedUnder(nodes: seq<GraphNode>, dir: Point, s: set<nat>) {
    forall i, e :: i in s && Step(nodes, dir, i, e) ==> e in s
  }

  /** A set holding both start nodes that no parallel step leaves. */
  ghost predicate Admissible(nodes: seq<GraphNode>, dir: Point, a: nat, b: nat, t: set<nat>) {
    a in t && b in t && ClosedUnder(nodes, dir, t)
  }

  /** `s` is the set of nodes reached from `a` and `b` by parallel steps:
      the least admissible set. */
  ghost predicate Reached(nodes: seq<GraphNode>, dir: Point, a: nat, b: nat, s: set<nat>) {
    Admissible(nodes, dir, a, b, s) && forall t :: Admissible(nodes, dir, a, b, t) ==> s <= t
  }

  /** Everything seen or still stacked lies in every admissible set. */
  ghost predicate Bounded(nodes: seq<GraphNode>, dir: Point, a: nat, b: nat, seen: set<nat>, stack: seq<nat>) {
    forall t :: Admissible(nodes, dir, a, b, t) ==>
      seen <= t && forall k :: 0 <= k < |stack| ==> stack[k] in t
  }

  /** Every parallel step from a seen node leads to a seen or stacked node. */
  ghost predicate Pending(nodes: seq<GraphNode>, dir: Point, seen: set<nat>, stack: seq<nat>) {
    forall i, e :: i in seen && Step(nodes, dir, i, e) ==> e in seen || e in stack
  }

  /** Pushes the neighbours of `x` in a direction parallel to `dir`, in
      adjacency order. */
  method PushParallel(nodes: seq<GraphNode>, dir: Point, x: nat, stack: seq<nat>) returns (stack': seq<nat>)
    requires EdgesInRange(nodes) && x < |nodes|
    ensures |stack'| >= |stack| && stack'[..|stack|] == stack
    ensures forall k :: |stack| <= k < |stack'| ==> Step(nodes, dir, x, stack'[k])
    ensures forall e :: Step(nodes, dir, x, e) ==> e in stack'
  {
    stack' := stack;
    var edges := nodes[x].edges;
    for j := 0 to |edges|
      invariant |stack'| >= |stack| && stack'[..|stack|] == stack
      invariant forall k :: |stack| <= k < |stack'| ==> Step(nodes, dir, x, stack'[k])
      invariant forall j' :: 0 <= j' < j && Step(nodes, dir, x, edges[j']) ==> edges[j'] in stack'
    {
      var e := edges[j];
      assert e in nodes[x].edges;
      if Parallel(Sub(nodes[e].pos, nodes[x].pos), dir) {
        stack' := stack' + [e];
      }
    }
  }

  /** One pass of the walk: pop a node; a node not seen before is added to
      the set and its parallel neighbours are pushed. */
  method Visit(nodes: seq<GraphNode>, dir: Point, ghost a: nat, ghost b: nat, seen: set<nat>, stack: seq<nat>)
      returns (seen': set<nat>, stack': seq<nat>)
    requires EdgesInRange(nodes) && stack != []
    requires forall k :: 0 <= k < |stack| ==> stack[k] < |nodes|
    requires seen <= Range(|nodes|)
    requires Bounded(nodes, dir, a, b, seen, stack) && Pending(nodes, dir, seen, stack)
    requires (a in seen || a in stack) && (b in seen || b in stack)
    ensures forall k :: 0 <= k < |stack'| ==> stack'[k] < |nodes|
    ensures seen' <= Range(|nodes|)
    ensures Bounded(nodes, dir, a, b, seen', stack') && Pending(nodes, dir, seen', stack')
    ensures (a in seen' || a in stack') && (b in seen' || b in stack')
    ensures (seen' == seen && |stack'| < |stack|) || seen < seen'
  {
    var x := stack[|stack| - 1];
    var rest := stack[..|stack| - 1];
    assert stack == rest + [x];
    if x in seen {
      seen', stack' := seen, rest;
      forall t | Admissible(nodes, dir, a, b, t) ensures forall k :: 0 <= k < |rest| ==> rest[k] in t {
        assert forall k :: 0 <= k < |rest| ==> rest[k] == stack[k];
      }
    } else {
      seen' := seen + {x};
      stack' := PushParallel(nodes, dir, x, rest);
      VisitBounded(nodes, dir, a, b, seen, rest, x, stack');
      forall i, e | i in seen' && Step(nodes, dir, i, e) ensures e in seen' || e in stack' {
        if i != x && e !in seen {
          assert e in stack;
          assert e in rest + [x];
          if e in rest {
            assert e in stack'[..|rest|];
          }
        }
      }
      assert forall k :: 0 <= k < |rest| ==> stack'[k] == rest[k];
      assert forall y :: y in stack ==> y in seen' || y in stack' by {
        forall y | y in stack ensures y in seen' || y in stack' {
          assert y in rest + [x];
          if y in rest {
            assert y in stack'[..|rest|];
          }
        }
      }
    }
  }

  /** The pushed neighbours of a popped node lie in every admissible set. */
  lemma {:induction false} VisitBounded(nodes: seq<GraphNode>, dir: Point, a: nat, b: nat,
      seen: set<nat>, rest: seq<nat>, x: nat, stack': seq<nat>)
    requires Bounded(nodes, dir, a, b, seen, rest + [x])
    requires |stack'| >= |rest| && stack'[..|rest|] == rest
    requires forall k :: |rest| <= k < |stack'| ==> Step(nodes, dir, x, stack'[k])
    ensures Bounded(nodes, dir, a, b, seen + {x}, stack')
  {
    forall t | Admissible(nodes, dir, a, b, t)
      ensures seen + {x} <= t && forall k :: 0 <= k < |stack'| ==> stack'[k] in t
    {
      assert (rest + [x])[|rest|] == x;
      forall k | 0 <= k < |stack'| ensures stack'[k] in t {
        if k < |rest| {
          assert stack'[k] == (rest + [x])[k];
        }
      }
    }
  }

  /** The nodes reached from `a` and `b` along parallel edges (the stack
      walk of dragSegment). Node ids are indices here, so the seen set and
      the set of nodes to move are one set. */
  method FloodParallel(nodes: seq<GraphNode>, dir: Point, a: nat, b: nat) returns (seen: set<nat>)
    requires EdgesInRange(nodes) && a < |nodes| && b < |nodes|
    ensures Reached(nodes, dir, a, b, seen)
  {
    var stack: seq<nat> := [a, b];
    seen := {};
    while stack != []
      invariant forall k :: 0 <= k < |stack| ==> stack[k] < |nodes|
      invariant seen <= Range(|nodes|)
      invariant Bounded(nodes, dir, a, b, seen, stack) && Pending(nodes, dir, seen, stack)
      invariant (a in seen || a in stack) && (b in seen || b in stack)
      decreases Range(|nodes|) - seen, |stack|
    {
      seen, stack := Visit(nodes, dir, a, b, seen, stack);
    }
  }

  /** The nodes with those in `s` moved by `delta`. */
  function Moved(nodes: seq<GraphNode>, s: set<nat>, delta: Point): (r: seq<GraphNode>)
    ensures |r| == |nodes|
  {
    seq(|nodes|, k requires 0 <= k < |nodes| =>
      if k in s then nodes[k].(pos := SnapToGrid(Add(nodes[k].pos, delta))) else nodes[k])
  }

  /** The graph of a straight run with a bend: (0,0)-(5,0)-(10,0) and (5,0)-(5,5). */
  predicate RunWithBend(nodes: seq<GraphNode>) {
    && |nodes| == 4
    && nodes[0].pos == Point(0, 0) && nodes[1].pos == Point(5, 0)
    && nodes[2].pos == Point(10, 0) && nodes[3].pos == Point(5, 5)
    && nodes[0].edges == [1] && nodes[1].edges == [0, 2, 3] && nodes[2].edges == [1] && nodes[3].edges == [1]
  }

  /** Dragging the segment (0,0)-(5,0) of that run moves the whole straight
      run, (10,0) included, and stops at the bend: (5,5) stays. */
  lemma {:induction false} DragCarriesStraightRun(nodes: seq<GraphNode>)
    requires RunWithBend(nodes)
    ensures Reached(nodes, Point(5, 0), 0, 1, {0, 1, 2})
  {
    RunClosed(nodes, {0, 1, 2});
    RunStep(nodes);
    LeastRun(nodes, Point(5, 0));
  }

  /** The middle node of the run steps on to its far end. */
  lemma {:induction false} RunStep(nodes: seq<GraphNode>)
    requires RunWithBend(nodes)
    ensures Step(nodes, Point(5, 0), 1, 2)
  {
    assert nodes[1].edges[1] == 2;
  }

  /** A closed set holding 0 and 1, where 1 steps on to 2, is least once it
      is {0, 1, 2}. */
  lemma {:induction false} LeastRun(nodes: seq<GraphNode>, dir: Point)
    requires Admissible(nodes, dir, 0, 1, {0, 1, 2}) && Step(nodes, dir, 1, 2)
    ensures Reached(nodes, dir, 0, 1, {0, 1, 2})
  {
    forall t | Admissible(nodes, dir, 0, 1, t) ensures {0, 1, 2} <= t {
      ClosedStep(nodes, dir, t, 1, 2);
    }
  }

  /** A closed set holding `i` holds every parallel neighbour of `i`. */
  lemma {:induction false} ClosedStep(nodes: seq<GraphNode>, dir: Point, t: set<nat>, i: nat, e: nat)
    requires ClosedUnder(nodes, dir, t) && i in t && Step(nodes, dir, i, e)
    ensures e in t
  {
  }

  /** No parallel step leaves {0, 1, 2}: the only edge out of it, 1-3, is
      perpendicular to the run. */
  lemma {:induction false} RunClosed(nodes: seq<GraphNode>, t: set<nat>)
    requires RunWithBend(nodes) && t == {0, 1, 2}
    ensures Admissible(nodes, Point(5, 0), 0, 1, t)
  {
    forall i, e | i in t && Step(nodes, Point(5, 0), i, e) ensures e in t {
      assert e in nodes[i].edges;
    }
  }

  /** Moves the nodes of the set (the last loop of dragSegment). */
  method MoveNodes(nodes: seq<GraphNode>, s: set<nat>, delta: Point) returns (nodes': seq<GraphNode>)
    ensures nodes' == Moved(nodes, s, delta)
  {
    nodes' := nodes;
    for k := 0 to |nodes|
      invariant |nodes'| == |nodes|
      invariant forall t :: 0 <= t < k ==> nodes'[t] == Moved(nodes, s, delta)[t]
      invariant forall t :: k <= t < |nodes| ==> nodes'[t] == nodes[t]
    {
      if k in s {
        nodes' := nodes'[k := nodes'[k].(pos := SnapToGrid(Add(nodes'[k].pos, delta)))];
      }
    }
  }

  /** The outcome of a drag that found its segment: `a` and `b` are the
      first matching edge, `moved` is what the flood fill reaches from it,
      and `w` is the graph drawn again with those nodes moved. */
  ghost predicate Dragged(wire: Wire, segId: nat, delta: Point, g: WireGraph, a: nat, b: nat, moved: set<nat>, w: Wire)
    requires segId < |wire.segments| && EdgesInRange(g.nodes)
  {
    var seg := wire.segments[segId];
    && (exists j: nat :: FirstMatch(g.nodes, seg, a, j) && g.nodes[a].edges[j] == b)
    && Reached(g.nodes, Sub(seg.p1, seg.p0), a, b, moved)
    && (MovedGraph(g.nodes, moved, delta); w == Serialized(WireGraph(g.id, Moved(g.nodes, moved, delta))))
  }

  /** Drags one segment of a wire by `delta` (dragSegment): the nodes reached
      from the segment's two nodes along parallel edges move, all others stay.
      None stands for the error raised when the segment is not an edge of the
      wire's graph. */
  method DragSegment(wire: Wire, segId: nat, delta: Point)
      returns (r: Option<Wire>, ghost g: WireGraph, ghost a: nat, ghost b: nat, ghost moved: set<nat>)
    requires segId < |wire.segments|
    ensures BuiltFrom(wire, g) && EdgesInRange(g.nodes)
    ensures r.None? <==> forall a': nat, j: nat :: !Matches(g.nodes, wire.segments[segId], a', j)
    ensures r.Some? ==> Dragged(wire, segId, delta, g, a, b, moved, r.value)
  {
    var seg := wire.segments[segId];
    var wireGraph := WireToGraph(wire);
    g := wireGraph;
    var found := FindNodesForSegment(wireGraph, seg);
    if found.None? {
      return None, g, 0, 0, {};
    }
    var node0, node1 := found.value.0, found.value.1;
    a, b := node0, node1;
    var segDir := Sub(seg.p1, seg.p0);
    var nodesToMove := FloodParallel(wireGraph.nodes, segDir, node0, node1);
    moved := nodesToMove;
    var nodes' := MoveNodes(wireGraph.nodes, nodesToMove, delta);
    MovedGraph(wireGraph.nodes, nodesToMove, delta);
    var w := GraphToWire(WireGraph(wireGraph.id, nodes'));
    r := Some(w);
  }

  /** Moving nodes keeps ids, references and adjacency. */
  lemma {:induction false} MovedGraph(nodes: seq<GraphNode>, s: set<nat>, delta: Point)
    requires EdgesInRange(nodes)
    ensures EdgesInRange(Moved(nodes, s, delta))
    ensures forall i :: 0 <= i < |nodes| ==>
      Moved(nodes, s, delta)[i].id == nodes[i].id && Moved(nodes, s, delta)[i].ref == nodes[i].ref &&
      Moved(nodes, s, delta)[i].edges == nodes[i].edges
  {
  }

  /** The wire drawn after a drag has the segments of the wire drawn before
      it, in order and with their references; an end moves by `delta`
      exactly when its node was reached. */
  lemma {:induction false} DragMovesReachedEnds(g: WireGraph, s: set<nat>, delta: Point)
    requires EdgesInRange(g.nodes)
    ensures EdgesInRange(Moved(g.nodes, s, delta))
    ensures var before, after := Serialized(g), Serialized(WireGraph(g.id, Moved(g.nodes, s, delta)));
      && after.id == before.id && |after.segments| == |before.segments|
      && forall k :: 0 <= k < |before.segments| ==>
        var pr := Pairs(g.nodes, |g.nodes|)[k];
        after.segments[k] == Segment(
          if pr.0 in s then Add(before.segments[k].p0, delta) else before.segments[k].p0,
          if pr.1 in s then Add(before.segments[k].p1, delta) else before.segments[k].p1,
          before.segments[k].comp0Ref, before.segments[k].comp1Ref)
  {
    MovedGraph(g.nodes, s, delta);
    MovedSegments(g, WireGraph(g.id, Moved(g.nodes, s, delta)));
  }

  // ---------------------------------------------------------------------
  // moveWiresWithComp

  /** The reference names a terminal of component `compId`. */
  predicate BoundTo(ref: Option<ElRef>, compId: string) {
    ref.Some? && ref.value.kind == CompNode && ref.value.id == compId
  }

  /** The nodes with those bound to component `compId` moved by `delta`. */
  function Shifted(nodes: seq<GraphNode>, compId: string, delta: Point): (r: seq<GraphNode>)
    ensures |r| == |nodes|
  {
    seq(|nodes|, k requires 0 <= k < |nodes| =>
      if BoundTo(nodes[k].ref, compId) then nodes[k].(pos := SnapToGrid(Add(nodes[k].pos, delta))) else nodes[k])
  }

  /** A segment with each end bound to component `compId` moved by `delta`. */
  function ShiftEnds(s: Segment, compId: string, delta: Point): Segment {
    Segment(
      if BoundTo(s.comp0Ref, compId) then Add(s.p0, delta) else s.p0,
      if BoundTo(s.comp1Ref, compId) then Add(s.p1, delta) else s.p1,
      s.comp0Ref, s.comp1Ref)
  }

  /** `w` is `wire` rebuilt through its graph `g` after the move: the
      segments of the wire drawn from `g`, in order, with the ends bound to
      component `compId` moved by `delta` and all other ends in place. */
  ghost predicate MovedWire(wire: Wire, g: WireGraph, w: Wire, compId: string, delta: Point) {
    && BuiltFrom(wire, g)
    && w.id == wire.id
    && |w.segments| == |Serialized(g).segments|
    && forall k :: 0 <= k < |w.segments| ==> w.segments[k] == ShiftEnds(Serialized(g).segments[k], compId, delta)
  }

  /** Moves the nodes bound to the component (the inner loop of moveWiresWithComp). */
  method ShiftNodes(nodes: seq<GraphNode>, compId: string, delta: Point) returns (nodes': seq<GraphNode>)
    ensures nodes' == Shifted(nodes, compId, delta)
  {
    nodes' := nodes;
    for k := 0 to |nodes|
      invariant |nodes'| == |nodes|
      invariant forall t :: 0 <= t < k ==> nodes'[t] == Shifted(nodes, compId, delta)[t]
      invariant forall t :: k <= t < |nodes| ==> nodes'[t] == nodes[t]
    {
      var node := nodes'[k];
      if node.ref.Some? && node.ref.value.kind == CompNode && node.ref.value.id == compId {
        nodes' := nodes'[k := node.(pos := SnapToGrid(Add(node.pos, delta)))];
      }
    }
  }

  /** Rebuilds one wire with the nodes bound to the component moved. */
  method MoveWire(wire: Wire, compId: string, delta: Point) returns (w: Wire, ghost g: WireGraph)
    ensures MovedWire(wire, g, w, compId, delta)
  {
    var wireGraph := WireToGraph(wire);
    g := wireGraph;
    var nodes := ShiftNodes(wireGraph.nodes, compId, delta);
    ShiftMovesBoundEnds(wireGraph, compId, delta);
    w := GraphToWire(WireGraph(wireGraph.id, nodes));
  }

  /** Every wire drawn after the move has the segments of the wire rebuilt
      before it, in order, with the ends bound to the component moved by
      `delta` and all other ends in place. */
  lemma {:induction false} ShiftMovesBoundEnds(g: WireGraph, compId: string, delta: Point)
    requires EdgesInRange(g.nodes)
    ensures EdgesInRange(Shifted(g.nodes, compId, delta))
    ensures var before, after := Serialized(g), Serialized(WireGraph(g.id, Shifted(g.nodes, compId, delta)));
      after.id == before.id && |after.segments| == |before.segments| &&
      forall k :: 0 <= k < |before.segments| ==> after.segments[k] == ShiftEnds(before.segments[k], compId, delta)
  {
    var g' := WireGraph(g.id, Shifted(g.nodes, compId, delta));
    assert forall i :: 0 <= i < |g.nodes| ==>
      g'.nodes[i].id == g.nodes[i].id && g'.nodes[i].ref == g.nodes[i].ref && g'.nodes[i].edges == g.nodes[i].edges;
    MovedSegments(g, g');
    var prs := Pairs(g.nodes, |g.nodes|);
    forall k | 0 <= k < |Serialized(g).segments|
      ensures Serialized(g').segments[k] == ShiftEnds(Serialized(g).segments[k], compId, delta)
    {
      var pr := prs[k];
      assert Serialized(g).segments[k] == SegmentOf(g.nodes, pr);
    }
  }

  /** Each of the first `n` wires is moved into the wire at the same index. */
  ghost predicate AllMoved(wires: seq<Wire>, n: nat, gs: seq<WireGraph>, r: seq<Wire>, compId: string, delta: Point) {
    n <= |wires| && |gs| == |r| == n && forall t :: 0 <= t < n ==> MovedWire(wires[t], gs[t], r[t], compId, delta)
  }

  /** Moves the wires along with the component at `compIdx`
      (moveWiresWithComp): each wire is rebuilt through its graph with the
      nodes bound to the component's terminals moved by `delta`. */
  method MoveWiresWithComp(layout: Layout, compIdx: nat, delta: Point) returns (r: seq<Wire>, ghost gs: seq<WireGraph>)
    requires compIdx < |layout.comps|
    ensures AllMoved(layout.wires, |layout.wires|, gs, r, layout.comps[compIdx].id, delta)
  {
    var compId := layout.comps[compIdx].id;
    var wires := layout.wires;
    r, gs := [], [];
    for i := 0 to |wires|
      invariant AllMoved(wires, i, gs, r, compId, delta)
    {
      r, gs := MoveNext(wires, i, r, gs, compId, delta);
    }
  }

  /** One step of the loop: moves the wire at `i` and appends it. */
  method MoveNext(wires: seq<Wire>, i: nat, r: seq<Wire>, ghost gs: seq<WireGraph>, compId: string, delta: Point)
      returns (r': seq<Wire>, ghost gs': seq<WireGraph>)
    requires i < |wires| && AllMoved(wires, i, gs, r, compId, delta)
    ensures AllMoved(wires, i + 1, gs', r', compId, delta)
  {
    var wire, g := MoveWire(wires[i], compId, delta);
    r', gs' := r + [wire], gs + [g];
    forall t | 0 <= t < i + 1 ensures MovedWire(wires[t], gs'[t], r'[t], compId, delta) {
      if t < i {
        MovedWireSame(wires[t], gs[t], r[t], wires[t], gs'[t], r'[t], compId, delta);
      } else {
        MovedWireSame(wires[i], g, wire, wires[t], gs'[t], r'[t], compId, delta);
      }
    }
  }

  lemma {:induction false} MovedWireSame(wire: Wire, g: WireGraph, w: Wire, wire': Wire, g': WireGraph, w': Wire,
      compId: string, delta: Point)
    requires MovedWire(wire, g, w, compId, delta) && wire' == wire && g' == g && w' == w
    ensures MovedWire(wire', g', w', compId, delta)
  {
  }
}
