/** Reconciling the wires of a layout after one of them was edited
    (fixWires, applyWires): wires touching the edited one are merged into it,
    its nodes at component terminals take the terminal's reference, and its
    islands become separate wires with new ids. */
module Reconciler {
  import opened Geometry
  import opened WireGraphs
  import opened BuilderSpec
  import opened Builder
  import opened Serializer
  import opened Islands
  import opened Normalizer

  /** A terminal of a component, placed relative to the component. */
  datatype CompNodeDef = CompNodeDef(id: string, pos: Point)

  /** A component; it may declare no terminals at all. */
  datatype Comp = Comp(id: string, pos: Point, nodes: Option<seq<CompNodeDef>>)

  /** The parts of a layout the wire engine reads and writes. */
  datatype Layout = Layout(comps: seq<Comp>, wires: seq<Wire>, nextWireId: nat)

  // ---------------------------------------------------------------------
  // createNodePosMap

  /** A component's terminals, or none when it declares none. */
  function NodesOf(c: Comp): seq<CompNodeDef> {
    if c.nodes.Some? then c.nodes.value else []
  }

  /** The terminals of one component with their absolute positions and references. */
  function CompTerminals(c: Comp): (r: seq<(Point, ElRef)>)
    ensures |r| == |NodesOf(c)|
  {
    var ns := NodesOf(c);
    seq(|ns|, j requires 0 <= j < |ns| => (Add(c.pos, ns[j].pos), ElRef(CompNode, c.id, ns[j].id)))
  }

  /** All terminals, component by component. */
  function Terminals(comps: seq<Comp>): seq<(Point, ElRef)> {
    if comps == [] then [] else Terminals(comps[..|comps| - 1]) + CompTerminals(comps[|comps| - 1])
  }

  /** The map filled by setting the terminals in turn. */
  function PosMap(ts: seq<(Point, ElRef)>): map<Point, ElRef> {
    if ts == [] then map[] else PosMap(ts[..|ts| - 1])[ts[|ts| - 1].0 := ts[|ts| - 1].1]
  }

  /** The k-th terminal sits at `p` and no later one does. */
  predicate LastAt(ts: seq<(Point, ElRef)>, p: Point, k: nat) {
    k < |ts| && ts[k].0 == p && forall k' :: k < k' < |ts| ==> ts[k'].0 != p
  }

  /** A position is in the map exactly when some terminal sits there. */
  lemma {:induction false} PosMapKeys(ts: seq<(Point, ElRef)>, p: Point)
    ensures p in PosMap(ts) <==> exists k :: 0 <= k < |ts| && ts[k].0 == p
  {
    if ts != [] {
      var init := ts[..|ts| - 1];
      PosMapKeys(init, p);
      if ts[|ts| - 1].0 != p && exists k :: 0 <= k < |ts| && ts[k].0 == p {
        var k :| 0 <= k < |ts| && ts[k].0 == p;
        assert init[k].0 == p;
      }
    }
  }

  /** A position in the map maps to the reference of the last terminal there. */
  lemma {:induction false} PosMapLastWins(ts: seq<(Point, ElRef)>, p: Point)
    requires p in PosMap(ts)
    ensures exists k: nat :: LastAt(ts, p, k) && ts[k].1 == PosMap(ts)[p]
  {
    var init, last := ts[..|ts| - 1], ts[|ts| - 1];
    if last.0 == p {
      assert LastAt(ts, p, |ts| - 1);
    } else {
      PosMapLastWins(init, p);
      var k: nat :| LastAt(init, p, k) && init[k].1 == PosMap(init)[p];
      assert ts[k] == init[k];
      assert LastAt(ts, p, k);
    }
  }

  /** The map from terminal positions to terminal references (createNodePosMap). */
  method CreateNodePosMap(layout: Layout) returns (m: map<Point, ElRef>)
    ensures m == PosMap(Terminals(layout.comps))
  {
    m := map[];
    var comps := layout.comps;
    for i := 0 to |comps|
      invariant m == PosMap(Terminals(comps[..i]))
    {
      m := AddTerminals(m, comps[i], Terminals(comps[..i]));
      assert comps[..i + 1][..i] == comps[..i];
    }
    assert comps[..|comps|] == comps;
  }

  /** Sets the terminals of one component in turn: the inner loop of createNodePosMap. */
  method AddTerminals(m: map<Point, ElRef>, comp: Comp, ghost before: seq<(Point, ElRef)>) returns (m': map<Point, ElRef>)
    requires m == PosMap(before)
    ensures m' == PosMap(before + CompTerminals(comp))
  {
    var nodes := if comp.nodes.Some? then comp.nodes.value else [];
    ghost var ts := CompTerminals(comp);
    m' := m;
    assert before + ts[..0] == before;
    for j := 0 to |nodes|
      invariant m' == PosMap(before + ts[..j])
    {
      var node := nodes[j];
      var nodePos := Add(comp.pos, node.pos);
      m' := m'[nodePos := ElRef(CompNode, comp.id, node.id)];
      assert (before + ts[..j + 1])[..|before| + j] == before + ts[..j];
    }
    assert ts[..|nodes|] == ts;
  }

  // ---------------------------------------------------------------------
  // Finding and merging the touching wires

  /** Some segment of `wire` touches some segment of `edit`. */
  predicate Touches(wire: Wire, edit: Wire) {
    exists j, k :: 0 <= j < |wire.segments| && 0 <= k < |edit.segments| &&
      SegsTouching(wire.segments[j], edit.segments[k])
  }

  /** The indices of the other wires that touch the edited one. */
  function TouchingIdxs(wires: seq<Wire>, editIdx: nat): set<nat>
    requires editIdx < |wires|
  {
    set i: nat | i < |wires| && i != editIdx && Touches(wires[i], wires[editIdx])
  }

  /** Searches for a pair of touching segments, stopping at the first. */
  method TouchesEdit(wire: Wire, edit: Wire) returns (merged: bool)
    ensures merged <==> Touches(wire, edit)
  {
    merged := false;
    var j := 0;
    while j < |wire.segments| && !merged
      invariant 0 <= j <= |wire.segments|
      invariant merged ==> Touches(wire, edit)
      invariant !merged ==> forall j', k :: 0 <= j' < j && 0 <= k < |edit.segments| ==>
        !SegsTouching(wire.segments[j'], edit.segments[k])
    {
      for k := 0 to |edit.segments|
        invariant !merged
        invariant forall k' :: 0 <= k' < k ==> !SegsTouching(wire.segments[j], edit.segments[k'])
      {
        if SegsTouching(wire.segments[j], edit.segments[k]) {
          merged := true;
          break;
        }
      }
      j := j + 1;
    }
  }

  /** The indices of the wires to merge into the edited one. */
  method WiresToMerge(wires: seq<Wire>, editIdx: nat) returns (merge: set<nat>)
    requires editIdx < |wires|
    ensures merge == TouchingIdxs(wires, editIdx)
  {
    merge := {};
    for i := 0 to |wires|
      invariant forall x: nat :: x in merge <==> x < i && x != editIdx && Touches(wires[x], wires[editIdx])
    {
      if i != editIdx {
        var merged := TouchesEdit(wires[i], wires[editIdx]);
        if merged {
          merge := merge + {i};
        }
      }
    }
  }

  /** The segments of the wires at the merged indices, in index order. */
  function Gathered(wires: seq<Wire>, merge: set<nat>): seq<Segment> {
    if wires == [] then []
    else Gathered(wires[..|wires| - 1], merge) + (if |wires| - 1 in merge then wires[|wires| - 1].segments else [])
  }

  /** Appends the segments of the merged wires. The index set is visited in
      the order its indices were added, which is increasing. */
  method GatherSegments(wires: seq<Wire>, merge: set<nat>, first: seq<Segment>) returns (segs: seq<Segment>)
    ensures segs == first + Gathered(wires, merge)
  {
    segs := first;
    for i := 0 to |wires|
      invariant segs == first + Gathered(wires[..i], merge)
    {
      assert wires[..i + 1][..i] == wires[..i];
      if i in merge {
        segs := segs + wires[i].segments;
      }
    }
    assert wires[..|wires|] == wires;
  }

  /** How many of the indices below `n` are in the set. */
  function CountBelow(drop: set<nat>, n: nat): (c: nat)
    ensures c <= n
  {
    if n == 0 then 0 else CountBelow(drop, n - 1) + (if n - 1 in drop then 1 else 0)
  }

  /** The count is the size of the set of indices below `n`. */
  lemma {:induction false} CountBelowSize(drop: set<nat>, n: nat)
    ensures CountBelow(drop, n) == |set i: nat | i in drop && i < n|
  {
    if n > 0 {
      CountBelowSize(drop, n - 1);
      var below := set i: nat | i in drop && i < n - 1;
      var upto := set i: nat | i in drop && i < n;
      if n - 1 in drop {
        assert upto == below + {n - 1};
      } else {
        assert upto == below;
      }
    }
  }

  /** Dropping indices shortens the list by the number dropped. */
  lemma {:induction false} WithoutLength<T>(s: seq<T>, drop: set<nat>)
    ensures |Without(s, drop)| == |s| - CountBelow(drop, |s|)
  {
    if s != [] {
      WithoutLength(s[..|s| - 1], drop);
    }
  }

  /** A kept entry moves down by the number of dropped indices below it. */
  lemma {:induction false} WithoutAt<T>(s: seq<T>, drop: set<nat>, i: nat)
    requires i < |s| && i !in drop
    ensures i - CountBelow(drop, i) < |Without(s, drop)|
    ensures Without(s, drop)[i - CountBelow(drop, i)] == s[i]
  {
    var init := s[..|s| - 1];
    if i == |s| - 1 {
      WithoutLength(init, drop);
    } else {
      WithoutAt(init, drop, i);
    }
  }

  /** Dropping nothing keeps the list. */
  lemma {:induction false} WithoutNothing<T>(s: seq<T>)
    ensures Without(s, {}) == s
  {
    if s != [] {
      WithoutNothing(s[..|s| - 1]);
    }
  }

  /** Nothing is counted below `n` in the empty set. */
  lemma {:induction false} CountNothing(n: nat)
    ensures CountBelow({}, n) == 0
  {
    if n > 0 {
      CountNothing(n - 1);
    }
  }

  // ---------------------------------------------------------------------
  // Binding terminals and splitting

  /** The nodes with each node at a terminal position taking that terminal's reference. */
  function Bound(nodes: seq<GraphNode>, m: map<Point, ElRef>): (r: seq<GraphNode>)
    ensures |r| == |nodes|
  {
    seq(|nodes|, k requires 0 <= k < |nodes| =>
      if nodes[k].pos in m then nodes[k].(ref := Some(m[nodes[k].pos])) else nodes[k])
  }

  /** Binding changes references only, so a well-formed graph stays well formed. */
  lemma {:induction false} BoundKeepsWellFormed(nodes: seq<GraphNode>, m: map<Point, ElRef>)
    requires WellFormed(nodes)
    ensures WellFormed(Bound(nodes, m))
  {
    var r := Bound(nodes, m);
    assert forall k :: 0 <= k < |r| ==> r[k].id == nodes[k].id && r[k].pos == nodes[k].pos && r[k].edges == nodes[k].edges;
  }

  /** Sets the reference of every node at a terminal position. */
  method BindTerminals(g: WireGraph, m: map<Point, ElRef>) returns (g': WireGraph)
    ensures g' == WireGraph(g.id, Bound(g.nodes, m))
  {
    var nodes := g.nodes;
    for k := 0 to |nodes|
      invariant |nodes| == |g.nodes|
      invariant forall t :: 0 <= t < k ==> nodes[t] == Bound(g.nodes, m)[t]
      invariant forall t :: k <= t < |nodes| ==> nodes[t] == g.nodes[t]
    {
      var node := nodes[k];
      if node.pos in m {
        nodes := nodes[k := node.(ref := Some(m[node.pos]))];
      }
    }
    g' := WireGraph(g.id, nodes);
  }

  /** The wires drawn for each part. */
  function SerializedAll(parts: seq<WireGraph>): (r: seq<Wire>)
    requires forall k :: 0 <= k < |parts| ==> EdgesInRange(parts[k].nodes)
    ensures |r| == |parts|
  {
    seq(|parts|, k requires 0 <= k < |parts| => Serialized(parts[k]))
  }

  /** Drawing parts that share an id gives wires with that id. */
  lemma {:induction false} SerializedIds(parts: seq<WireGraph>, id: string)
    requires forall k :: 0 <= k < |parts| ==> EdgesInRange(parts[k].nodes) && parts[k].id == id
    ensures forall w :: w in SerializedAll(parts) ==> w.id == id
  {
    var r := SerializedAll(parts);
    forall w | w in r ensures w.id == id {
      var k :| 0 <= k < |r| && r[k] == w;
      assert w == Serialized(parts[k]);
    }
  }

  /** Draws every part as a wire (the `map` over the islands). */
  method PartsToWires(parts: seq<WireGraph>) returns (ws: seq<Wire>)
    requires forall k :: 0 <= k < |parts| ==> EdgesInRange(parts[k].nodes)
    ensures ws == SerializedAll(parts)
  {
    ws := [];
    for k := 0 to |parts|
      invariant ws == SerializedAll(parts[..k])
    {
      var w := GraphToWire(parts[k]);
      ws := ws + [w];
    }
    assert parts[..|parts|] == parts;
  }

  /** An empty wire has no nodes, hence no islands; a wire with a segment has
      a node, hence an island. */
  lemma {:induction false} NoIslandsIffEmpty(target: Wire, g0: WireGraph, nodes: seq<GraphNode>, islands: seq<seq<GraphNode>>)
    requires BuiltFrom(target, g0) && |nodes| == |g0.nodes| && IslandsOf(nodes, islands)
    ensures islands == [] <==> target.segments == []
  {
    if target.segments != [] {
      assert exists a :: 0 <= a < |g0.nodes| && g0.nodes[a].pos == target.segments[0].p0;
      assert 0 in Range(|nodes|);
    }
    LastIslandCovered(islands);
  }

  /** The first node of the last island is among the ids of all islands. */
  lemma {:induction false} LastIslandCovered(islands: seq<seq<GraphNode>>)
    requires forall k :: 0 <= k < |islands| ==> islands[k] != []
    ensures islands != [] ==> islands[|islands| - 1][0].id in Union(islands)
  {
    if islands != [] {
      var last := islands[|islands| - 1];
      assert last[0].id in IdsOf(last);
    }
  }

  // ---------------------------------------------------------------------
  // fixWires

  /** The wires touching the edited one are merged into it: `merge` holds
      their indices and `target` is the merged wire after normalisation, or
      the edited wire itself when nothing touches it. */
  ghost predicate MergedInto(wires: seq<Wire>, editIdx: nat, merge: set<nat>, target: Wire)
    requires editIdx < |wires|
  {
    var edit := wires[editIdx];
    && merge == TouchingIdxs(wires, editIdx)
    && (merge == {} ==> target == edit)
    && (merge != {} ==> FixedFrom(Wire(edit.id, edit.segments + Gathered(wires, merge)), target))
  }

  /** `g0` is the graph of `target`; with terminal references bound it is
      split into `parts` along `islands`. */
  ghost predicate SplitOf(layout: Layout, target: Wire, g0: WireGraph, islands: seq<seq<GraphNode>>, parts: seq<WireGraph>) {
    && BuiltFrom(target, g0)
    && SplitInto(WireGraph(g0.id, Bound(g0.nodes, PosMap(Terminals(layout.comps)))), islands, parts)
    && (forall k :: 0 <= k < |parts| ==> EdgesInRange(parts[k].nodes))
  }

  /** The wires of the islands are spliced in: the first takes the edited
      wire's slot among the wires left after the merge, shifted down by the
      merged wires before it; the others are new wires. With no island the
      slot is removed. */
  ghost predicate Spliced(wires: seq<Wire>, editIdx: nat, merge: set<nat>, split: seq<Wire>,
      edited: seq<Wire>, newWires: seq<Wire>)
  {
    var at := editIdx - CountBelow(merge, editIdx);
    var kept := Without(wires, merge);
    && at < |kept|
    && (split == [] ==> edited == kept[..at] + kept[at + 1..] && newWires == [])
    && (split != [] ==> edited == kept[at := split[0]] && newWires == split[1..])
  }

  /** What `fixWires` computes for the edited wire at `editIdx`. */
  ghost predicate Reconciled(layout: Layout, wires: seq<Wire>, editIdx: nat, edited: seq<Wire>, newWires: seq<Wire>,
      merge: set<nat>, target: Wire, g0: WireGraph, islands: seq<seq<GraphNode>>, parts: seq<WireGraph>)
    requires editIdx < |wires|
  {
    && MergedInto(wires, editIdx, merge, target)
    && SplitOf(layout, target, g0, islands, parts)
    && Spliced(wires, editIdx, merge, SerializedAll(parts), edited, newWires)
  }

  /** Merges the touching wires into the edited one (the first half of
      fixWires). `kept` is the list without the merged wires, where the
      edited wire moved to `at`; it is replaced there by `target`, the
      normalised merge, or stays when nothing was merged. */
  method MergeTouching(wires: seq<Wire>, editIdx: nat)
      returns (ws: seq<Wire>, at: nat, ghost merge: set<nat>, ghost target: Wire)
    requires editIdx < |wires|
    ensures MergedInto(wires, editIdx, merge, target)
    ensures at == editIdx - CountBelow(merge, editIdx)
    ensures at < |Without(wires, merge)| && Without(wires, merge)[at] == wires[editIdx]
    ensures |Without(wires, merge)| == |wires| - |merge|
    ensures ws == Without(wires, merge)[at := target]
    ensures target.id == wires[editIdx].id
  {
    var editWire := wires[editIdx];
    var toMerge := WiresToMerge(wires, editIdx);
    merge := toMerge;
    MergeSlot(wires, editIdx, merge);
    if |toMerge| > 0 {
      var fixed := FixMerged(wires, editIdx, toMerge);
      at := editIdx - CountBelow(toMerge, editIdx);
      ws := Without(wires, toMerge);
      ws := ws[at := fixed];
      target := fixed;
    } else {
      NothingMerged(wires, editIdx, merge);
      ws, at := wires, editIdx;
      target := editWire;
    }
  }

  /** The edited wire is never merged into itself; after the merged wires
      are filtered out it sits at its index less the merged wires before it,
      in a list shorter by the number of merged wires. */
  lemma {:induction false} MergeSlot(wires: seq<Wire>, editIdx: nat, merge: set<nat>)
    requires editIdx < |wires| && merge == TouchingIdxs(wires, editIdx)
    ensures editIdx !in merge
    ensures editIdx - CountBelow(merge, editIdx) < |Without(wires, merge)|
    ensures Without(wires, merge)[editIdx - CountBelow(merge, editIdx)] == wires[editIdx]
    ensures |Without(wires, merge)| == |wires| - |merge|
    ensures merge == {} ==> Without(wires, merge) == wires && CountBelow(merge, editIdx) == 0
  {
    assert editIdx !in merge;
    WithoutAt(wires, merge, editIdx);
    WithoutLength(wires, merge);
    assert (set i: nat | i in merge && i < |wires|) == merge;
    CountBelowSize(merge, |wires|);
    if merge == {} {
      WithoutNothing(wires);
      CountNothing(editIdx);
    }
  }

  /** The edited wire with the segments of the touching wires appended,
      normalised (the body of the `if` that merges). */
  method FixMerged(wires: seq<Wire>, editIdx: nat, merge: set<nat>) returns (fixed: Wire)
    requires editIdx < |wires| && merge == TouchingIdxs(wires, editIdx) && merge != {}
    ensures MergedInto(wires, editIdx, merge, fixed)
    ensures fixed.id == wires[editIdx].id
  {
    var edit := wires[editIdx];
    var segs := GatherSegments(wires, merge, edit.segments);
    ghost var fg;
    fixed, fg := FixWire(Wire(edit.id, segs));
  }

  /** With nothing touching, the edited wire is its own merge. */
  lemma {:induction false} NothingMerged(wires: seq<Wire>, editIdx: nat, merge: set<nat>)
    requires editIdx < |wires| && merge == TouchingIdxs(wires, editIdx) && merge == {}
    ensures MergedInto(wires, editIdx, merge, wires[editIdx])
  {
  }

  /** Splits the wire at `at` into islands and splices them in (the second
      half of fixWires): the first island takes its slot, the others are new
      wires; with no island the slot is removed. */
  method SplitEdited(layout: Layout, ws: seq<Wire>, at: nat)
      returns (edited: seq<Wire>, newWires: seq<Wire>,
               ghost g0: WireGraph, ghost islands: seq<seq<GraphNode>>, ghost parts: seq<WireGraph>)
    requires at < |ws|
    ensures SplitOf(layout, ws[at], g0, islands, parts)
    ensures parts == [] <==> ws[at].segments == []
    ensures parts == [] ==> edited == ws[..at] + ws[at + 1..] && newWires == []
    ensures parts != [] ==> edited == ws[at := SerializedAll(parts)[0]] && newWires == SerializedAll(parts)[1..]
    ensures forall w :: w in newWires ==> w.id == ws[at].id
  {
    var split;
    split, g0, islands := IslandsOfWire(layout, ws[at]);
    parts := split;
    var editWireSplit := PartsToWires(split);
    // The splice puts the first island in the wire's slot; with no island it
    // puts nothing there, and the filter removes the slot.
    if |editWireSplit| > 0 {
      edited := ws[at := editWireSplit[0]];
      newWires := editWireSplit[1..];
      SerializedIds(parts, ws[at].id);
    } else {
      edited := ws[..at] + ws[at + 1..];
      newWires := [];
    }
  }

  /** The islands of one wire once its ends are bound to the terminals they
      sit on, each as a graph of its own with the wire's id. */
  method IslandsOfWire(layout: Layout, wire: Wire)
      returns (parts: seq<WireGraph>, ghost g0: WireGraph, ghost islands: seq<seq<GraphNode>>)
    ensures SplitOf(layout, wire, g0, islands, parts)
    ensures parts == [] <==> wire.segments == []
    ensures forall k :: 0 <= k < |parts| ==> parts[k].id == wire.id
  {
    var graph := WireToGraph(wire);
    g0 := graph;
    var posMap := CreateNodePosMap(layout);
    var bound := BindTerminals(graph, posMap);
    BoundKeepsWellFormed(graph.nodes, posMap);
    parts, islands := SplitIntoIslands(bound);
    NoIslandsIffEmpty(wire, g0, bound.nodes, islands);
  }

  /** Merges the wires touching the edited one into it and splits the result
      into islands (fixWires). The edited wire's slot, shifted down by the
      merged wires before it, receives the first island; the other islands
      are returned as new wires, still with the edited wire's id. */
  method FixWires(layout: Layout, wires: seq<Wire>, editIdx: nat)
      returns (edited: seq<Wire>, newWires: seq<Wire>, ghost merge: set<nat>, ghost target: Wire,
               ghost g0: WireGraph, ghost islands: seq<seq<GraphNode>>, ghost parts: seq<WireGraph>)
    requires editIdx < |wires|
    ensures Reconciled(layout, wires, editIdx, edited, newWires, merge, target, g0, islands, parts)
    ensures Without(wires, merge)[editIdx - CountBelow(merge, editIdx)] == wires[editIdx]
    ensures |edited| + |merge| + (if parts == [] then 1 else 0) == |wires|
    ensures parts == [] <==> target.segments == []
    ensures forall w :: w in newWires ==> w.id == wires[editIdx].id
  {
    var ws, at;
    ws, at, merge, target := MergeTouching(wires, editIdx);
    edited, newWires, g0, islands, parts := SplitEdited(layout, ws, at);
    ReconciledParts(layout, wires, editIdx, ws, at, edited, newWires, merge, target, g0, islands, parts);
  }

  /** The two halves of fixWires together give what it computes. */
  lemma {:induction false} ReconciledParts(layout: Layout, wires: seq<Wire>, editIdx: nat, ws: seq<Wire>, at: nat,
      edited: seq<Wire>, newWires: seq<Wire>, merge: set<nat>, target: Wire,
      g0: WireGraph, islands: seq<seq<GraphNode>>, parts: seq<WireGraph>)
    requires editIdx < |wires|
    requires MergedInto(wires, editIdx, merge, target)
    requires at == editIdx - CountBelow(merge, editIdx) && at < |Without(wires, merge)|
    requires ws == Without(wires, merge)[at := target]
    requires SplitOf(layout, ws[at], g0, islands, parts)
    requires parts == [] ==> edited == ws[..at] + ws[at + 1..] && newWires == []
    requires parts != [] ==> edited == ws[at := SerializedAll(parts)[0]] && newWires == SerializedAll(parts)[1..]
    ensures Reconciled(layout, wires, editIdx, edited, newWires, merge, target, g0, islands, parts)
  {
    assert ws[at] == target;
    SplicedParts(wires, editIdx, ws, at, target, merge, SerializedAll(parts), edited, newWires);
  }

  /** Splicing into the list with the merged wire in its slot is splicing
      into the list left after the merge. */
  lemma {:induction false} SplicedParts(wires: seq<Wire>, editIdx: nat, ws: seq<Wire>, at: nat, target: Wire,
      merge: set<nat>, split: seq<Wire>, edited: seq<Wire>, newWires: seq<Wire>)
    requires at == editIdx - CountBelow(merge, editIdx) && at < |Without(wires, merge)|
    requires ws == Without(wires, merge)[at := target]
    requires split == [] ==> edited == ws[..at] + ws[at + 1..] && newWires == []
    requires split != [] ==> edited == ws[at := split[0]] && newWires == split[1..]
    ensures Spliced(wires, editIdx, merge, split, edited, newWires)
  {
    var kept := Without(wires, merge);
    if split == [] {
      assert ws[..at] == kept[..at] && ws[at + 1..] == kept[at + 1..];
    } else {
      assert ws[at := split[0]] == kept[at := split[0]];
    }
  }

  // ---------------------------------------------------------------------
  // applyWires

  /** The decimal digit for `d`. */
  function DigitChar(d: nat): char
    requires d < 10
  {
    (48 + d) as char
  }

  /** The decimal text of a number, as `'' + n` gives it. */
  function Decimal(n: nat): (s: string)
    ensures |s| > 0
  {
    if n < 10 then [DigitChar(n)] else Decimal(n / 10) + [DigitChar(n % 10)]
  }

  /** The number a string of decimal digits denotes. */
  function Value(s: string): nat {
    if s == [] then 0
    else
      var c := s[|s| - 1];
      Value(s[..|s| - 1]) * 10 + (if '0' <= c <= '9' then c as int - 48 else 0)
  }

  /** Reading back the decimal text of a number gives the number. */
  lemma {:induction false} DecimalValue(n: nat)
    ensures Value(Decimal(n)) == n
  {
    var s := Decimal(n);
    if n < 10 {
      assert s[..0] == [];
    } else {
      DecimalValue(n / 10);
      assert s[..|s| - 1] == Decimal(n / 10);
    }
  }

  /** The new wires with consecutive ids counted from `next`. */
  function Renamed(ws: seq<Wire>, next: nat): (r: seq<Wire>)
    ensures |r| == |ws|
  {
    seq(|ws|, k requires 0 <= k < |ws| => ws[k].(id := Decimal(next + k)))
  }

  /** The k-th new wire keeps its segments and gets an id reading as
      `next + k`, so no two new wires share an id. */
  lemma {:induction false} RenamedIds(ws: seq<Wire>, next: nat)
    ensures forall k :: 0 <= k < |ws| ==>
      Renamed(ws, next)[k].segments == ws[k].segments && Value(Renamed(ws, next)[k].id) == next + k
    ensures forall k1, k2 :: 0 <= k1 < k2 < |ws| ==> Renamed(ws, next)[k1].id != Renamed(ws, next)[k2].id
  {
    var r := Renamed(ws, next);
    forall k | 0 <= k < |ws| ensures Value(r[k].id) == next + k {
      DecimalValue(next + k);
    }
  }

  /** Gives the new wires their ids (the numbering loop of applyWires). */
  method NumberWires(ws: seq<Wire>, next: nat) returns (numbered: seq<Wire>, next': nat)
    ensures numbered == Renamed(ws, next) && next' == next + |ws|
  {
    numbered := ws;
    next' := next;
    for k := 0 to |ws|
      invariant |numbered| == |ws| && next' == next + k
      invariant forall t :: 0 <= t < k ==> numbered[t] == ws[t].(id := Decimal(next + t))
      invariant forall t :: k <= t < |ws| ==> numbered[t] == ws[t]
    {
      numbered := numbered[k := numbered[k].(id := Decimal(next'))];
      next' := next' + 1;
    }
  }

  /** Reconciles the wires after an edit and stores them in the layout
      (applyWires): the edited wires come first, then the new wires, which
      are numbered from the layout's counter; the counter moves past them. */
  method ApplyWires(layout: Layout, wires: seq<Wire>, editIdx: nat)
      returns (layout': Layout, ghost edited: seq<Wire>, ghost newWires: seq<Wire>, ghost merge: set<nat>,
               ghost target: Wire, ghost g0: WireGraph, ghost islands: seq<seq<GraphNode>>, ghost parts: seq<WireGraph>)
    requires editIdx < |wires|
    ensures Reconciled(layout, wires, editIdx, edited, newWires, merge, target, g0, islands, parts)
    ensures layout'.comps == layout.comps
    ensures layout'.nextWireId == layout.nextWireId + |newWires|
    ensures layout'.wires == edited + Renamed(newWires, layout.nextWireId)
  {
    var editedWires, added;
    editedWires, added, merge, target, g0, islands, parts := FixWires(layout, wires, editIdx);
    edited, newWires := editedWires, added;
    var numbered, nextWireId := NumberWires(added, layout.nextWireId);
    layout' := layout.(nextWireId := nextWireId, wires := editedWires + numbered);
  }
}
