/** Building the graph of a wire (wireToGraph): one node per distinct endpoint
    position, and every segment split into a chain of edges at the points where
    other segments' endpoints touch its interior (T-junctions). */
module Builder {
  import opened Geometry
  import opened WireGraphs
  import opened BuilderSpec

  /** Get-or-create the node at `pos` (getNode): a new node gets the next id and
      no edges; the node keeps its reference if it has one, else takes `ref`. */
  method GetNode(nodes: seq<GraphNode>, index: map<Point, nat>, pos: Point, ref: Option<ElRef>, ghost offers: seq<Offer>)
    returns (nodes': seq<GraphNode>, index': map<Point, nat>, id: nat)
    requires Mirrors(nodes, index, offers)
    ensures Mirrors(nodes', index', offers + [(pos, ref)])
    ensures id < |nodes'| && nodes'[id].pos == pos && index'[pos] == id
    ensures Extends(nodes, index, nodes', index')
  {
    if pos in index {
      id := index[pos];
      var node := nodes[id];
      nodes' := nodes[id := node.(ref := if node.ref.Some? then node.ref else ref)];
      index' := index;
      KnownNodeMirrors(nodes, index, pos, ref, offers);
    } else {
      id := |nodes|;
      nodes' := nodes + [GraphNode(id, pos, ref, [])];
      index' := index[pos := id];
      NewNodeMirrors(nodes, index, pos, ref, offers);
    }
  }

  /** Offering a known position again fills in the node's reference if it had none. */
  lemma {:induction false} KnownNodeMirrors(nodes: seq<GraphNode>, index: map<Point, nat>, pos: Point, ref: Option<ElRef>,
                                            offers: seq<Offer>)
    requires Mirrors(nodes, index, offers) && pos in index
    ensures var id := index[pos];
      var nodes' := nodes[id := nodes[id].(ref := if nodes[id].ref.Some? then nodes[id].ref else ref)];
      Mirrors(nodes', index, offers + [(pos, ref)]) && Extends(nodes, index, nodes', index)
  {
    var offers' := offers + [(pos, ref)];
    assert offers'[..|offers'| - 1] == offers;
    FirstsDistinct(offers);
    var id := index[pos];
    var nodes' := nodes[id := nodes[id].(ref := if nodes[id].ref.Some? then nodes[id].ref else ref)];
    forall k | 0 <= k < |nodes'|
      ensures nodes'[k].id == k && nodes'[k].pos == Firsts(offers')[k]
      ensures nodes'[k].ref == FirstRef(offers', nodes'[k].pos)
    {
      if k != id {
        assert nodes[k].pos != pos;
      }
    }
  }

  /** Offering a new position appends a node for it, with no edges. */
  lemma {:induction false} NewNodeMirrors(nodes: seq<GraphNode>, index: map<Point, nat>, pos: Point, ref: Option<ElRef>,
                                          offers: seq<Offer>)
    requires Mirrors(nodes, index, offers) && pos !in index
    ensures var nodes', index' := nodes + [GraphNode(|nodes|, pos, ref, [])], index[pos := |nodes|];
      Mirrors(nodes', index', offers + [(pos, ref)]) && Extends(nodes, index, nodes', index')
  {
    var offers' := offers + [(pos, ref)];
    assert offers'[..|offers'| - 1] == offers;
    FirstsDistinct(offers);
    FirstRefUnoffered(offers, pos);
  }

  /** One step of the scan over the other segments: when `pt` lies strictly
      inside `seg0`, get its node and record it with its projection. */
  method TakeIfInner(segs: seq<Segment>, seg0: Segment, pt: Point, nodes: seq<GraphNode>, index: map<Point, nat>,
                     online: seq<(int, nat)>, ghost offers: seq<Offer>)
    returns (nodes': seq<GraphNode>, index': map<Point, nat>, online': seq<(int, nat)>)
    requires Mirrors(nodes, index, offers) && Adjacency(segs, nodes) && OnSegment(nodes, seg0, online)
    ensures Mirrors(nodes', index', offers + (if AttachedInner(seg0, pt) then [(pt, None)] else []))
    ensures Adjacency(segs, nodes') && Extends(nodes, index, nodes', index') && OnSegment(nodes', seg0, online')
    ensures AttachedInner(seg0, pt) ==> pt in index' && online' == online + [(Proj(seg0, pt), index'[pt])]
    ensures !AttachedInner(seg0, pt) ==> online' == online
  {
    if AttachedInner(seg0, pt) {
      var n;
      nodes', index', n := GetNode(nodes, index, pt, None, offers);
      GrowKeepsInvariants(segs, nodes, index, nodes', index');
      online' := online + [(Proj(seg0, pt), n)];
    } else {
      nodes', index', online' := nodes, index, online;
      assert offers + [] == offers;
    }
  }

  /** Looks at both endpoints of segment `j` for segment `i` (the inner loop
      over `[seg1.p0, seg1.p1]`); segment `i` itself is skipped. */
  method ScanSegment(segs: seq<Segment>, i: nat, j: nat, ghost nodes0: seq<GraphNode>, ghost index0: map<Point, nat>,
                     ghost offers: seq<Offer>, nodes: seq<GraphNode>, index: map<Point, nat>, online: seq<(int, nat)>)
    returns (nodes': seq<GraphNode>, index': map<Point, nat>, online': seq<(int, nat)>)
    requires i < |segs| && j < |segs| && Scanned(segs, i, nodes0, index0, offers, nodes, index, online, j)
    requires Listed(segs, i, index, online, j)
    ensures Scanned(segs, i, nodes0, index0, offers, nodes', index', online', j + 1)
    ensures Listed(segs, i, index', online', j + 1)
  {
    var seg0 := segs[i];
    ghost var base := offers + EndOffers(seg0);
    if j == i {
      nodes', index', online' := nodes, index, online;
      InnerOffersSkip(segs, i, base);
      ListedSkip(segs, i, index, online);
    } else {
      var seg1 := segs[j];
      nodes', index', online' := TakeIfInner(segs, seg0, seg1.p0, nodes, index, online, base + InnerOffers(segs, i, j));
      ghost var nodesC, indexC, onlineC := nodes', index', online';
      nodes', index', online' := TakeIfInner(segs, seg0, seg1.p1, nodes', index', online',
        base + InnerOffers(segs, i, j) + (if AttachedInner(seg0, seg1.p0) then [(seg1.p0, None)] else []));
      ExtendsTrans(nodes, index, nodesC, indexC, nodes', index');
      ExtendsTrans(nodes0, index0, nodes, index, nodes', index');
      InnerOffersStep(segs, i, j, base);
      ListedTake(segs, i, j, index, online, indexC, onlineC, index', online');
    }
  }

  /** The two end nodes of segment `i`, each taking the segment's reference
      for that end when it has none yet. */
  method EndNodes(segs: seq<Segment>, i: nat, nodes: seq<GraphNode>, index: map<Point, nat>, ghost offers: seq<Offer>)
    returns (nodes': seq<GraphNode>, index': map<Point, nat>, n0: nat, n1: nat)
    requires i < |segs| && Mirrors(nodes, index, offers) && Adjacency(segs, nodes)
    ensures Mirrors(nodes', index', offers + [(segs[i].p0, segs[i].comp0Ref)] + [(segs[i].p1, segs[i].comp1Ref)])
    ensures Extends(nodes, index, nodes', index') && Adjacency(segs, nodes')
    ensures segs[i].p0 in index' && index'[segs[i].p0] == n0 && n0 < |nodes'| && nodes'[n0].pos == segs[i].p0
    ensures segs[i].p1 in index' && index'[segs[i].p1] == n1 && n1 < |nodes'| && nodes'[n1].pos == segs[i].p1
  {
    var seg0 := segs[i];
    nodes', index', n0 := GetNode(nodes, index, seg0.p0, seg0.comp0Ref, offers);
    GrowKeepsInvariants(segs, nodes, index, nodes', index');
    ghost var nodesA, indexA := nodes', index';
    nodes', index', n1 := GetNode(nodes', index', seg0.p1, seg0.comp1Ref, offers + [(seg0.p0, seg0.comp0Ref)]);
    GrowKeepsInvariants(segs, nodesA, indexA, nodes', index');
    ExtendsTrans(nodes, index, nodesA, indexA, nodes', index');
  }

  /** The nodes along segment `i` (the first part of the loop body of
      `wireToGraph`): its two end nodes, then the node of every endpoint of
      another segment lying strictly inside it, keyed by its projection. */
  method PointsOnLine(segs: seq<Segment>, i: nat, nodes: seq<GraphNode>, index: map<Point, nat>, ghost offers: seq<Offer>)
    returns (nodes': seq<GraphNode>, index': map<Point, nat>, online: seq<(int, nat)>)
    requires i < |segs| && Mirrors(nodes, index, offers) && Adjacency(segs, nodes)
    ensures Scanned(segs, i, nodes, index, offers, nodes', index', online, |segs|)
    ensures Listed(segs, i, index', online, |segs|)
  {
    var n0, n1;
    nodes', index', n0, n1 := EndNodes(segs, i, nodes, index, offers);
    online := [(0, n0), (Proj(segs[i], segs[i].p1), n1)];
    StartScan(segs, i, nodes, index, offers, nodes', index', online);
    ListedStart(segs, i, index', online);
    nodes', index', online := ScanOthers(segs, i, nodes, index, offers, nodes', index', online);
  }

  /** The scan of every other segment for points inside segment `i`. */
  method ScanOthers(segs: seq<Segment>, i: nat, ghost nodes0: seq<GraphNode>, ghost index0: map<Point, nat>,
                     ghost offers: seq<Offer>, nodes: seq<GraphNode>, index: map<Point, nat>, online: seq<(int, nat)>)
    returns (nodes': seq<GraphNode>, index': map<Point, nat>, online': seq<(int, nat)>)
    requires i < |segs| && Scanned(segs, i, nodes0, index0, offers, nodes, index, online, 0)
    requires Listed(segs, i, index, online, 0)
    ensures Scanned(segs, i, nodes0, index0, offers, nodes', index', online', |segs|)
    ensures Listed(segs, i, index', online', |segs|)
  {
    nodes', index', online' := nodes, index, online;
    for j := 0 to |segs|
      invariant Scanned(segs, i, nodes0, index0, offers, nodes', index', online', j)
      invariant Listed(segs, i, index', online', j)
    {
      nodes', index', online' := ScanSegment(segs, i, j, nodes0, index0, offers, nodes', index', online');
    }
  }

  /** Links each pair of neighbouring entries of the sorted points of segment
      `i` (the last part of the loop body of `wireToGraph`), skipping a pair
      that names one node twice. */
  method LinkChain(segs: seq<Segment>, i: nat, nodes: seq<GraphNode>, online: seq<(int, nat)>) returns (nodes': seq<GraphNode>)
    requires i < |segs| && Adjacency(segs, nodes) && OnSegment(nodes, segs[i], online)
    ensures Adjacency(segs, nodes') && Kept(nodes, nodes')
    ensures forall k :: 0 <= k < |online| - 1 && online[k].1 != online[k + 1].1 ==>
      online[k + 1].1 in nodes'[online[k].1].edges && online[k].1 in nodes'[online[k + 1].1].edges
    ensures nodes' == Linked(nodes, online)
  {
    nodes' := nodes;
    var k := 0;
    LinkingStart(segs, i, nodes, online);
    while k + 1 < |online|
      invariant Linking(segs, i, nodes, nodes', online, k)
    {
      nodes' := LinkPair(segs, i, nodes, nodes', online, k);
      k := k + 1;
    }
    LinkingDone(segs, i, nodes, nodes', online, k);
  }

  /** Links the `k`-th neighbouring pair of the chain, unless it names one node twice. */
  method LinkPair(segs: seq<Segment>, i: nat, ghost nodes: seq<GraphNode>, prev: seq<GraphNode>, online: seq<(int, nat)>, k: nat)
    returns (nodes': seq<GraphNode>)
    requires i < |segs| && k + 1 < |online| && Linking(segs, i, nodes, prev, online, k)
    ensures Linking(segs, i, nodes, nodes', online, k + 1)
  {
    var a, b := online[k].1, online[k + 1].1;
    ChainStep(segs, i, nodes, prev, online, k);
    AppendedStep(nodes, prev, online, k);
    nodes' := prev;
    if a != b {
      nodes' := Link(prev, a, b);
    }
  }

  /** One pass of the loop of `wireToGraph` over segment `i`: collect the
      nodes on it, sort them along it, link neighbours. */
  method AddSegment(segs: seq<Segment>, i: nat, nodes: seq<GraphNode>, index: map<Point, nat>)
    returns (nodes': seq<GraphNode>, index': map<Point, nat>)
    requires i < |segs| && Built(segs, i, nodes, index) && nodes == BuildNodes(segs, i)
    ensures Built(segs, i + 1, nodes', index') && nodes' == BuildNodes(segs, i + 1)
  {
    var online;
    var nodes1;
    nodes1, index', online := PointsOnLine(segs, i, nodes, index, Offers(segs, i));
    var sorted := SortByKey(online);
    OnSegmentPermuted(nodes1, segs[i], online, sorted);
    if Plain(segs, i) {
      PlainOnline(segs, i, nodes, index, Offers(segs, i), nodes1, index', online);
    }
    nodes' := LinkChain(segs, i, nodes1, sorted);
    FinishSegment(segs, i, nodes, index, nodes1, index', online, nodes');
    BuildStep(segs, i, nodes, index, nodes1, index', online);
  }

  /** The graph of a wire (wireToGraph). */
  method WireToGraph(w: Wire) returns (g: WireGraph)
    ensures BuiltFrom(w, g)
  {
    var nodes, index := AddSegments(w.segments);
    BuiltIsGraphOf(w.segments, nodes, index);
    g := WireGraph(w.id, nodes);
  }

  /** Adds every segment in turn: the loop of wireToGraph. */
  method AddSegments(segs: seq<Segment>) returns (nodes: seq<GraphNode>, index: map<Point, nat>)
    ensures Built(segs, |segs|, nodes, index) && nodes == BuildNodes(segs, |segs|)
  {
    nodes, index := [], map[];
    BuiltStart(segs);
    for i := 0 to |segs|
      invariant Built(segs, i, nodes, index) && nodes == BuildNodes(segs, i)
    {
      nodes, index := AddSegment(segs, i, nodes, index);
    }
  }
}
