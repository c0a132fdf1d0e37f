/** What building the graph of a wire promises: the order in which nodes are
    requested, the reference each node ends up with, and the invariants the
    builder keeps between steps. */
module BuilderSpec {
  import opened Geometry
  import opened WireGraphs

  /** A request for the node at a position, with the reference offered for it. */
  type Offer = (Point, Option<ElRef>)

  // ---------------------------------------------------------------------------
  // The order in which the builder asks for nodes

  /** The offers for segment `j`'s endpoints that lie strictly inside segment `i`. */
  function InnerOffersAt(segs: seq<Segment>, i: nat, j: nat): seq<Offer>
    requires i < |segs| && j < |segs|
  {
    if j == i then []
    else
      (if AttachedInner(segs[i], segs[j].p0) then [(segs[j].p0, None)] else []) +
      (if AttachedInner(segs[i], segs[j].p1) then [(segs[j].p1, None)] else [])
  }

  /** The inner offers made for segment `i` while scanning segments `0..j-1`. */
  function InnerOffers(segs: seq<Segment>, i: nat, j: nat): seq<Offer>
    requires i < |segs| && j <= |segs|
  {
    if j == 0 then [] else InnerOffers(segs, i, j - 1) + InnerOffersAt(segs, i, j - 1)
  }

  /** Everything offered while processing segment `i`: its two endpoints with
      their references, then the points of other segments inside it. */
  function SegmentOffers(segs: seq<Segment>, i: nat): seq<Offer>
    requires i < |segs|
  {
    [(segs[i].p0, segs[i].comp0Ref), (segs[i].p1, segs[i].comp1Ref)] + InnerOffers(segs, i, |segs|)
  }

  /** Everything offered while processing segments `0..i-1`. */
  function Offers(segs: seq<Segment>, i: nat): seq<Offer>
    requires i <= |segs|
  {
    if i == 0 then [] else Offers(segs, i - 1) + SegmentOffers(segs, i - 1)
  }

  /** The positions in the order of their first request: node `k` sits at `Firsts(offers)[k]`. */
  function Firsts(offers: seq<Offer>): seq<Point> {
    if offers == [] then []
    else
      var f := Firsts(offers[..|offers| - 1]);
      var p := offers[|offers| - 1].0;
      if p in f then f else f + [p]
  }

  /** The reference a node at `p` ends up with: `node.ref = node.ref || ref` on every request. */
  function FirstRef(offers: seq<Offer>, p: Point): Option<ElRef> {
    if offers == [] then None
    else
      var r := FirstRef(offers[..|offers| - 1], p);
      var last := offers[|offers| - 1];
      if r.None? && last.0 == p then last.1 else r
  }

  /** A position is a node position exactly when it was offered. */
  lemma {:induction false} FirstsAreOffered(offers: seq<Offer>, p: Point)
    ensures p in Firsts(offers) <==> exists k :: 0 <= k < |offers| && offers[k].0 == p
  {
    if offers != [] {
      var init := offers[..|offers| - 1];
      FirstsAreOffered(init, p);
      if exists k :: 0 <= k < |init| && init[k].0 == p {
        var k :| 0 <= k < |init| && init[k].0 == p;
        assert offers[k].0 == p;
      }
      if exists k :: 0 <= k < |offers| && offers[k].0 == p {
        var k :| 0 <= k < |offers| && offers[k].0 == p;
        if k < |init| {
          assert init[k].0 == p;
        }
      }
    }
  }

  /** No position is listed twice. */
  lemma {:induction false} FirstsDistinct(offers: seq<Offer>)
    ensures forall a, b :: 0 <= a < b < |Firsts(offers)| ==> Firsts(offers)[a] != Firsts(offers)[b]
  {
    if offers != [] {
      FirstsDistinct(offers[..|offers| - 1]);
    }
  }

  /** A position never offered has no reference. */
  lemma {:induction false} FirstRefUnoffered(offers: seq<Offer>, p: Point)
    requires p !in Firsts(offers)
    ensures FirstRef(offers, p) == None
  {
    if offers != [] {
      FirstRefUnoffered(offers[..|offers| - 1], p);
    }
  }

  /** First writer wins: a node's reference is the first non-empty reference
      offered for its position, and later offers never replace it; it has none
      only when no offer for its position carried one. */
  lemma {:induction false} FirstRefFirstWins(offers: seq<Offer>, p: Point)
    ensures FirstRef(offers, p).Some? ==>
      exists k :: 0 <= k < |offers| && offers[k].0 == p && offers[k].1 == FirstRef(offers, p) &&
        forall m :: 0 <= m < k && offers[m].0 == p ==> offers[m].1.None?
    ensures FirstRef(offers, p).None? ==>
      forall k :: 0 <= k < |offers| && offers[k].0 == p ==> offers[k].1.None?
  {
    if offers != [] {
      var init := offers[..|offers| - 1];
      FirstRefFirstWins(init, p);
      if FirstRef(init, p).Some? {
        var k :| 0 <= k < |init| && init[k].0 == p && init[k].1 == FirstRef(init, p) &&
          forall m :: 0 <= m < k && init[m].0 == p ==> init[m].1.None?;
        assert offers[k] == init[k];
        forall m | 0 <= m < k && offers[m].0 == p ensures offers[m].1.None? {
          assert offers[m] == init[m];
        }
      } else {
        forall k | 0 <= k < |offers| - 1 && offers[k].0 == p ensures offers[k].1.None? {
          assert offers[k] == init[k];
        }
      }
    }
  }

  lemma {:induction false} InnerOffersAreEndpoints(segs: seq<Segment>, i: nat, j: nat)
    requires i < |segs| && j <= |segs|
    ensures forall o :: o in InnerOffers(segs, i, j) ==> IsEndpoint(segs, o.0)
  {
    forall o | o in InnerOffers(segs, i, j) ensures IsEndpoint(segs, o.0) {
      InnerOfferIsEndpoint(segs, i, j, o);
    }
  }

  /** One inner offer sits at an end of a scanned segment. */
  lemma {:induction false} InnerOfferIsEndpoint(segs: seq<Segment>, i: nat, j: nat, o: Offer)
    requires i < |segs| && j <= |segs| && o in InnerOffers(segs, i, j)
    ensures IsEndpoint(segs, o.0)
  {
    assert j > 0;
    if o in InnerOffers(segs, i, j - 1) {
      InnerOfferIsEndpoint(segs, i, j - 1, o);
    } else {
      InnerOffersAtEnds(segs, i, j - 1);
      EndpointsOfSegment(segs, j - 1);
    }
  }

  /** The inner offers met on segment `j` are at its ends. */
  lemma {:induction false} InnerOffersAtEnds(segs: seq<Segment>, i: nat, j: nat)
    requires i < |segs| && j < |segs|
    ensures forall o :: o in InnerOffersAt(segs, i, j) ==> o.0 == segs[j].p0 || o.0 == segs[j].p1
  {
  }

  lemma {:induction false} EndpointsOfSegment(segs: seq<Segment>, k: nat)
    requires k < |segs|
    ensures IsEndpoint(segs, segs[k].p0) && IsEndpoint(segs, segs[k].p1)
  {
  }

  /** What processing segment `i - 1` adds to the offers. */
  lemma {:induction false} OffersStep(segs: seq<Segment>, i: nat)
    requires 0 < i <= |segs|
    ensures forall o :: o in Offers(segs, i) <==>
      o in Offers(segs, i - 1) || o == (segs[i - 1].p0, segs[i - 1].comp0Ref) ||
      o == (segs[i - 1].p1, segs[i - 1].comp1Ref) || o in InnerOffers(segs, i - 1, |segs|)
  {
    var head := [(segs[i - 1].p0, segs[i - 1].comp0Ref), (segs[i - 1].p1, segs[i - 1].comp1Ref)];
    var inner := InnerOffers(segs, i - 1, |segs|);
    var prev := Offers(segs, i - 1);
    assert Offers(segs, i) == prev + (head + inner);
  }

  /** Every offered position is an endpoint of a segment. */
  lemma {:induction false} OffersAreEndpoints(segs: seq<Segment>, i: nat)
    requires i <= |segs|
    ensures forall o :: o in Offers(segs, i) ==> IsEndpoint(segs, o.0)
  {
    if i > 0 {
      OffersStep(segs, i);
      OffersAreEndpoints(segs, i - 1);
      InnerOffersAreEndpoints(segs, i - 1, |segs|);
      EndpointsOfSegment(segs, i - 1);
    }
  }

  /** Both endpoints of a processed segment are offered, with their references. */
  lemma {:induction false} EndpointsAreOffered(segs: seq<Segment>, i: nat, k: nat)
    requires k < i <= |segs|
    ensures (segs[k].p0, segs[k].comp0Ref) in Offers(segs, i) && (segs[k].p1, segs[k].comp1Ref) in Offers(segs, i)
  {
    if k < i - 1 {
      EndpointsAreOffered(segs, i - 1, k);
      OffersGrow(segs, i, (segs[k].p0, segs[k].comp0Ref));
      OffersGrow(segs, i, (segs[k].p1, segs[k].comp1Ref));
    } else {
      assert segs[k] == segs[i - 1];
      OffersHead(segs, i);
    }
  }

  lemma {:induction false} OffersGrow(segs: seq<Segment>, i: nat, o: Offer)
    requires 0 < i <= |segs| && o in Offers(segs, i - 1)
    ensures o in Offers(segs, i)
  {
  }

  lemma {:induction false} OffersHead(segs: seq<Segment>, i: nat)
    requires 0 < i <= |segs|
    ensures (segs[i - 1].p0, segs[i - 1].comp0Ref) in Offers(segs, i)
    ensures (segs[i - 1].p1, segs[i - 1].comp1Ref) in Offers(segs, i)
  {
    assert SegmentOffers(segs, i - 1)[0] == (segs[i - 1].p0, segs[i - 1].comp0Ref);
    assert SegmentOffers(segs, i - 1)[1] == (segs[i - 1].p1, segs[i - 1].comp1Ref);
    assert Offers(segs, i)[|Offers(segs, i - 1)|] == (segs[i - 1].p0, segs[i - 1].comp0Ref);
    assert Offers(segs, i)[|Offers(segs, i - 1)| + 1] == (segs[i - 1].p1, segs[i - 1].comp1Ref);
  }

  /** No endpoint of another segment lies strictly inside segment `i`. */
  predicate NoInnerPoint(segs: seq<Segment>, i: nat)
    requires i < |segs|
  {
    forall j :: 0 <= j < |segs| && j != i ==> !AttachedInner(segs[i], segs[j].p0) && !AttachedInner(segs[i], segs[j].p1)
  }

  lemma {:induction false} NoInnerPointNoOffers(segs: seq<Segment>, i: nat, j: nat)
    requires i < |segs| && j <= |segs| && NoInnerPoint(segs, i)
    ensures InnerOffers(segs, i, j) == []
  {
    if j > 0 {
      NoInnerPointNoOffers(segs, i, j - 1);
    }
  }

  // ---------------------------------------------------------------------------
  // Builder state

  /** The node list and the position map agree with the offers made so far. */
  ghost predicate Mirrors(nodes: seq<GraphNode>, index: map<Point, nat>, offers: seq<Offer>) {
    && |nodes| == |Firsts(offers)|
    && (forall k :: 0 <= k < |nodes| ==>
          nodes[k].id == k && nodes[k].pos == Firsts(offers)[k] && nodes[k].ref == FirstRef(offers, nodes[k].pos))
    && (forall p :: p in index <==> p in Firsts(offers))
    && (forall p :: p in index ==> index[p] < |nodes| && nodes[index[p]].pos == p)
  }

  /** Two positions lie on one segment of the wire. */
  ghost predicate OnCommonSegment(segs: seq<Segment>, a: Point, b: Point) {
    exists k :: 0 <= k < |segs| && Attached(segs[k], a) && Attached(segs[k], b)
  }

  /** Every edge joins two positions of one segment. */
  ghost predicate Justified(segs: seq<Segment>, nodes: seq<GraphNode>)
    requires EdgesInRange(nodes)
  {
    forall i, e :: 0 <= i < |nodes| && e in nodes[i].edges ==> OnCommonSegment(segs, nodes[i].pos, nodes[e].pos)
  }

  /** The node at `p` lists the node at `q`. */
  ghost predicate Joined(nodes: seq<GraphNode>, index: map<Point, nat>, p: Point, q: Point) {
    p in index && q in index && index[p] < |nodes| && index[q] in nodes[index[p]].edges
  }

  /** A segment with distinct ends and nothing touching its interior. */
  ghost predicate Plain(segs: seq<Segment>, i: nat)
    requires i < |segs|
  {
    segs[i].p0 != segs[i].p1 && NoInnerPoint(segs, i)
  }

  /** The adjacency invariants the builder keeps. */
  ghost predicate Adjacency(segs: seq<Segment>, nodes: seq<GraphNode>) {
    EdgesInRange(nodes) && LoopFree(nodes) && Symmetric(nodes) && Justified(segs, nodes)
  }

  /** `nodes'` and `index'` only add fresh, unconnected nodes to `nodes` and `index`. */
  ghost predicate Extends(nodes: seq<GraphNode>, index: map<Point, nat>, nodes': seq<GraphNode>, index': map<Point, nat>) {
    && |nodes| <= |nodes'|
    && (forall k :: 0 <= k < |nodes| ==> nodes'[k].edges == nodes[k].edges && nodes'[k].pos == nodes[k].pos)
    && (forall k :: |nodes| <= k < |nodes'| ==> nodes'[k].edges == [])
    && (forall p :: p in index ==> p in index' && index'[p] == index[p])
  }

  lemma {:induction false} ExtendsTrans(n0: seq<GraphNode>, i0: map<Point, nat>, n1: seq<GraphNode>, i1: map<Point, nat>, n2: seq<GraphNode>, i2: map<Point, nat>)
    requires Extends(n0, i0, n1, i1) && Extends(n1, i1, n2, i2)
    ensures Extends(n0, i0, n2, i2)
  {
  }

  /** Appending fresh, unconnected nodes keeps the adjacency invariants. */
  lemma {:induction false} GrowKeepsInvariants(segs: seq<Segment>, nodes: seq<GraphNode>, index: map<Point, nat>, nodes': seq<GraphNode>, index': map<Point, nat>)
    requires Extends(nodes, index, nodes', index') && Adjacency(segs, nodes)
    ensures Adjacency(segs, nodes')
  {
    forall i, j | 0 <= i < |nodes'| && 0 <= j < |nodes'|
      ensures multiset(nodes'[i].edges)[j] == multiset(nodes'[j].edges)[i]
    {
      if i < |nodes| && j < |nodes| {
        assert multiset(nodes[i].edges)[j] == multiset(nodes[j].edges)[i];
      } else if i < |nodes| {
        assert j !in nodes[i].edges;
      } else if j < |nodes| {
        assert i !in nodes[j].edges;
      }
    }
  }

  lemma {:induction false} LinkKeepsJustified(segs: seq<Segment>, nodes: seq<GraphNode>, a: nat, b: nat)
    requires a < |nodes| && b < |nodes| && a != b
    requires EdgesInRange(nodes) && Justified(segs, nodes)
    requires OnCommonSegment(segs, nodes[a].pos, nodes[b].pos)
    ensures EdgesInRange(Link(nodes, a, b)) && Justified(segs, Link(nodes, a, b))
  {
    var r := Link(nodes, a, b);
    LinkShape(nodes, a, b);
    forall i, e | 0 <= i < |r| && e in r[i].edges ensures e < |r| {
      if i == a || i == b {
        assert e in nodes[i].edges || e == a || e == b;
      }
    }
    forall i, e | 0 <= i < |r| && e in r[i].edges
      ensures OnCommonSegment(segs, r[i].pos, r[e].pos)
    {
      var k :| 0 <= k < |segs| && Attached(segs[k], nodes[a].pos) && Attached(segs[k], nodes[b].pos);
      if i == a && e == b {
        assert Attached(segs[k], r[i].pos) && Attached(segs[k], r[e].pos);
      } else if i == b && e == a {
        assert Attached(segs[k], r[i].pos) && Attached(segs[k], r[e].pos);
      } else {
        assert e in nodes[i].edges;
      }
    }
  }

  // ---------------------------------------------------------------------------
  // Ordering the points of one segment

  predicate SortedByKey(s: seq<(int, nat)>) {
    forall a, b :: 0 <= a < b < |s| ==> s[a].0 <= s[b].0
  }

  function InsertByKey(x: (int, nat), s: seq<(int, nat)>): (r: seq<(int, nat)>)
    requires SortedByKey(s)
    ensures SortedByKey(r) && multiset(r) == multiset(s) + multiset{x}
  {
    if s == [] then [x]
    else if x.0 < s[0].0 then [x] + s
    else
      var rest := InsertByKey(x, s[1..]);
      assert s == [s[0]] + s[1..];
      HeadBelow(s[0], x, s[1..], rest);
      [s[0]] + rest
  }

  lemma {:induction false} HeadBelow(h: (int, nat), x: (int, nat), t: seq<(int, nat)>, rest: seq<(int, nat)>)
    requires h.0 <= x.0 && SortedByKey([h] + t) && SortedByKey(rest)
    requires multiset(rest) == multiset(t) + multiset{x}
    ensures SortedByKey([h] + rest)
  {
    forall e | e in rest ensures h.0 <= e.0 {
      assert ([h] + t)[0] == h;
      assert e in multiset(rest);
      if e != x {
        assert e in multiset(t);
        var k :| 0 <= k < |t| && t[k] == e;
        assert ([h] + t)[k + 1] == e;
      }
    }
    forall a, b | 0 <= a < b < |[h] + rest| ensures ([h] + rest)[a].0 <= ([h] + rest)[b].0 {
      if a > 0 {
        assert ([h] + rest)[a] == rest[a - 1] && ([h] + rest)[b] == rest[b - 1];
      } else {
        assert ([h] + rest)[b] in rest;
      }
    }
  }

  /** The stable sort of the points on a segment by their projection
      (`nodesOnLine.sort((a, b) => a.t - b.t)`): ascending keys, same entries. */
  function SortByKey(s: seq<(int, nat)>): (r: seq<(int, nat)>)
    ensures SortedByKey(r) && multiset(r) == multiset(s)
  {
    if s == [] then []
    else
      assert s == s[..|s| - 1] + [s[|s| - 1]];
      InsertByKey(s[|s| - 1], SortByKey(s[..|s| - 1]))
  }

  lemma {:induction false} SortTwo(s: seq<(int, nat)>)
    requires |s| == 2 && s[0].0 < s[1].0
    ensures SortByKey(s) == s
  {
    assert s[..1] == [s[0]];
    assert s[..1][..0] == [];
    assert s == [s[0], s[1]];
  }

  // ---------------------------------------------------------------------------
  // Building

  /** Every entry names a node lying on segment `seg`. */
  ghost predicate OnSegment(nodes: seq<GraphNode>, seg: Segment, online: seq<(int, nat)>) {
    forall e :: e in online ==> e.1 < |nodes| && Attached(seg, nodes[e.1].pos)
  }

  /** `nodes'` keeps the nodes of `nodes` and only appends to their adjacency lists. */
  ghost predicate Kept(nodes: seq<GraphNode>, nodes': seq<GraphNode>) {
    && |nodes'| == |nodes|
    && forall k :: 0 <= k < |nodes| ==>
         nodes'[k].id == nodes[k].id && nodes'[k].pos == nodes[k].pos && nodes'[k].ref == nodes[k].ref &&
         nodes[k].edges <= nodes'[k].edges
  }

  lemma {:induction false} LinkKept(nodes: seq<GraphNode>, a: nat, b: nat)
    requires a < |nodes| && b < |nodes| && a != b
    ensures Kept(nodes, Link(nodes, a, b))
    ensures b in Link(nodes, a, b)[a].edges && a in Link(nodes, a, b)[b].edges
  {
    LinkShape(nodes, a, b);
  }

  lemma {:induction false} KeptTrans(n0: seq<GraphNode>, n1: seq<GraphNode>, n2: seq<GraphNode>)
    requires Kept(n0, n1) && Kept(n1, n2)
    ensures Kept(n0, n2)
  {
    forall k | 0 <= k < |n0| ensures n0[k].edges <= n2[k].edges {
      assert n0[k].edges <= n1[k].edges <= n2[k].edges;
    }
  }

  lemma {:induction false} KeptOnSegment(nodes: seq<GraphNode>, nodes': seq<GraphNode>, seg: Segment, online: seq<(int, nat)>)
    requires Kept(nodes, nodes') && OnSegment(nodes, seg, online)
    ensures OnSegment(nodes', seg, online)
  {
    forall e | e in online ensures e.1 < |nodes'| && Attached(seg, nodes'[e.1].pos) {
      assert nodes'[e.1].pos == nodes[e.1].pos;
    }
  }

  lemma {:induction false} OnSegmentCommon(segs: seq<Segment>, i: nat, nodes: seq<GraphNode>, online: seq<(int, nat)>, x: nat, y: nat)
    requires i < |segs| && OnSegment(nodes, segs[i], online) && x < |online| && y < |online|
    ensures online[x].1 < |nodes| && online[y].1 < |nodes|
    ensures OnCommonSegment(segs, nodes[online[x].1].pos, nodes[online[y].1].pos)
  {
    assert online[x] in online && online[y] in online;
  }

  /** The offers for the two endpoints of a segment, with their references. */
  function EndOffers(seg: Segment): seq<Offer> {
    [(seg.p0, seg.comp0Ref), (seg.p1, seg.comp1Ref)]
  }

  /** The state of the scan for segment `i` once segments `0..j-1` are looked at. */
  ghost predicate Scanned(segs: seq<Segment>, i: nat, nodes0: seq<GraphNode>, index0: map<Point, nat>, offers: seq<Offer>,
                          nodes: seq<GraphNode>, index: map<Point, nat>, online: seq<(int, nat)>, j: nat)
    requires i < |segs| && j <= |segs|
  {
    && Mirrors(nodes, index, offers + EndOffers(segs[i]) + InnerOffers(segs, i, j))
    && Adjacency(segs, nodes) && Extends(nodes0, index0, nodes, index) && OnSegment(nodes, segs[i], online)
    && |online| == 2 + |InnerOffers(segs, i, j)|
    && segs[i].p0 in index && segs[i].p1 in index
    && online[0] == (0, index[segs[i].p0]) && online[1] == (Proj(segs[i], segs[i].p1), index[segs[i].p1])
  }

  /** The scan starts with the two end nodes of segment `i`. */
  lemma {:induction false} StartScan(segs: seq<Segment>, i: nat, nodes0: seq<GraphNode>, index0: map<Point, nat>, offers: seq<Offer>,
                  nodes: seq<GraphNode>, index: map<Point, nat>, online: seq<(int, nat)>)
    requires i < |segs|
    requires Mirrors(nodes, index, offers + [(segs[i].p0, segs[i].comp0Ref)] + [(segs[i].p1, segs[i].comp1Ref)])
    requires Extends(nodes0, index0, nodes, index) && Adjacency(segs, nodes)
    requires segs[i].p0 in index && index[segs[i].p0] < |nodes| && nodes[index[segs[i].p0]].pos == segs[i].p0
    requires segs[i].p1 in index && index[segs[i].p1] < |nodes| && nodes[index[segs[i].p1]].pos == segs[i].p1
    requires online == [(0, index[segs[i].p0]), (Proj(segs[i], segs[i].p1), index[segs[i].p1])]
    ensures Scanned(segs, i, nodes0, index0, offers, nodes, index, online, 0)
  {
    EndsOnSegment(segs[i], nodes, online);
    StartOffers(segs, i, offers);
  }

  lemma {:induction false} StartOffers(segs: seq<Segment>, i: nat, offers: seq<Offer>)
    requires i < |segs|
    ensures offers + [(segs[i].p0, segs[i].comp0Ref)] + [(segs[i].p1, segs[i].comp1Ref)]
      == offers + EndOffers(segs[i]) + InnerOffers(segs, i, 0)
  {
    assert InnerOffers(segs, i, 0) == [];
    assert EndOffers(segs[i]) == [(segs[i].p0, segs[i].comp0Ref)] + [(segs[i].p1, segs[i].comp1Ref)];
  }

  lemma {:induction false} EndsOnSegment(seg: Segment, nodes: seq<GraphNode>, online: seq<(int, nat)>)
    requires |online| == 2 && online[0].1 < |nodes| && online[1].1 < |nodes|
    requires nodes[online[0].1].pos == seg.p0 && nodes[online[1].1].pos == seg.p1
    ensures OnSegment(nodes, seg, online)
  {
    EndsAttached(seg);
  }

  lemma {:induction false} InnerOffersStep(segs: seq<Segment>, i: nat, j: nat, base: seq<Offer>)
    requires i < |segs| && j < |segs| && j != i
    ensures base + InnerOffers(segs, i, j) +
      (if AttachedInner(segs[i], segs[j].p0) then [(segs[j].p0, None)] else []) +
      (if AttachedInner(segs[i], segs[j].p1) then [(segs[j].p1, None)] else [])
      == base + InnerOffers(segs, i, j + 1)
  {
    var prev := InnerOffers(segs, i, j);
    var a: seq<Offer> := if AttachedInner(segs[i], segs[j].p0) then [(segs[j].p0, None)] else [];
    var b: seq<Offer> := if AttachedInner(segs[i], segs[j].p1) then [(segs[j].p1, None)] else [];
    assert InnerOffersAt(segs, i, j) == a + b;
    assert InnerOffers(segs, i, j + 1) == prev + (a + b);
    assert base + prev + a + b == base + (prev + (a + b));
  }

  lemma {:induction false} InnerOffersSkip(segs: seq<Segment>, i: nat, base: seq<Offer>)
    requires i < |segs|
    ensures base + InnerOffers(segs, i, i) == base + InnerOffers(segs, i, i + 1)
  {
  }

  lemma {:induction false} SegmentOffersSplit(segs: seq<Segment>, i: nat, offers: seq<Offer>)
    requires i < |segs|
    ensures offers + EndOffers(segs[i]) + InnerOffers(segs, i, |segs|)
      == offers + SegmentOffers(segs, i)
  {
  }

  /** The invariant of the linking loop after `k` pairs. */
  ghost predicate Chained(segs: seq<Segment>, i: nat, nodes: seq<GraphNode>, nodes': seq<GraphNode>, online: seq<(int, nat)>, k: nat)
    requires i < |segs|
  {
    && k <= |online|
    && Adjacency(segs, nodes') && Kept(nodes, nodes') && OnSegment(nodes', segs[i], online)
    && forall m :: 0 <= m < k && m + 1 < |online| && online[m].1 != online[m + 1].1 ==>
         online[m + 1].1 in nodes'[online[m].1].edges && online[m].1 in nodes'[online[m + 1].1].edges
  }

  lemma {:induction false} ChainStep(segs: seq<Segment>, i: nat, nodes: seq<GraphNode>, prev: seq<GraphNode>, online: seq<(int, nat)>, k: nat)
    requires i < |segs| && k + 1 < |online| && Chained(segs, i, nodes, prev, online, k)
    ensures online[k].1 < |prev| && online[k + 1].1 < |prev|
    ensures online[k].1 != online[k + 1].1 ==>
      Chained(segs, i, nodes, Link(prev, online[k].1, online[k + 1].1), online, k + 1)
    ensures online[k].1 == online[k + 1].1 ==> Chained(segs, i, nodes, prev, online, k + 1)
  {
    var a, b := online[k].1, online[k + 1].1;
    OnSegmentCommon(segs, i, prev, online, k, k + 1);
    if a != b {
      ChainLink(segs, i, nodes, prev, online, k);
    } else {
      ChainSame(segs, i, nodes, prev, online, k);
    }
  }

  /** Linking two distinct consecutive nodes extends the chain by one pair. */
  lemma {:induction false} ChainLink(segs: seq<Segment>, i: nat, nodes: seq<GraphNode>, prev: seq<GraphNode>, online: seq<(int, nat)>, k: nat)
    requires i < |segs| && k + 1 < |online| && Chained(segs, i, nodes, prev, online, k)
    requires online[k].1 < |prev| && online[k + 1].1 < |prev| && online[k].1 != online[k + 1].1
    requires OnCommonSegment(segs, prev[online[k].1].pos, prev[online[k + 1].1].pos)
    ensures Chained(segs, i, nodes, Link(prev, online[k].1, online[k + 1].1), online, k + 1)
  {
    var a, b := online[k].1, online[k + 1].1;
    LinkKeepsInvariants(prev, a, b);
    LinkKeepsJustified(segs, prev, a, b);
    var r := Link(prev, a, b);
    LinkKept(prev, a, b);
    KeptTrans(nodes, prev, r);
    KeptOnSegment(prev, r, segs[i], online);
    KeptPairs(prev, r, online, k);
  }

  /** Two consecutive nodes that coincide need no edge. */
  lemma {:induction false} ChainSame(segs: seq<Segment>, i: nat, nodes: seq<GraphNode>, prev: seq<GraphNode>, online: seq<(int, nat)>, k: nat)
    requires i < |segs| && k + 1 < |online| && Chained(segs, i, nodes, prev, online, k)
    requires online[k].1 == online[k + 1].1
    ensures Chained(segs, i, nodes, prev, online, k + 1)
  {
  }

  /** Pairs linked in `nodes` stay linked in a `Kept` extension. */
  lemma {:induction false} KeptPairs(nodes: seq<GraphNode>, nodes': seq<GraphNode>, online: seq<(int, nat)>, k: nat)
    requires Kept(nodes, nodes') && k < |online|
    requires forall e :: e in online ==> e.1 < |nodes|
    requires forall m :: 0 <= m < k && m + 1 < |online| && online[m].1 != online[m + 1].1 ==>
      online[m + 1].1 in nodes[online[m].1].edges && online[m].1 in nodes[online[m + 1].1].edges
    ensures forall m :: 0 <= m < k && m + 1 < |online| && online[m].1 != online[m + 1].1 ==>
      online[m + 1].1 in nodes'[online[m].1].edges && online[m].1 in nodes'[online[m + 1].1].edges
  {
    forall m | 0 <= m < k && m + 1 < |online| && online[m].1 != online[m + 1].1
      ensures online[m + 1].1 in nodes'[online[m].1].edges && online[m].1 in nodes'[online[m + 1].1].edges
    {
      var a, b := online[m].1, online[m + 1].1;
      assert online[m] in online && online[m + 1] in online;
      PrefixIn(nodes[a].edges, nodes'[a].edges, b);
      PrefixIn(nodes[b].edges, nodes'[b].edges, a);
    }
  }

  lemma {:induction false} PrefixIn<T>(s: seq<T>, t: seq<T>, x: T)
    requires s <= t && x in s
    ensures x in t
  {
    var j :| 0 <= j < |s| && s[j] == x;
    assert t[j] == x;
  }

  // ---------------------------------------------------------------------------
  // The whole build

  /** Every plain segment among the first `i` is one edge. */
  ghost predicate PlainJoined(segs: seq<Segment>, nodes: seq<GraphNode>, index: map<Point, nat>, i: nat)
    requires i <= |segs|
  {
    forall k :: 0 <= k < i && Plain(segs, k) ==> Joined(nodes, index, segs[k].p0, segs[k].p1)
  }

  /** The state of `wireToGraph` after its first `i` segments. */
  ghost predicate Built(segs: seq<Segment>, i: nat, nodes: seq<GraphNode>, index: map<Point, nat>)
    requires i <= |segs|
  {
    Mirrors(nodes, index, Offers(segs, i)) && Adjacency(segs, nodes) && PlainJoined(segs, nodes, index, i)
  }

  lemma {:induction false} JoinedExtends(segs: seq<Segment>, i: nat, nodes: seq<GraphNode>, index: map<Point, nat>, nodes': seq<GraphNode>, index': map<Point, nat>)
    requires i <= |segs| && PlainJoined(segs, nodes, index, i) && Extends(nodes, index, nodes', index')
    ensures PlainJoined(segs, nodes', index', i)
  {
    forall k | 0 <= k < i && Plain(segs, k) ensures Joined(nodes', index', segs[k].p0, segs[k].p1) {
      assert Joined(nodes, index, segs[k].p0, segs[k].p1);
    }
  }

  lemma {:induction false} JoinedKept(segs: seq<Segment>, i: nat, nodes: seq<GraphNode>, index: map<Point, nat>, nodes': seq<GraphNode>)
    requires i <= |segs| && PlainJoined(segs, nodes, index, i) && Kept(nodes, nodes')
    ensures PlainJoined(segs, nodes', index, i)
  {
    forall k | 0 <= k < i && Plain(segs, k) ensures Joined(nodes', index, segs[k].p0, segs[k].p1) {
      assert Joined(nodes, index, segs[k].p0, segs[k].p1);
      var a := index[segs[k].p0];
      PrefixIn(nodes[a].edges, nodes'[a].edges, index[segs[k].p1]);
    }
  }

  lemma {:induction false} MirrorsKept(nodes: seq<GraphNode>, nodes': seq<GraphNode>, index: map<Point, nat>, offers: seq<Offer>)
    requires Mirrors(nodes, index, offers) && Kept(nodes, nodes')
    ensures Mirrors(nodes', index, offers)
  {
  }

  lemma {:induction false} OnSegmentPermuted(nodes: seq<GraphNode>, seg: Segment, online: seq<(int, nat)>, sorted: seq<(int, nat)>)
    requires OnSegment(nodes, seg, online) && multiset(sorted) == multiset(online)
    ensures OnSegment(nodes, seg, sorted)
  {
    forall e | e in sorted ensures e.1 < |nodes| && Attached(seg, nodes[e.1].pos) {
      assert e in multiset(sorted);
      assert e in online;
    }
  }

  /** A plain segment yields exactly its two end nodes, in order along it. */
  lemma {:induction false} PlainOnlineShape(segs: seq<Segment>, i: nat, nodes0: seq<GraphNode>, index0: map<Point, nat>,
                                            offers: seq<Offer>, nodes: seq<GraphNode>, index: map<Point, nat>, online: seq<(int, nat)>)
    requires i < |segs| && Plain(segs, i) && Scanned(segs, i, nodes0, index0, offers, nodes, index, online, |segs|)
    ensures |online| == 2 && online[0].0 < online[1].0 && online[0].1 != online[1].1
  {
    NoInnerPointNoOffers(segs, i, |segs|);
    FarEndAhead(segs[i]);
  }

  /** A plain segment's two end nodes are already sorted. */
  lemma {:induction false} PlainOnline(segs: seq<Segment>, i: nat, nodes0: seq<GraphNode>, index0: map<Point, nat>, offers: seq<Offer>,
                    nodes: seq<GraphNode>, index: map<Point, nat>, online: seq<(int, nat)>)
    requires i < |segs| && Plain(segs, i) && Scanned(segs, i, nodes0, index0, offers, nodes, index, online, |segs|)
    ensures |online| == 2 && online[0].0 < online[1].0 && online[0].1 != online[1].1
    ensures SortByKey(online) == online
  {
    PlainOnlineShape(segs, i, nodes0, index0, offers, nodes, index, online);
    SortTwo(online);
  }

  /** After segment `i`, the new segment is one edge if it is plain. */
  lemma {:induction false} FinishSegment(segs: seq<Segment>, i: nat, nodes0: seq<GraphNode>, index0: map<Point, nat>,
                      nodes1: seq<GraphNode>, index1: map<Point, nat>, online: seq<(int, nat)>, nodes2: seq<GraphNode>)
    requires i < |segs| && Built(segs, i, nodes0, index0)
    requires Scanned(segs, i, nodes0, index0, Offers(segs, i), nodes1, index1, online, |segs|)
    requires Adjacency(segs, nodes2) && Kept(nodes1, nodes2)
    requires Plain(segs, i) ==> online[1].1 in nodes2[online[0].1].edges
    ensures Built(segs, i + 1, nodes2, index1)
  {
    SegmentOffersSplit(segs, i, Offers(segs, i));
    assert Offers(segs, i + 1) == Offers(segs, i) + SegmentOffers(segs, i);
    MirrorsKept(nodes1, nodes2, index1, Offers(segs, i + 1));
    JoinedExtends(segs, i, nodes0, index0, nodes1, index1);
    JoinedKept(segs, i, nodes1, index1, nodes2);
  }

  // ---------------------------------------------------------------------------
  // The graph as a function of the wire

  /** The place of `p` in a list of positions: the id of its node. */
  function IdIn(f: seq<Point>, p: Point): (r: nat)
    ensures p in f ==> r < |f| && f[r] == p
  {
    if f == [] || f[0] == p then 0 else 1 + IdIn(f[1..], p)
  }

  /** The entries the scan of a segment records for a list of offers: each
      offered position's projection on the segment, with its node. */
  function Entries(seg: Segment, index: map<Point, nat>, offs: seq<Offer>): (r: seq<(int, nat)>)
    requires forall k :: 0 <= k < |offs| ==> offs[k].0 in index
    ensures |r| == |offs|
  {
    seq(|offs|, k requires 0 <= k < |offs| => (Proj(seg, offs[k].0), index[offs[k].0]))
  }

  /** The list of segment `i` holds, in order, an entry for each offer made
      for it once segments `0..j-1` are looked at. */
  ghost predicate Listed(segs: seq<Segment>, i: nat, index: map<Point, nat>, online: seq<(int, nat)>, j: nat)
    requires i < |segs| && j <= |segs|
  {
    var offs := EndOffers(segs[i]) + InnerOffers(segs, i, j);
    (forall k :: 0 <= k < |offs| ==> offs[k].0 in index) && online == Entries(segs[i], index, offs)
  }

  /** The points on segment `i` as the builder lists them before sorting: its
      two ends, then the endpoints of other segments strictly inside it, each
      with its projection on segment `i` and the id of its node. */
  function SegmentEntries(segs: seq<Segment>, i: nat): (r: seq<(int, nat)>)
    requires i < |segs|
    ensures |r| == |SegmentOffers(segs, i)|
  {
    var offs := SegmentOffers(segs, i);
    var f := Firsts(Offers(segs, i + 1));
    seq(|offs|, k requires 0 <= k < |offs| => (Proj(segs[i], offs[k].0), IdIn(f, offs[k].0)))
  }

  /** The neighbours node `x` gains from the first `k` neighbouring pairs of
      `online`, in order; a pair naming one node twice adds nothing. */
  function Nbrs(online: seq<(int, nat)>, k: nat, x: nat): seq<nat>
    requires k == 0 || k < |online|
  {
    if k == 0 then []
    else
      var a, b := online[k - 1].1, online[k].1;
      Nbrs(online, k - 1, x) + (if a != b && x == a then [b] else if a != b && x == b then [a] else [])
  }

  /** The number of neighbouring pairs in `online`. */
  function LastPair(online: seq<(int, nat)>): (r: nat)
    ensures r == 0 || r < |online|
  {
    if |online| == 0 then 0 else |online| - 1
  }

  /** The points on segment `i` in order along it (sorted by projection, ties
      in listing order). */
  function SortedEntries(segs: seq<Segment>, i: nat): seq<(int, nat)>
    requires i < |segs|
  {
    SortByKey(SegmentEntries(segs, i))
  }

  /** The nodes after linking every neighbouring pair of `online`. */
  function Linked(nodes: seq<GraphNode>, online: seq<(int, nat)>): (r: seq<GraphNode>)
    ensures |r| == |nodes|
  {
    seq(|nodes|, x requires 0 <= x < |nodes| => nodes[x].(edges := nodes[x].edges + Nbrs(online, LastPair(online), x)))
  }

  /** The nodes for `offers`, carrying over the adjacency lists of `prev` and
      giving every further node an empty one. */
  function Grow(prev: seq<GraphNode>, offers: seq<Offer>): (r: seq<GraphNode>)
    ensures |r| == |Firsts(offers)|
  {
    var f := Firsts(offers);
    seq(|f|, k requires 0 <= k < |f| =>
      GraphNode(k, f[k], FirstRef(offers, f[k]), if k < |prev| then prev[k].edges else []))
  }

  /** The nodes of the graph of a wire once segments `0..n-1` are added:
      each segment adds the nodes of its points, then links its points in
      order of their projection on it. */
  function BuildNodes(segs: seq<Segment>, n: nat): (r: seq<GraphNode>)
    requires n <= |segs|
    ensures |r| == |Firsts(Offers(segs, n))|
  {
    if n == 0 then []
    else Linked(Grow(BuildNodes(segs, n - 1), Offers(segs, n)), SortedEntries(segs, n - 1))
  }

  /** After `k` pairs every adjacency list is the old one followed by the
      neighbours gained so far. */
  ghost predicate Appended(nodes: seq<GraphNode>, nodes': seq<GraphNode>, online: seq<(int, nat)>, k: nat)
    requires k == 0 || k < |online|
  {
    |nodes'| == |nodes| &&
      forall x {:trigger Nbrs(online, k, x)} :: 0 <= x < |nodes| ==> nodes'[x].edges == nodes[x].edges + Nbrs(online, k, x)
  }

  /** The state of the linking loop of segment `i` after `k` pairs. */
  ghost predicate Linking(segs: seq<Segment>, i: nat, nodes: seq<GraphNode>, nodes': seq<GraphNode>, online: seq<(int, nat)>, k: nat)
    requires i < |segs|
  {
    (k == 0 || k < |online|) && Chained(segs, i, nodes, nodes', online, k) && Appended(nodes, nodes', online, k)
  }

  /** Before the first pair nothing is linked. */
  lemma {:induction false} LinkingStart(segs: seq<Segment>, i: nat, nodes: seq<GraphNode>, online: seq<(int, nat)>)
    requires i < |segs| && Adjacency(segs, nodes) && OnSegment(nodes, segs[i], online)
    ensures Linking(segs, i, nodes, nodes, online, 0)
  {
    forall x | 0 <= x < |nodes| ensures nodes[x].edges == nodes[x].edges + Nbrs(online, 0, x) {
      assert nodes[x].edges + [] == nodes[x].edges;
    }
  }

  /** After the last pair the nodes are `Linked(nodes, online)`, keep the
      builder's invariants and join every pair naming two nodes. */
  lemma {:induction false} LinkingDone(segs: seq<Segment>, i: nat, nodes: seq<GraphNode>, nodes': seq<GraphNode>,
                                       online: seq<(int, nat)>, k: nat)
    requires i < |segs| && Linking(segs, i, nodes, nodes', online, k) && k + 1 >= |online|
    ensures Adjacency(segs, nodes') && Kept(nodes, nodes') && nodes' == Linked(nodes, online)
    ensures forall m :: 0 <= m < |online| - 1 && online[m].1 != online[m + 1].1 ==>
      online[m + 1].1 in nodes'[online[m].1].edges && online[m].1 in nodes'[online[m + 1].1].edges
  {
    assert k == LastPair(online);
    AppendedLinked(nodes, nodes', online);
  }

  /** One more pair of the chain: a link when the pair names two nodes. */
  lemma {:induction false} AppendedStep(nodes: seq<GraphNode>, prev: seq<GraphNode>, online: seq<(int, nat)>, k: nat)
    requires k + 1 < |online| && Appended(nodes, prev, online, k)
    requires online[k].1 < |prev| && online[k + 1].1 < |prev|
    ensures online[k].1 != online[k + 1].1 ==> Appended(nodes, Link(prev, online[k].1, online[k + 1].1), online, k + 1)
    ensures online[k].1 == online[k + 1].1 ==> Appended(nodes, prev, online, k + 1)
  {
    var a, b := online[k].1, online[k + 1].1;
    if a != b {
      LinkShape(prev, a, b);
      var r := Link(prev, a, b);
      forall x | 0 <= x < |nodes| ensures r[x].edges == nodes[x].edges + Nbrs(online, k + 1, x) {
        var more: seq<nat> := if x == a then [b] else if x == b then [a] else [];
        assert Nbrs(online, k + 1, x) == Nbrs(online, k, x) + more;
        assert r[x].edges == prev[x].edges + more;
      }
    } else {
      forall x | 0 <= x < |nodes| ensures prev[x].edges == nodes[x].edges + Nbrs(online, k + 1, x) {
        assert Nbrs(online, k + 1, x) == Nbrs(online, k, x) + [];
      }
    }
  }

  /** Once every pair is linked the nodes are `Linked(nodes, online)`. */
  lemma {:induction false} AppendedLinked(nodes: seq<GraphNode>, nodes': seq<GraphNode>, online: seq<(int, nat)>)
    requires Kept(nodes, nodes') && Appended(nodes, nodes', online, LastPair(online))
    ensures nodes' == Linked(nodes, online)
  {
    var r := Linked(nodes, online);
    forall x | 0 <= x < |nodes| ensures nodes'[x] == r[x] {
    }
  }

  /** Looking up a position recorded in the map is finding its place in the
      list of first requests. */
  lemma {:induction false} MirrorsIndex(nodes: seq<GraphNode>, index: map<Point, nat>, offers: seq<Offer>, p: Point)
    requires Mirrors(nodes, index, offers) && p in index
    ensures index[p] == IdIn(Firsts(offers), p)
  {
    var f := Firsts(offers);
    FirstsDistinct(offers);
    assert f[index[p]] == p;
  }

  lemma {:induction false} EntriesExtend(seg: Segment, index: map<Point, nat>, index': map<Point, nat>, offs: seq<Offer>)
    requires forall k :: 0 <= k < |offs| ==> offs[k].0 in index
    requires forall p :: p in index ==> p in index' && index'[p] == index[p]
    ensures forall k :: 0 <= k < |offs| ==> offs[k].0 in index'
    ensures Entries(seg, index', offs) == Entries(seg, index, offs)
  {
  }

  lemma {:induction false} EntriesMaybe(seg: Segment, index: map<Point, nat>, offs: seq<Offer>, p: Point,
                                        online: seq<(int, nat)>, online': seq<(int, nat)>)
    requires forall k :: 0 <= k < |offs| ==> offs[k].0 in index
    requires online == Entries(seg, index, offs)
    requires AttachedInner(seg, p) ==> p in index && online' == online + [(Proj(seg, p), index[p])]
    requires !AttachedInner(seg, p) ==> online' == online
    ensures var more := offs + (if AttachedInner(seg, p) then [(p, None)] else []);
      (forall k :: 0 <= k < |more| ==> more[k].0 in index) && online' == Entries(seg, index, more)
  {
    if !AttachedInner(seg, p) {
      assert offs + [] == offs;
    }
  }

  /** The list starts with the two ends of segment `i`. */
  lemma {:induction false} ListedStart(segs: seq<Segment>, i: nat, index: map<Point, nat>, online: seq<(int, nat)>)
    requires i < |segs| && segs[i].p0 in index && segs[i].p1 in index
    requires online == [(0, index[segs[i].p0]), (Proj(segs[i], segs[i].p1), index[segs[i].p1])]
    ensures Listed(segs, i, index, online, 0)
  {
    assert EndOffers(segs[i]) + InnerOffers(segs, i, 0) == EndOffers(segs[i]);
    assert Proj(segs[i], segs[i].p0) == 0;
  }

  /** Segment `i` does not look at itself. */
  lemma {:induction false} ListedSkip(segs: seq<Segment>, i: nat, index: map<Point, nat>, online: seq<(int, nat)>)
    requires i < |segs| && Listed(segs, i, index, online, i)
    ensures Listed(segs, i, index, online, i + 1)
  {
    InnerOffersSkip(segs, i, EndOffers(segs[i]));
  }

  /** Looking at the endpoints of segment `j` appends the entries of those
      strictly inside segment `i`, in the order `p0`, `p1`. */
  lemma {:induction false} ListedTake(segs: seq<Segment>, i: nat, j: nat, index: map<Point, nat>, online: seq<(int, nat)>,
                                      indexC: map<Point, nat>, onlineC: seq<(int, nat)>,
                                      index': map<Point, nat>, online': seq<(int, nat)>)
    requires i < |segs| && j < |segs| && j != i && Listed(segs, i, index, online, j)
    requires forall p :: p in index ==> p in indexC && indexC[p] == index[p]
    requires forall p :: p in indexC ==> p in index' && index'[p] == indexC[p]
    requires AttachedInner(segs[i], segs[j].p0) ==>
      segs[j].p0 in indexC && onlineC == online + [(Proj(segs[i], segs[j].p0), indexC[segs[j].p0])]
    requires !AttachedInner(segs[i], segs[j].p0) ==> onlineC == online
    requires AttachedInner(segs[i], segs[j].p1) ==>
      segs[j].p1 in index' && online' == onlineC + [(Proj(segs[i], segs[j].p1), index'[segs[j].p1])]
    requires !AttachedInner(segs[i], segs[j].p1) ==> online' == onlineC
    ensures Listed(segs, i, index', online', j + 1)
  {
    var seg := segs[i];
    var base := EndOffers(seg);
    var l := base + InnerOffers(segs, i, j);
    var a: seq<Offer> := if AttachedInner(seg, segs[j].p0) then [(segs[j].p0, None)] else [];
    InnerOffersStep(segs, i, j, base);
    EntriesExtend(seg, index, indexC, l);
    EntriesMaybe(seg, indexC, l, segs[j].p0, online, onlineC);
    EntriesExtend(seg, indexC, index', l + a);
    EntriesMaybe(seg, index', l + a, segs[j].p1, onlineC, online');
  }

  /** At the end of the scan the list of segment `i` is its entries. */
  lemma {:induction false} ListedIds(segs: seq<Segment>, i: nat, nodes: seq<GraphNode>, index: map<Point, nat>, online: seq<(int, nat)>)
    requires i < |segs| && Mirrors(nodes, index, Offers(segs, i + 1)) && Listed(segs, i, index, online, |segs|)
    ensures online == SegmentEntries(segs, i)
  {
    var offs := SegmentOffers(segs, i);
    assert EndOffers(segs[i]) + InnerOffers(segs, i, |segs|) == offs;
    var e := SegmentEntries(segs, i);
    forall k | 0 <= k < |offs| ensures online[k] == e[k] {
      MirrorsIndex(nodes, index, Offers(segs, i + 1), offs[k].0);
    }
  }

  /** Nodes mirroring `offers` that only added empty nodes to `prev` are `Grow(prev, offers)`. */
  lemma {:induction false} GrowMatches(prev: seq<GraphNode>, offers: seq<Offer>, nodes: seq<GraphNode>, index: map<Point, nat>)
    requires Mirrors(nodes, index, offers) && |prev| <= |nodes|
    requires forall k :: 0 <= k < |prev| ==> nodes[k].edges == prev[k].edges
    requires forall k :: |prev| <= k < |nodes| ==> nodes[k].edges == []
    ensures nodes == Grow(prev, offers)
  {
    var g := Grow(prev, offers);
    forall k | 0 <= k < |nodes| ensures nodes[k] == g[k] {
    }
  }

  /** One pass of the builder over segment `i` computes the next `BuildNodes`. */
  lemma {:induction false} BuildStep(segs: seq<Segment>, i: nat, nodes: seq<GraphNode>, index: map<Point, nat>,
                                     nodes1: seq<GraphNode>, index1: map<Point, nat>, online: seq<(int, nat)>)
    requires i < |segs| && nodes == BuildNodes(segs, i)
    requires Scanned(segs, i, nodes, index, Offers(segs, i), nodes1, index1, online, |segs|)
    requires Listed(segs, i, index1, online, |segs|)
    ensures Linked(nodes1, SortByKey(online)) == BuildNodes(segs, i + 1)
  {
    SegmentOffersSplit(segs, i, Offers(segs, i));
    assert Offers(segs, i + 1) == Offers(segs, i) + SegmentOffers(segs, i);
    ListedIds(segs, i, nodes1, index1, online);
    GrowMatches(nodes, Offers(segs, i + 1), nodes1, index1);
  }

  /** Entries `m` and `m + 1` of `s` name the two different nodes `x` and `y`. */
  ghost predicate PairAt(s: seq<(int, nat)>, m: nat, x: nat, y: nat)
    requires m + 1 < |s|
  {
    s[m].1 != s[m + 1].1 && ((s[m].1 == x && s[m + 1].1 == y) || (s[m].1 == y && s[m + 1].1 == x))
  }

  /** Nodes `x` and `y` are neighbours along segment `i`: no other point of
      the segment lies between them. */
  ghost predicate Neighbours(segs: seq<Segment>, i: nat, x: nat, y: nat)
    requires i < |segs|
  {
    exists m :: 0 <= m < |SortedEntries(segs, i)| - 1 && PairAt(SortedEntries(segs, i), m, x, y)
  }

  /** `Nbrs` gains `y` for `x` exactly from a pair naming both. */
  lemma {:induction false} NbrsIn(online: seq<(int, nat)>, k: nat, x: nat, y: nat)
    requires k == 0 || k < |online|
    ensures y in Nbrs(online, k, x) <==> exists m :: 0 <= m < k && PairAt(online, m, x, y)
  {
    if k > 0 {
      NbrsIn(online, k - 1, x, y);
      var a, b := online[k - 1].1, online[k].1;
      var more: seq<nat> := if a != b && x == a then [b] else if a != b && x == b then [a] else [];
      assert Nbrs(online, k, x) == Nbrs(online, k - 1, x) + more;
      assert y in more <==> PairAt(online, k - 1, x, y);
    }
  }

  /** Offering more never removes a node. */
  lemma {:induction false} FirstsAppendMono(a: seq<Offer>, b: seq<Offer>)
    ensures |Firsts(a)| <= |Firsts(a + b)|
  {
    if b == [] {
      assert a + b == a;
    } else {
      var b' := b[..|b| - 1];
      FirstsAppendMono(a, b');
      assert (a + b)[..|a + b| - 1] == a + b';
    }
  }

  lemma {:induction false} OffersGrowFirsts(segs: seq<Segment>, i: nat)
    requires i < |segs|
    ensures |Firsts(Offers(segs, i))| <= |Firsts(Offers(segs, i + 1))|
  {
    assert Offers(segs, i + 1) == Offers(segs, i) + SegmentOffers(segs, i);
    FirstsAppendMono(Offers(segs, i), SegmentOffers(segs, i));
  }

  /** A sequence that never decreases from one element to the next never decreases at all. */
  lemma {:induction false} Ascending(c: seq<int>, a: nat, b: nat)
    requires a <= b < |c|
    requires forall i :: 0 <= i < |c| - 1 ==> c[i] <= c[i + 1]
    ensures c[a] <= c[b]
    decreases b - a
  {
    if a != b {
      Ascending(c, a + 1, b);
    }
  }

  /** Processing more segments never removes a node. */
  lemma {:induction false} OffersFirstsMono(segs: seq<Segment>)
    ensures forall a, b :: 0 <= a <= b <= |segs| ==> |Firsts(Offers(segs, a))| <= |Firsts(Offers(segs, b))|
  {
    var counts := seq(|segs| + 1, i requires 0 <= i <= |segs| => |Firsts(Offers(segs, i))|);
    forall i | 0 <= i < |counts| - 1 ensures counts[i] <= counts[i + 1] {
      OffersGrowFirsts(segs, i);
    }
    forall a, b | 0 <= a <= b <= |segs| ensures |Firsts(Offers(segs, a))| <= |Firsts(Offers(segs, b))| {
      Ascending(counts, a, b);
    }
  }

  /** The nodes named on segment `i` exist once segment `i` is added. */
  lemma {:induction false} EntriesBelow(segs: seq<Segment>, i: nat)
    requires i < |segs|
    ensures forall m :: 0 <= m < |SortedEntries(segs, i)| ==> SortedEntries(segs, i)[m].1 < |Firsts(Offers(segs, i + 1))|
  {
    var e := SegmentEntries(segs, i);
    var s := SortedEntries(segs, i);
    var offs := SegmentOffers(segs, i);
    var offers := Offers(segs, i + 1);
    assert offers == Offers(segs, i) + offs;
    forall m | 0 <= m < |s| ensures s[m].1 < |Firsts(offers)| {
      assert s[m] in multiset(s);
      var k :| 0 <= k < |e| && e[k] == s[m];
      assert offers[|Offers(segs, i)| + k] == offs[k];
      FirstsAreOffered(offers, offs[k].0);
    }
  }

  /** A node created after segment `i` is nobody's neighbour on it. */
  lemma {:induction false} LastNotNeighbours(segs: seq<Segment>, i: nat, x: nat, y: nat)
    requires i < |segs| && |Firsts(Offers(segs, i + 1))| <= x
    ensures !Neighbours(segs, i, x, y)
  {
    var s := SortedEntries(segs, i);
    EntriesBelow(segs, i);
    forall m | 0 <= m < |s| - 1 ensures !PairAt(s, m, x, y) {
      assert s[m].1 < x && s[m + 1].1 < x;
    }
  }

  /** A node created after segments `0..n-1` is nobody's neighbour on them. */
  lemma {:induction false} NoNeighboursBeyond(segs: seq<Segment>, n: nat, x: nat, y: nat)
    requires n <= |segs| && |Firsts(Offers(segs, n))| <= x
    ensures forall i :: 0 <= i < n ==> !Neighbours(segs, i, x, y)
  {
    forall i | 0 <= i < n ensures !Neighbours(segs, i, x, y) {
      NotNeighboursOn(segs, i, n, x, y);
    }
  }

  lemma {:induction false} NotNeighboursOn(segs: seq<Segment>, i: nat, n: nat, x: nat, y: nat)
    requires i < n <= |segs| && |Firsts(Offers(segs, n))| <= x
    ensures !Neighbours(segs, i, x, y)
  {
    OffersFirstsMono(segs);
    LastNotNeighbours(segs, i, x, y);
  }

  /** After segments `0..n-1` the adjacency list of node `x` holds `y`
      exactly when `x` and `y` are neighbours along one of those segments:
      each segment is split into edges at every point lying on it, and no
      other edge exists. */
  ghost predicate EdgesAreNeighbours(segs: seq<Segment>, n: nat)
    requires n <= |segs|
  {
    forall x, y :: 0 <= x < |BuildNodes(segs, n)| ==> EdgeIsNeighbour(segs, n, x, y)
  }

  ghost predicate EdgeIsNeighbour(segs: seq<Segment>, n: nat, x: nat, y: nat)
    requires n <= |segs| && x < |BuildNodes(segs, n)|
  {
    y in BuildNodes(segs, n)[x].edges <==> exists i :: 0 <= i < n && Neighbours(segs, i, x, y)
  }

  /** Adding segment `p` appends to node `x` its neighbours along that segment. */
  lemma {:induction false} EdgesAppended(segs: seq<Segment>, p: nat, x: nat)
    requires p < |segs| && x < |BuildNodes(segs, p + 1)|
    ensures BuildNodes(segs, p + 1)[x].edges ==
      (if x < |BuildNodes(segs, p)| then BuildNodes(segs, p)[x].edges else []) +
      Nbrs(SortedEntries(segs, p), LastPair(SortedEntries(segs, p)), x)
  {
    var prev := BuildNodes(segs, p);
    var g := Grow(prev, Offers(segs, p + 1));
    assert g[x].edges == if x < |prev| then prev[x].edges else [];
  }

  lemma {:induction false} NbrsAreNeighbours(segs: seq<Segment>, p: nat, x: nat, y: nat)
    requires p < |segs|
    ensures y in Nbrs(SortedEntries(segs, p), LastPair(SortedEntries(segs, p)), x) <==> Neighbours(segs, p, x, y)
  {
    var s := SortedEntries(segs, p);
    NbrsIn(s, LastPair(s), x, y);
  }

  lemma {:induction false} EdgesStep(segs: seq<Segment>, p: nat, x: nat, y: nat)
    requires p < |segs| && EdgesAreNeighbours(segs, p) && x < |BuildNodes(segs, p + 1)|
    ensures EdgeIsNeighbour(segs, p + 1, x, y)
  {
    EdgesAppended(segs, p, x);
    NbrsAreNeighbours(segs, p, x, y);
    if x < |BuildNodes(segs, p)| {
      assert EdgeIsNeighbour(segs, p, x, y);
    } else {
      NoNeighboursBeyond(segs, p, x, y);
    }
  }

  lemma {:induction false} EdgesGrow(segs: seq<Segment>, p: nat)
    requires p < |segs| && EdgesAreNeighbours(segs, p)
    ensures EdgesAreNeighbours(segs, p + 1)
  {
    var n := p + 1;
    forall x, y | 0 <= x < |BuildNodes(segs, n)| ensures EdgeIsNeighbour(segs, n, x, y) {
      EdgesStep(segs, p, x, y);
    }
  }

  /** Every prefix of the segments yields exactly the neighbour edges. */
  lemma {:induction false} BuildEdges(segs: seq<Segment>, n: nat)
    requires n <= |segs|
    ensures EdgesAreNeighbours(segs, n)
  {
    var p := 0;
    while p < n
      invariant p <= n && EdgesAreNeighbours(segs, p)
    {
      EdgesGrow(segs, p);
      p := p + 1;
    }
  }

  /** In the graph of a wire, `y` is adjacent to `x` exactly when the two
      nodes are consecutive along some segment once the points lying on it
      are sorted by their projection. */
  lemma {:induction false} WireEdgesAreNeighbours(w: Wire, g: WireGraph)
    requires g.nodes == BuildNodes(w.segments, |w.segments|)
    ensures forall x, y :: 0 <= x < |g.nodes| ==>
      (y in g.nodes[x].edges <==> exists i :: 0 <= i < |w.segments| && Neighbours(w.segments, i, x, y))
  {
    var segs := w.segments;
    BuildEdges(segs, |segs|);
    forall x, y | 0 <= x < |g.nodes|
      ensures y in g.nodes[x].edges <==> exists i :: 0 <= i < |segs| && Neighbours(segs, i, x, y)
    {
      assert EdgeIsNeighbour(segs, |segs|, x, y);
    }
  }

  /** What `wireToGraph` promises about the graph of a wire: exactly the
      nodes `BuildNodes` describes, which have the shape `GraphOf` states. */
  ghost predicate BuiltFrom(w: Wire, g: WireGraph) {
    && g.id == w.id
    && g.nodes == BuildNodes(w.segments, |w.segments|)
    && GraphOf(w.segments, g.nodes)
  }

  /** The shape of the graph of a set of segments. */
  ghost predicate GraphOf(segs: seq<Segment>, nodes: seq<GraphNode>) {
    var offers := Offers(segs, |segs|);
    && WellFormed(nodes)
    // nodes in the order their positions were first requested, each with the first reference offered for it
    && |nodes| == |Firsts(offers)|
    && (forall k :: 0 <= k < |nodes| ==>
          nodes[k].pos == Firsts(offers)[k] && nodes[k].ref == FirstRef(offers, nodes[k].pos))
    // one node per endpoint position
    && (forall k :: 0 <= k < |nodes| ==> IsEndpoint(segs, nodes[k].pos))
    && (forall k :: 0 <= k < |segs| ==>
          (exists a :: 0 <= a < |nodes| && nodes[a].pos == segs[k].p0) &&
          (exists b :: 0 <= b < |nodes| && nodes[b].pos == segs[k].p1))
    // every edge runs along a segment
    && Justified(segs, nodes)
    // a segment with nothing inside it is one edge
    && (forall k :: 0 <= k < |segs| && Plain(segs, k) ==>
          exists a, b :: (0 <= a < |nodes| && 0 <= b < |nodes| &&
            nodes[a].pos == segs[k].p0 && nodes[b].pos == segs[k].p1 && b in nodes[a].edges))
  }

  /** The builder's final state has the shape of the graph of the segments. */
  lemma {:induction false} BuiltIsGraphOf(segs: seq<Segment>, nodes: seq<GraphNode>, index: map<Point, nat>)
    requires Built(segs, |segs|, nodes, index)
    ensures GraphOf(segs, nodes)
  {
    BuiltWellFormed(segs, nodes, index);
    NodesAreEndpoints(segs, nodes, index);
    EndpointsAreNodes(segs, nodes, index);
    PlainSegmentsAreEdges(segs, nodes, index);
  }

  /** The nodes built for a wire form a well-formed graph. */
  lemma {:induction false} BuiltWellFormed(segs: seq<Segment>, nodes: seq<GraphNode>, index: map<Point, nat>)
    requires Built(segs, |segs|, nodes, index)
    ensures WellFormed(nodes)
  {
    FirstsDistinct(Offers(segs, |segs|));
  }

  lemma {:induction false} NodesAreEndpoints(segs: seq<Segment>, nodes: seq<GraphNode>, index: map<Point, nat>)
    requires Mirrors(nodes, index, Offers(segs, |segs|))
    ensures forall k :: 0 <= k < |nodes| ==> IsEndpoint(segs, nodes[k].pos)
  {
    var offers := Offers(segs, |segs|);
    OffersAreEndpoints(segs, |segs|);
    forall k | 0 <= k < |nodes| ensures IsEndpoint(segs, nodes[k].pos) {
      FirstsAreOffered(offers, nodes[k].pos);
      var m :| 0 <= m < |offers| && offers[m].0 == nodes[k].pos;
      assert offers[m] in offers;
    }
  }

  lemma {:induction false} EndpointsAreNodes(segs: seq<Segment>, nodes: seq<GraphNode>, index: map<Point, nat>)
    requires Mirrors(nodes, index, Offers(segs, |segs|))
    ensures forall k :: 0 <= k < |segs| ==>
      (exists a :: 0 <= a < |nodes| && nodes[a].pos == segs[k].p0) &&
      (exists b :: 0 <= b < |nodes| && nodes[b].pos == segs[k].p1)
  {
    var offers := Offers(segs, |segs|);
    forall k | 0 <= k < |segs|
      ensures (exists a :: 0 <= a < |nodes| && nodes[a].pos == segs[k].p0)
      ensures (exists b :: 0 <= b < |nodes| && nodes[b].pos == segs[k].p1)
    {
      EndpointsAreOffered(segs, |segs|, k);
      EndpointInIndex(offers, nodes, index, (segs[k].p0, segs[k].comp0Ref));
      EndpointInIndex(offers, nodes, index, (segs[k].p1, segs[k].comp1Ref));
    }
  }

  lemma {:induction false} PlainSegmentsAreEdges(segs: seq<Segment>, nodes: seq<GraphNode>, index: map<Point, nat>)
    requires Mirrors(nodes, index, Offers(segs, |segs|)) && PlainJoined(segs, nodes, index, |segs|)
    ensures forall k :: 0 <= k < |segs| && Plain(segs, k) ==>
      exists a, b :: (0 <= a < |nodes| && 0 <= b < |nodes| &&
        nodes[a].pos == segs[k].p0 && nodes[b].pos == segs[k].p1 && b in nodes[a].edges)
  {
    forall k | 0 <= k < |segs| && Plain(segs, k)
      ensures exists a, b :: (0 <= a < |nodes| && 0 <= b < |nodes| &&
        nodes[a].pos == segs[k].p0 && nodes[b].pos == segs[k].p1 && b in nodes[a].edges)
    {
      assert Joined(nodes, index, segs[k].p0, segs[k].p1);
      var a, b := index[segs[k].p0], index[segs[k].p1];
      assert nodes[a].pos == segs[k].p0 && nodes[b].pos == segs[k].p1 && b in nodes[a].edges;
    }
  }

  lemma {:induction false} EndpointInIndex(offers: seq<Offer>, nodes: seq<GraphNode>, index: map<Point, nat>, o: Offer)
    requires Mirrors(nodes, index, offers) && o in offers
    ensures exists a :: 0 <= a < |nodes| && nodes[a].pos == o.0
  {
    var m :| 0 <= m < |offers| && offers[m] == o;
    FirstsAreOffered(offers, o.0);
    assert nodes[index[o.0]].pos == o.0;
  }

  /** Nothing is built before the first segment. */
  lemma {:induction false} BuiltStart(segs: seq<Segment>)
    ensures Built(segs, 0, [], map[])
  {
    assert Offers(segs, 0) == [];
  }
}
