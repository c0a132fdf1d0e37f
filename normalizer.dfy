/** The segment normaliser (fixWire): removes segments lying inside others,
    trims overlapping ends, rebuilds the wire through its graph and drops the
    segments of no length. */
module Normalizer {
  import opened Geometry
  import opened WireGraphs
  import opened BuilderSpec
  import opened Builder
  import opened Serializer

  /** The tolerance of the editor: a segment is kept when its squared length exceeds it. */
  const EPSILON_NUM := 1
  const EPSILON_DEN := 1000

  /** The final filter of fixWire: squared length greater than EPSILON = 1/1000. */
  predicate LongerThanEpsilon(s: Segment) {
    EPSILON_DEN * DistSq(s.p0, s.p1) > EPSILON_NUM
  }

  /** On the integer grid that is exactly "the two ends differ". */
  lemma {:induction false} LongerThanEpsilonIff(s: Segment)
    ensures LongerThanEpsilon(s) <==> s.p0 != s.p1
  {
    var d := Sub(s.p0, s.p1);
    assert d.x * d.x >= 0 && d.y * d.y >= 0;
    if DistSq(s.p0, s.p1) == 0 {
      SumOfSquaresZero(d);
    }
  }

  /** `arr.filter(pred)`, handing back the array itself when nothing is
      dropped (filterImm); as values the two cases coincide. */
  function FilterImm<T(!new)>(arr: seq<T>, pred: T -> bool): (r: seq<T>)
    ensures |r| <= |arr|
    ensures forall x :: x in r <==> x in arr && pred(x)
  {
    if arr == [] then []
    else
      var init := FilterImm(arr[..|arr| - 1], pred);
      var last := arr[|arr| - 1];
      assert forall x :: x in arr <==> x in arr[..|arr| - 1] || x == last;
      if pred(last) then init + [last] else init
  }

  /** When every element passes, filterImm returns the array unchanged. */
  lemma {:induction false} FilterImmAllPass<T(!new)>(arr: seq<T>, pred: T -> bool)
    requires forall x :: x in arr ==> pred(x)
    ensures FilterImm(arr, pred) == arr
  {
    if arr != [] {
      var init := arr[..|arr| - 1];
      assert forall x :: x in init ==> x in arr;
      FilterImmAllPass(init, pred);
      assert arr == init + [arr[|arr| - 1]];
    }
  }

  /** Filtering keeps the order: the result is the passing elements of the
      front followed by those of the back. */
  lemma {:induction false} FilterImmAppend<T(!new)>(a: seq<T>, b: seq<T>, pred: T -> bool)
    ensures FilterImm(a + b, pred) == FilterImm(a, pred) + FilterImm(b, pred)
  {
    if b != [] {
      var init := b[..|b| - 1];
      FilterImmAppend(a, init, pred);
      assert (a + b)[..|a + b| - 1] == a + init;
      assert (a + b)[|a + b| - 1] == b[|b| - 1];
    } else {
      assert a + b == a;
    }
  }

  // ---------------------------------------------------------------------
  // The sweep over pairs of segments

  /** The working copy of the segments and the indices marked for removal. */
  datatype Sweep = Sweep(segs: seq<Segment>, remove: set<nat>)

  /** One pair of the sweep: `seg0` (the segment at `a`, read when its turn
      began) against the segment at `b`. A segment whose both ends lie on
      `seg0` is marked for removal; one whose start lies on `seg0` and that
      holds an end of `seg0` has its start moved to that end. */
  function Compare(st: Sweep, seg0: Segment, a: nat, b: nat): (r: Sweep)
    requires b < |st.segs|
    ensures |r.segs| == |st.segs|
  {
    if a == b then st
    else
      var seg1 := st.segs[b];
      if Attached(seg0, seg1.p0) then
        if Attached(seg0, seg1.p1) then st.(remove := st.remove + {b})
        else if Attached(seg1, seg0.p0) then st.(segs := st.segs[b := seg1.(p0 := seg0.p0)])
        else if Attached(seg1, seg0.p1) then st.(segs := st.segs[b := seg1.(p0 := seg0.p1)])
        else st
      else st
  }

  /** The inner loop for `seg0` over the first `n` segments. */
  function Inner(st: Sweep, seg0: Segment, a: nat, n: nat): (r: Sweep)
    requires n <= |st.segs|
    ensures |r.segs| == |st.segs|
  {
    if n == 0 then st else Compare(Inner(st, seg0, a, n - 1), seg0, a, n - 1)
  }

  /** The outer loop over the first `n` segments as seg0, exactly as written:
      a segment already marked for removal still takes its turn. */
  function SweepAsWritten(segs: seq<Segment>, n: nat): (r: Sweep)
    requires n <= |segs|
    ensures |r.segs| == |segs|
  {
    if n == 0 then Sweep(segs, {})
    else
      var st := SweepAsWritten(segs, n - 1);
      Inner(st, st.segs[n - 1], n - 1, |segs|)
  }

  /** The outer loop with the correction: a segment already marked for
      removal no longer removes or trims the others. */
  function SweepFixed(segs: seq<Segment>, n: nat): (r: Sweep)
    requires n <= |segs|
    ensures |r.segs| == |segs|
  {
    if n == 0 then Sweep(segs, {})
    else
      var st := SweepFixed(segs, n - 1);
      if n - 1 in st.remove then st else Inner(st, st.segs[n - 1], n - 1, |segs|)
  }

  /** The entries whose index is not in the set, in order (the `filter` on an index set). */
  function Without<T>(s: seq<T>, drop: set<nat>): (r: seq<T>)
    ensures |r| <= |s|
  {
    if s == [] then []
    else Without(s[..|s| - 1], drop) + (if |s| - 1 in drop then [] else [s[|s| - 1]])
  }

  /** The pair step never marks seg0's own index. */
  lemma {:induction false} InnerSparesSelf(st: Sweep, seg0: Segment, a: nat, n: nat)
    requires n <= |st.segs| && a !in st.remove
    ensures a !in Inner(st, seg0, a, n).remove
  {
    if n > 0 {
      InnerSparesSelf(st, seg0, a, n - 1);
    }
  }

  /** With the correction, some segment of a non-empty wire survives the
      sweep: the last segment to remove anything is never removed after. */
  lemma {:induction false} SweepFixedKeepsOne(segs: seq<Segment>, n: nat)
    requires 0 < n <= |segs|
    ensures exists j :: 0 <= j < n && j !in SweepFixed(segs, n).remove
  {
    var st := SweepFixed(segs, n - 1);
    if n - 1 in st.remove {
      assert n - 1 > 0;
      SweepFixedKeepsOne(segs, n - 1);
      var j :| 0 <= j < n - 1 && j !in st.remove;
      assert SweepFixed(segs, n) == st;
    } else {
      InnerSparesSelf(st, st.segs[n - 1], n - 1, |segs|);
      assert n - 1 !in SweepFixed(segs, n).remove;
    }
  }

  /** Dropping a set that misses index j leaves something. */
  lemma {:induction false} WithoutNonEmpty(segs: seq<Segment>, remove: set<nat>, j: nat)
    requires j < |segs| && j !in remove
    ensures |Without(segs, remove)| > 0
  {
    if j < |segs| - 1 {
      WithoutNonEmpty(segs[..|segs| - 1], remove, j);
    }
  }

  /** With the correction, a non-empty wire keeps at least one segment
      through the sweep. */
  lemma {:induction false} SweepFixedNonEmpty(segs: seq<Segment>)
    requires segs != []
    ensures var st := SweepFixed(segs, |segs|); Without(st.segs, st.remove) != []
  {
    var st := SweepFixed(segs, |segs|);
    SweepFixedKeepsOne(segs, |segs|);
    var j :| 0 <= j < |segs| && j !in st.remove;
    WithoutNonEmpty(st.segs, st.remove, j);
  }

  /** The sweep only ever moves the start of a segment: every far end and
      every terminal reference stays as it was. */
  lemma {:induction false} InnerKeepsFarEnds(st: Sweep, seg0: Segment, a: nat, n: nat, k: nat)
    requires n <= |st.segs| && k < |st.segs|
    ensures var r := Inner(st, seg0, a, n);
      r.segs[k].p1 == st.segs[k].p1 && r.segs[k].comp0Ref == st.segs[k].comp0Ref && r.segs[k].comp1Ref == st.segs[k].comp1Ref
  {
    if n > 0 {
      InnerKeepsFarEnds(st, seg0, a, n - 1, k);
    }
  }

  lemma {:induction false} SweepFixedKeepsFarEnds(segs: seq<Segment>, n: nat, k: nat)
    requires n <= |segs| && k < |segs|
    ensures var r := SweepFixed(segs, n);
      r.segs[k].p1 == segs[k].p1 && r.segs[k].comp0Ref == segs[k].comp0Ref && r.segs[k].comp1Ref == segs[k].comp1Ref
  {
    if n > 0 {
      SweepFixedKeepsFarEnds(segs, n - 1, k);
      var st := SweepFixed(segs, n - 1);
      if n - 1 !in st.remove {
        InnerKeepsFarEnds(st, st.segs[n - 1], n - 1, |segs|, k);
      }
    }
  }

  /** As written, two copies of one segment remove each other: the wire
      loses that stretch altogether. */
  lemma AsWrittenDropsBothCopies(s: Segment)
    ensures SweepAsWritten([s, s], 2).remove == {0, 1} && Without([s, s], {0, 1}) == []
  {
    EndsAttached(s);
    var st0, st1, st2 := Sweep([s, s], {}), Sweep([s, s], {1}), Sweep([s, s], {0, 1});
    assert Inner(st0, s, 0, 1) == st0;
    assert Compare(st0, s, 0, 1) == st1;
    assert SweepAsWritten([s, s], 1) == st1;
    assert Inner(st1, s, 1, 1) == Compare(st1, s, 1, 0) == st2;
    assert Inner(st1, s, 1, 2) == Compare(st2, s, 1, 1) == st2;
    assert Without([s], {0, 1}) == [];
  }

  /** With the correction, the second copy is removed and the first kept. */
  lemma FixedKeepsOneCopy(s: Segment)
    ensures SweepFixed([s, s], 2).remove == {1} && Without([s, s], {1}) == [s]
  {
    EndsAttached(s);
    var st0, st1 := Sweep([s, s], {}), Sweep([s, s], {1});
    assert Inner(st0, s, 0, 1) == st0;
    assert Compare(st0, s, 0, 1) == st1;
    assert SweepFixed([s, s], 1) == st1;
    assert SweepFixed([s, s], 2) == st1;
    assert Without([s], {1}) == [s];
  }

  /** As written, a segment already marked for removal still trims the
      others: with `a` from (x, y) to (x + 2, y) and `b` from (x + 1, y) back
      to (x, y), `a` marks `b` as contained, then `b` moves the start of `a`
      to (x + 1, y), and the wire loses the stretch from (x, y) to (x + 1, y). */
  lemma AsWrittenTrimsByRemoved(x: int, y: int)
    ensures var a, b := Segment(Point(x, y), Point(x + 2, y), None, None), Segment(Point(x + 1, y), Point(x, y), None, None);
      var a' := Segment(Point(x + 1, y), Point(x + 2, y), None, None);
      SweepAsWritten([a, b], 2) == Sweep([a', b], {1}) && Without([a', b], {1}) == [a']
  {
    var a, b := Segment(Point(x, y), Point(x + 2, y), None, None), Segment(Point(x + 1, y), Point(x, y), None, None);
    AttachedAlongX(a, b.p0, 2, 1);
    EndsAttached(a);
    EndsAttached(b);
    NotAttachedBehind(b, a.p1, 1, 1);
    FirstTurnMarks(a, b);
    SecondTurnTrims(a, b);
    assert Without([a.(p0 := b.p0)], {1}) == [a.(p0 := b.p0)];
  }

  /** With the correction, the removed `b` trims nothing and `a` keeps its
      whole length. */
  lemma FixedKeepsContainer(x: int, y: int)
    ensures var a, b := Segment(Point(x, y), Point(x + 2, y), None, None), Segment(Point(x + 1, y), Point(x, y), None, None);
      SweepFixed([a, b], 2) == Sweep([a, b], {1}) && Without([a, b], {1}) == [a]
  {
    var a, b := Segment(Point(x, y), Point(x + 2, y), None, None), Segment(Point(x + 1, y), Point(x, y), None, None);
    AttachedAlongX(a, b.p0, 2, 1);
    EndsAttached(a);
    FirstTurnMarks(a, b);
    assert Without([a], {1}) == [a];
  }

  /** When `b` lies wholly on `a`, the first turn of either sweep of `[a, b]`
      marks `b` and changes nothing else. */
  lemma {:induction false} FirstTurnMarks(a: Segment, b: Segment)
    requires Attached(a, b.p0) && Attached(a, b.p1)
    ensures SweepAsWritten([a, b], 1) == Sweep([a, b], {1})
    ensures SweepFixed([a, b], 1) == Sweep([a, b], {1})
  {
    var st0 := Sweep([a, b], {});
    assert Inner(st0, a, 0, 1) == st0;
    assert Compare(st0, a, 0, 1) == Sweep([a, b], {1});
  }

  /** The turn of `b` in the sweep as written, marked or not, moves the start
      of `a` to the start of `b` when `a` starts on `b`, does not end on it,
      and holds the start of `b`. */
  lemma {:induction false} SecondTurnTrims(a: Segment, b: Segment)
    requires Attached(b, a.p0) && !Attached(b, a.p1) && Attached(a, b.p0)
    requires SweepAsWritten([a, b], 1) == Sweep([a, b], {1})
    ensures SweepAsWritten([a, b], 2) == Sweep([a.(p0 := b.p0), b], {1})
  {
    var st1, st2 := Sweep([a, b], {1}), Sweep([a.(p0 := b.p0), b], {1});
    assert Inner(st1, b, 1, 1) == Compare(st1, b, 1, 0) == st2;
    assert Inner(st1, b, 1, 2) == Compare(st2, b, 1, 1) == st2;
  }

  /** The sweep of fixWire (its two nested loops, with the correction). */
  method SweepSegments(segs: seq<Segment>) returns (segs': seq<Segment>, remove: set<nat>)
    ensures Sweep(segs', remove) == SweepFixed(segs, |segs|)
  {
    segs' := segs;
    remove := {};
    for a := 0 to |segs|
      invariant Sweep(segs', remove) == SweepFixed(segs, a)
    {
      if a !in remove {
        var seg0 := segs'[a];
        ghost var st0 := Sweep(segs', remove);
        for b := 0 to |segs|
          invariant Sweep(segs', remove) == Inner(st0, seg0, a, b)
        {
          var seg1 := segs'[b];
          if a == b {
            continue;
          }
          if Attached(seg0, seg1.p0) {
            if Attached(seg0, seg1.p1) {
              remove := remove + {b};
            } else if Attached(seg1, seg0.p0) {
              segs' := segs'[b := seg1.(p0 := seg0.p0)];
            } else if Attached(seg1, seg0.p1) {
              segs' := segs'[b := seg1.(p0 := seg0.p1)];
            }
          }
        }
      }
    }
  }

  /** The segments kept by the sweep (`segs.filter` on the removal set). */
  method KeepUnremoved(segs: seq<Segment>, remove: set<nat>) returns (kept: seq<Segment>)
    ensures kept == Without(segs, remove)
  {
    kept := [];
    for i := 0 to |segs|
      invariant kept == Without(segs[..i], remove)
    {
      assert segs[..i + 1][..i] == segs[..i];
      if i !in remove {
        kept := kept + [segs[i]];
      }
    }
    assert segs[..|segs|] == segs;
  }

  /** `w` is `wire` normalised through graph `g`: the swept segments that
      survive are built into `g`, which is drawn back as a wire keeping only
      the segments longer than epsilon. */
  ghost predicate FixedVia(wire: Wire, g: WireGraph, w: Wire) {
    var st := SweepFixed(wire.segments, |wire.segments|);
    && BuiltFrom(Wire(wire.id, Without(st.segs, st.remove)), g)
    && EdgesInRange(g.nodes)
    && w == Wire(wire.id, FilterImm(Serialized(g).segments, LongerThanEpsilon))
  }

  /** `w` is `wire` normalised through some graph. */
  ghost predicate FixedFrom(wire: Wire, w: Wire) {
    exists g :: FixedVia(wire, g, w)
  }

  /** Normalises a wire (fixWire): sweep, rebuild through the graph, and drop
      the segments of no length. */
  method FixWire(wire: Wire) returns (w: Wire, ghost g: WireGraph)
    ensures FixedVia(wire, g, w)
    ensures forall s :: s in w.segments ==> s.p0 != s.p1
  {
    var segs, remove := SweepSegments(wire.segments);
    var newSegs := KeepUnremoved(segs, remove);
    var graph := WireToGraph(Wire(wire.id, newSegs));
    g := graph;
    var rebuilt := GraphToWire(graph);
    w := Wire(rebuilt.id, FilterImm(rebuilt.segments, LongerThanEpsilon));
    forall s | s in w.segments ensures s.p0 != s.p1 {
      LongerThanEpsilonIff(s);
    }
  }
}
