/** Integer plane geometry of the wire editor: points, terminal references,
    segments and wires, and the exact attachment tests.

    Every interactive edit snaps positions to the integer grid, so points have
    integer coordinates here. The epsilon tests of the editor become exact
    ones: a point is attached to a segment when it lies on the closed segment,
    inner-attached when it lies strictly between the endpoints. */
module Geometry {

  datatype Option<+T> = None | Some(value: T)

  datatype Point = Point(x: int, y: int)

  const Origin := Point(0, 0)

  function Add(a: Point, b: Point): Point { Point(a.x + b.x, a.y + b.y) }

  function Sub(a: Point, b: Point): Point { Point(a.x - b.x, a.y - b.y) }

  function Dot(a: Point, b: Point): int { a.x * b.x + a.y * b.y }

  function Cross(a: Point, b: Point): int { a.x * b.y - a.y * b.x }

  function DistSq(a: Point, b: Point): int { Dot(Sub(a, b), Sub(a, b)) }

  /** Rounding to the grid; every position in this model is already on it. */
  function SnapToGrid(p: Point): Point { p }

  /** What a reference points at; only component terminals matter here. */
  datatype RefType = CompNode | OtherRef

  /** A reference to a component's terminal (component id, terminal id). */
  datatype ElRef = ElRef(kind: RefType, id: string, compNodeId: string)

  /** A straight piece of wire; each end may be bound to a terminal. */
  datatype Segment = Segment(p0: Point, p1: Point, comp0Ref: Option<ElRef>, comp1Ref: Option<ElRef>)

  datatype Wire = Wire(id: string, segments: seq<Segment>)

  /** Integer projection of `pt` on the segment's direction: `t * |p1 - p0|^2`.
      It orders the points of one segment exactly as the parameter `t` does. */
  function Proj(seg: Segment, pt: Point): int {
    Dot(Sub(pt, seg.p0), Sub(seg.p1, seg.p0))
  }

  /** `pt` lies on the closed segment (segAttachedTo). A zero-length segment
      holds only its own position. */
  predicate Attached(seg: Segment, pt: Point) {
    var d := Sub(seg.p1, seg.p0);
    if d == Origin then pt == seg.p0
    else Cross(d, Sub(pt, seg.p0)) == 0 && 0 <= Proj(seg, pt) <= Dot(d, d)
  }

  /** `pt` lies on the segment strictly between its endpoints (segAttachedToInner). */
  predicate AttachedInner(seg: Segment, pt: Point) {
    Attached(seg, pt) && 0 < Proj(seg, pt) < Proj(seg, seg.p1)
  }

  /** Some endpoint of either segment lies on the other (segsTouching). */
  predicate SegsTouching(seg1: Segment, seg2: Segment) {
    Attached(seg1, seg2.p0) || Attached(seg1, seg2.p1) || Attached(seg2, seg1.p0) || Attached(seg2, seg1.p1)
  }

  /** The two directions are parallel or anti-parallel and neither is zero. */
  predicate Parallel(u: Point, v: Point) {
    u != Origin && v != Origin && Cross(u, v) == 0
  }

  /** Position `p` is an endpoint of one of the segments. */
  ghost predicate IsEndpoint(segs: seq<Segment>, p: Point) {
    exists k :: 0 <= k < |segs| && (segs[k].p0 == p || segs[k].p1 == p)
  }

  /** A segment holds both of its endpoints. */
  lemma {:induction false} EndsAttached(seg: Segment)
    ensures Attached(seg, seg.p0) && Attached(seg, seg.p1)
  {
    var d := Sub(seg.p1, seg.p0);
    var z := Sub(seg.p0, seg.p0);
    assert z == Origin;
    assert Cross(d, z) == 0 && Proj(seg, seg.p0) == 0;
    assert d.x * d.y == d.y * d.x;
    assert Cross(d, d) == 0;
    assert d.x * d.x >= 0 && d.y * d.y >= 0;
    assert Proj(seg, seg.p1) == Dot(d, d) >= 0;
  }

  /** A point `off` units along a segment that runs `len` units in the x
      direction lies on it. */
  lemma AttachedAlongX(seg: Segment, pt: Point, len: int, off: int)
    requires 0 <= off <= len && 0 < len
    requires seg.p1 == Point(seg.p0.x + len, seg.p0.y) && pt == Point(seg.p0.x + off, seg.p0.y)
    ensures Attached(seg, pt)
  {
    assert Sub(seg.p1, seg.p0) == Point(len, 0);
    assert Sub(pt, seg.p0) == Point(off, 0);
    assert Proj(seg, pt) == off * len;
    assert Dot(Point(len, 0), Point(len, 0)) == len * len;
  }

  /** A point `off` units behind the start of a segment that runs `len`
      units in the negative x direction does not lie on it. */
  lemma NotAttachedBehind(seg: Segment, pt: Point, len: int, off: int)
    requires 0 < off && 0 < len
    requires seg.p1 == Point(seg.p0.x - len, seg.p0.y) && pt == Point(seg.p0.x + off, seg.p0.y)
    ensures !Attached(seg, pt)
  {
    assert Sub(seg.p1, seg.p0) == Point(-len, 0);
    assert Sub(pt, seg.p0) == Point(off, 0);
    assert Proj(seg, pt) == -(off * len);
  }

  /** The far end of a segment of non-zero length lies ahead of its start. */
  lemma {:induction false} FarEndAhead(seg: Segment)
    requires seg.p0 != seg.p1
    ensures Proj(seg, seg.p1) > 0
  {
    var d := Sub(seg.p1, seg.p0);
    assert Proj(seg, seg.p1) == Dot(d, d);
    assert d.x * d.x >= 0 && d.y * d.y >= 0;
    if Dot(d, d) == 0 {
      SumOfSquaresZero(d);
    }
  }

  lemma {:induction false} SumOfSquaresZero(v: Point)
    requires Dot(v, v) == 0
    ensures v == Origin
  {
    assert v.x * v.x >= 0 && v.y * v.y >= 0;
  }

  /** |v|^2 |d|^2 = (v.d)^2 + (d x v)^2 */
  lemma {:induction false} Lagrange(v: Point, d: Point)
    ensures Dot(v, v) * Dot(d, d) == Dot(v, d) * Dot(v, d) + Cross(d, v) * Cross(d, v)
  {
    var a, b, c, e := v.x, v.y, d.x, d.y;
    calc {
      Dot(v, v) * Dot(d, d);
      (a * a + b * b) * (c * c + e * e);
      a * a * c * c + a * a * e * e + b * b * c * c + b * b * e * e;
      (a * c + b * e) * (a * c + b * e) + (c * b - e * a) * (c * b - e * a);
    }
  }

  /** A vector orthogonal and parallel to a non-zero direction is zero. */
  lemma {:induction false} OrthogonalAndParallel(v: Point, d: Point)
    requires d != Origin && Dot(v, d) == 0 && Cross(d, v) == 0
    ensures v == Origin
  {
    Lagrange(v, d);
    if Dot(d, d) == 0 {
      SumOfSquaresZero(d);
    }
    assert Dot(d, d) > 0 by {
      assert d.x * d.x >= 0 && d.y * d.y >= 0;
    }
    assert Dot(v, v) * Dot(d, d) == 0;
    assert Dot(v, v) == 0;
    SumOfSquaresZero(v);
  }

  /** Inner attachment is attachment at a point other than the two endpoints. */
  lemma {:induction false} AttachedInnerIff(seg: Segment, pt: Point)
    ensures AttachedInner(seg, pt) <==> Attached(seg, pt) && pt != seg.p0 && pt != seg.p1
  {
    var d := Sub(seg.p1, seg.p0);
    var v := Sub(pt, seg.p0);
    assert Proj(seg, seg.p1) == Dot(d, d);
    if Attached(seg, pt) && pt != seg.p0 && pt != seg.p1 {
      assert d != Origin;
      if Proj(seg, pt) == 0 {
        OrthogonalAndParallel(v, d);
        assert false;
      }
      if Proj(seg, pt) == Dot(d, d) {
        var w := Sub(pt, seg.p1);
        assert Dot(w, d) == Dot(v, d) - Dot(d, d);
        assert Cross(d, w) == Cross(d, v) - Cross(d, d);
        OrthogonalAndParallel(w, d);
        assert false;
      }
    }
  }

  /** For a horizontal segment, attachment is the usual "same row, x between the ends". */
  lemma {:induction false} AttachedHorizontal(seg: Segment, pt: Point)
    requires seg.p0.y == seg.p1.y && seg.p0.x != seg.p1.x
    ensures Attached(seg, pt) <==>
      pt.y == seg.p0.y && (seg.p0.x <= pt.x <= seg.p1.x || seg.p1.x <= pt.x <= seg.p0.x)
  {
    var dx, vx, vy := seg.p1.x - seg.p0.x, pt.x - seg.p0.x, pt.y - seg.p0.y;
    assert Cross(Sub(seg.p1, seg.p0), Sub(pt, seg.p0)) == dx * vy;
    assert Proj(seg, pt) == vx * dx;
    assert Dot(Sub(seg.p1, seg.p0), Sub(seg.p1, seg.p0)) == dx * dx;
    MulSigns(dx, vy, vx);
  }

  /** For a vertical segment, attachment is "same column, y between the ends". */
  lemma {:induction false} AttachedVertical(seg: Segment, pt: Point)
    requires seg.p0.x == seg.p1.x && seg.p0.y != seg.p1.y
    ensures Attached(seg, pt) <==>
      pt.x == seg.p0.x && (seg.p0.y <= pt.y <= seg.p1.y || seg.p1.y <= pt.y <= seg.p0.y)
  {
    var dy, vx, vy := seg.p1.y - seg.p0.y, pt.x - seg.p0.x, pt.y - seg.p0.y;
    assert Cross(Sub(seg.p1, seg.p0), Sub(pt, seg.p0)) == -(dy * vx);
    assert Proj(seg, pt) == vy * dy;
    assert Dot(Sub(seg.p1, seg.p0), Sub(seg.p1, seg.p0)) == dy * dy;
    MulSigns(dy, vx, vy);
  }

  lemma {:induction false} MulSigns(d: int, u: int, w: int)
    requires d != 0
    ensures d * u == 0 <==> u == 0
    ensures 0 <= w * d <= d * d <==> (0 <= w <= d || d <= w <= 0)
  {
    if d > 0 {
      MulStrict(w, 0, d);
      MulStrict(0, w, d);
      MulStrict(w, d, d);
      MulStrict(d, w, d);
    } else {
      MulStrict(0, w, -d);
      MulStrict(w, 0, -d);
      MulStrict(w, d, -d);
      MulStrict(d, w, -d);
    }
  }

  /** Multiplying by a positive number keeps a strict order. */
  lemma {:induction false} MulStrict(a: int, b: int, d: int)
    requires d > 0
    ensures a < b ==> a * d < b * d
    ensures a * (-d) == -(a * d)
  {
    if a < b {
      assert b * d - a * d == (b - a) * d;
    }
  }
}
