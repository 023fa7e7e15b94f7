/** Geometry/Box.cs: an axis-aligned bounding box with its union (Combine) operations. */
module Boxes {
  import opened Vectors

  /** float.MaxValue, the largest finite single-precision value, as an exact real. */
  const FloatMax: real := 340282346638528859811704183484516925440.0

  datatype Box = Box(min: Vec3, max: Vec3)

  /** The empty box: +MaxValue minimum and -MaxValue maximum on every axis. */
  const Empty := Box(Splat(FloatMax), Splat(-FloatMax))

  function Center(b: Box): Vec3 {
    Scale(Add(b.min, b.max), 0.5)
  }

  function Size(b: Box): Vec3 {
    Sub(b.max, b.min)
  }

  predicate ContainsPoint(b: Box, p: Vec3) {
    b.min.x <= p.x <= b.max.x && b.min.y <= p.y <= b.max.y && b.min.z <= p.z <= b.max.z
  }

  /** `outer` reaches at least as far as `inner` in every direction. */
  predicate Encloses(outer: Box, inner: Box) {
    && outer.min.x <= inner.min.x && outer.min.y <= inner.min.y && outer.min.z <= inner.min.z
    && inner.max.x <= outer.max.x && inner.max.y <= outer.max.y && inner.max.z <= outer.max.z
  }

  /** Every coordinate of the box is a finite single-precision magnitude. */
  predicate InFloatRange(b: Box) {
    && -FloatMax <= b.min.x <= FloatMax && -FloatMax <= b.min.y <= FloatMax && -FloatMax <= b.min.z <= FloatMax
    && -FloatMax <= b.max.x <= FloatMax && -FloatMax <= b.max.y <= FloatMax && -FloatMax <= b.max.z <= FloatMax
  }

  /** Surface area, with a box that is inverted on any axis counting as area 0. */
  function SurfaceArea(b: Box): (r: real)
    ensures r >= 0.0
    ensures (Size(b).x < 0.0 || Size(b).y < 0.0 || Size(b).z < 0.0) ==> r == 0.0
  {
    var s := Size(b);
    if s.x < 0.0 || s.y < 0.0 || s.z < 0.0 then 0.0
    else
      assert s.x * s.y >= 0.0 && s.x * s.z >= 0.0 && s.y * s.z >= 0.0;
      2.0 * (s.x * s.y + s.x * s.z + s.y * s.z)
  }

  lemma EmptyHasNoArea()
    ensures SurfaceArea(Empty) == 0.0
  {
  }

  /** The axis of largest extent; among equally large extents the LAST axis wins
      (X only when strictly largest, Y over X on a tie, Z over Y on a tie). */
  function MaxExtentAxis(b: Box): (r: Axis)
    ensures forall i: Axis :: At(Size(b), i) <= At(Size(b), r)
    ensures forall i: Axis :: r < i ==> At(Size(b), i) < At(Size(b), r)
  {
    var s := Size(b);
    if s.x > s.y && s.x > s.z then 0
    else if s.y > s.z then 1
    else 2
  }

  /** The relative position of `p` along `axis`, or 0 when the box is flat on that axis. */
  function Offset(b: Box, p: Vec3, axis: Axis): (r: real)
    ensures At(b.max, axis) - At(b.min, axis) <= 0.0 ==> r == 0.0
    ensures At(b.max, axis) - At(b.min, axis) > 0.0 && At(b.min, axis) <= At(p, axis) <= At(b.max, axis)
            ==> 0.0 <= r <= 1.0
  {
    var offset := At(p, axis) - At(b.min, axis);
    var extent := At(b.max, axis) - At(b.min, axis);
    if extent > 0.0 then
      assert offset <= extent ==> offset / extent <= 1.0;
      offset / extent
    else 0.0
  }

  /** Offset does not decrease as the point moves forward along the axis. */
  lemma OffsetMonotone(b: Box, p: Vec3, q: Vec3, axis: Axis)
    requires At(p, axis) <= At(q, axis)
    ensures Offset(b, p, axis) <= Offset(b, q, axis)
  {
    var extent := At(b.max, axis) - At(b.min, axis);
    if extent > 0.0 {
      var dp := At(p, axis) - At(b.min, axis);
      var dq := At(q, axis) - At(b.min, axis);
      assert dq / extent - dp / extent == (dq - dp) / extent;
    }
  }

  /** The union of two boxes: on every axis the smaller minimum and the larger maximum. */
  function Combine(a: Box, b: Box): (r: Box)
    ensures Encloses(r, a) && Encloses(r, b)
  {
    Box(Min(a.min, b.min), Max(a.max, b.max))
  }

  /** The union of a box and a point. */
  function CombinePoint(box: Box, p: Vec3): (r: Box)
    ensures Encloses(r, box) && ContainsPoint(r, p)
  {
    Box(Min(box.min, p), Max(box.max, p))
  }

  /** Combine is the least box enclosing both arguments. */
  lemma CombineIsLeast(a: Box, b: Box, c: Box)
    requires Encloses(c, a) && Encloses(c, b)
    ensures Encloses(c, Combine(a, b))
  {
  }

  /** CombinePoint is the least box enclosing the box and containing the point. */
  lemma CombinePointIsLeast(box: Box, p: Vec3, c: Box)
    requires Encloses(c, box) && ContainsPoint(c, p)
    ensures Encloses(c, CombinePoint(box, p))
  {
  }

  /** Combine is a join-semilattice operation: commutative, associative and idempotent. */
  lemma CombineSemilattice(a: Box, b: Box, c: Box)
    ensures Combine(a, b) == Combine(b, a)
    ensures Combine(Combine(a, b), c) == Combine(a, Combine(b, c))
    ensures Combine(a, a) == a
  {
    MinMaxCommutative(a.min, b.min);
    MinMaxCommutative(a.max, b.max);
    MinMaxAssociative(a.min, b.min, c.min);
    MinMaxAssociative(a.max, b.max, c.max);
    MinMaxIdempotent(a.min);
    MinMaxIdempotent(a.max);
  }

  /** Empty is the identity of Combine on every box with finite single-precision coordinates. */
  lemma EmptyIsIdentity(b: Box)
    requires InFloatRange(b)
    ensures Combine(Empty, b) == b && Combine(b, Empty) == b
  {
  }

  /** A box that is not inverted contains its own center. */
  lemma CenterInside(b: Box)
    requires b.min.x <= b.max.x && b.min.y <= b.max.y && b.min.z <= b.max.z
    ensures ContainsPoint(b, Center(b))
  {
  }

  lemma EnclosesTransitive(a: Box, b: Box, c: Box)
    requires Encloses(a, b) && Encloses(b, c)
    ensures Encloses(a, c)
  {
  }
}
