/** Tracing/RaycastExtensions.cs: the ray-box slab test and the Moller-Trumbore ray-triangle
    test, with their arithmetic over reals and every early return kept. */
module Raycast {
  import opened Wrappers
  import opened Vectors
  import opened Boxes
  import opened Primitives

  /** 1e-6f: the threshold of the parallel-ray guards and of the minimum hit distance. */
  const Epsilon: real := 0.000001

  /** The boolean result and the `distance` out-parameter of a TryIntersect overload. */
  datatype TestResult = TestResult(hit: bool, distance: real)

  /** The running entry (tmin) and exit (tmax) parameters of the slab test. */
  datatype Interval = Interval(tmin: real, tmax: real)

  /** One axis of the slab test. None is the early `return false` taken when the ray is
      parallel to this slab and starts outside it. */
  function SlabAxis(o: real, d: real, lo: real, hi: real, acc: Interval): (r: Option<Interval>)
    ensures r.None? <==> Abs(d) < Epsilon && (o < lo || o > hi)
    ensures r.Some? ==> acc.tmin <= r.value.tmin && r.value.tmax <= acc.tmax
    ensures r.Some? && Abs(d) < Epsilon ==> r.value == acc
  {
    if Abs(d) < Epsilon then
      if o < lo || o > hi then None else Some(acc)
    else
      var t1 := (lo - o) / d;
      var t2 := (hi - o) / d;
      var near := if t1 > t2 then t2 else t1;
      var far := if t1 > t2 then t1 else t2;
      Some(Interval(RealMax(acc.tmin, near), RealMin(acc.tmax, far)))
  }

  /** Every parameter left in the narrowed interval of a non-parallel axis puts the ray
      inside that slab. */
  lemma SlabAxisSound(o: real, d: real, lo: real, hi: real, acc: Interval, iv: Interval, t: real)
    requires lo <= hi
    requires SlabAxis(o, d, lo, hi, acc) == Some(iv)
    requires iv.tmin <= t <= iv.tmax
    ensures Abs(d) >= Epsilon ==> lo <= o + d * t <= hi
  {
    if Abs(d) >= Epsilon {
      var t1 := (lo - o) / d;
      var t2 := (hi - o) / d;
      assert t1 * d == lo - o;
      assert t2 * d == hi - o;
      if d > 0.0 {
        assert t1 <= t2 by {
          assert (t2 - t1) * d == hi - lo;
        }
        assert t1 <= t <= t2;
        MulSigns(t - t1, d);
        MulSigns(t2 - t, d);
        assert o + d * t == lo + (t - t1) * d;
        assert o + d * t == hi - (t2 - t) * d;
      } else {
        assert t2 <= t1 by {
          assert (t1 - t2) * d == lo - hi;
        }
        assert t2 <= t <= t1;
        MulSigns(t - t2, d);
        MulSigns(t1 - t, d);
        assert o + d * t == hi + (t - t2) * d;
        assert o + d * t == lo - (t1 - t) * d;
      }
    }
  }

  /** The sign of a product with a non-negative factor follows the other factor. */
  lemma MulSigns(a: real, d: real)
    requires a >= 0.0
    ensures d > 0.0 ==> a * d >= 0.0
    ensures d < 0.0 ==> a * d <= 0.0
  {
  }

  /** The three axes of the slab test in order X, Y, Z, starting from [0, float.MaxValue]. */
  function SlabInterval(ray: Ray, box: Box): (r: Option<Interval>)
    ensures r.Some? ==> 0.0 <= r.value.tmin && r.value.tmax <= FloatMax
  {
    var o := ray.origin;
    var d := ray.direction;
    var ix := SlabAxis(o.x, d.x, box.min.x, box.max.x, Interval(0.0, FloatMax));
    if ix.None? then None
    else
      var iy := SlabAxis(o.y, d.y, box.min.y, box.max.y, ix.value);
      if iy.None? then None
      else SlabAxis(o.z, d.z, box.min.z, box.max.z, iy.value)
  }

  /** TryIntersect(Ray, Box): a hit reports the entry distance, which is never negative;
      every miss reports distance 0. */
  function TryIntersectBox(ray: Ray, box: Box): (r: TestResult)
    ensures r.hit ==> 0.0 <= r.distance <= FloatMax
    ensures !r.hit ==> r.distance == 0.0
    ensures r.hit ==> SlabInterval(ray, box).Some? && r.distance == SlabInterval(ray, box).value.tmin
  {
    var iv := SlabInterval(ray, box);
    if iv.None? then TestResult(false, 0.0)
    else if iv.value.tmin > iv.value.tmax || iv.value.tmax < 0.0 then TestResult(false, 0.0)
    else TestResult(true, if iv.value.tmin < 0.0 then 0.0 else iv.value.tmin)
  }

  /** A ray starting inside the box (boundary included) hits it at distance 0, whatever
      its direction. */
  lemma OriginInsideHitsAtZero(ray: Ray, box: Box)
    requires ContainsPoint(box, ray.origin)
    ensures TryIntersectBox(ray, box) == TestResult(true, 0.0)
  {
    var o := ray.origin;
    var d := ray.direction;
    var acc := Interval(0.0, FloatMax);
    OriginInsideAxis(o.x, d.x, box.min.x, box.max.x, acc);
    var ix := SlabAxis(o.x, d.x, box.min.x, box.max.x, acc).value;
    OriginInsideAxis(o.y, d.y, box.min.y, box.max.y, ix);
    var iy := SlabAxis(o.y, d.y, box.min.y, box.max.y, ix).value;
    OriginInsideAxis(o.z, d.z, box.min.z, box.max.z, iy);
  }

  /** One axis of the previous lemma: an origin inside the slab keeps tmin at 0 and tmax
      non-negative. */
  lemma OriginInsideAxis(o: real, d: real, lo: real, hi: real, acc: Interval)
    requires lo <= o <= hi && acc.tmin == 0.0 && acc.tmax >= 0.0
    ensures SlabAxis(o, d, lo, hi, acc).Some?
    ensures SlabAxis(o, d, lo, hi, acc).value.tmin == 0.0 && SlabAxis(o, d, lo, hi, acc).value.tmax >= 0.0
  {
    if Abs(d) >= Epsilon {
      var t1 := (lo - o) / d;
      var t2 := (hi - o) / d;
      assert t1 * d == lo - o && t2 * d == hi - o;
      if d > 0.0 {
        assert t1 <= 0.0 && t2 >= 0.0;
      } else {
        assert t1 >= 0.0 && t2 <= 0.0;
      }
    }
  }

  /** The converse of SlabAxisSound: a parameter of the incoming interval that puts the ray
      inside the slab survives the axis, provided a ray parallel to the slab already starts
      inside it. */
  lemma SlabAxisComplete(o: real, d: real, lo: real, hi: real, acc: Interval, t: real)
    requires acc.tmin <= t <= acc.tmax
    requires lo <= o + d * t <= hi
    requires Abs(d) < Epsilon ==> lo <= o <= hi
    ensures SlabAxis(o, d, lo, hi, acc).Some?
    ensures SlabAxis(o, d, lo, hi, acc).value.tmin <= t <= SlabAxis(o, d, lo, hi, acc).value.tmax
  {
    if Abs(d) >= Epsilon {
      if d > 0.0 {
        ParameterInSlab(o, d, lo, hi, t);
      } else {
        ParameterInSlabNeg(o, d, lo, hi, t);
      }
    }
  }

  /** A point inside the slab of an axis the ray climbs lies between its two crossings. */
  lemma ParameterInSlab(o: real, d: real, lo: real, hi: real, t: real)
    requires lo <= o + d * t <= hi && d > 0.0
    ensures (lo - o) / d <= t <= (hi - o) / d
  {
    BelowQuotient(lo - o, d, t);
    AboveQuotient(hi - o, d, t);
  }

  /** The same for an axis the ray descends, where the crossings swap. */
  lemma ParameterInSlabNeg(o: real, d: real, lo: real, hi: real, t: real)
    requires lo <= o + d * t <= hi && d < 0.0
    ensures (hi - o) / d <= t <= (lo - o) / d
  {
    assert (-d) * t == -(d * t);
    BelowQuotient(o - hi, -d, t);
    AboveQuotient(o - lo, -d, t);
    assert (o - hi) / -d == (hi - o) / d;
    assert (o - lo) / -d == (lo - o) / d;
  }

  /** Dividing a lower bound of d t by a positive d gives a lower bound of t. */
  lemma BelowQuotient(a: real, d: real, t: real)
    requires d > 0.0 && a <= d * t
    ensures a / d <= t
  {
    var q := a / d;
    assert q * d == a;
    MulStrict(t, q, d);
  }

  /** Dividing an upper bound of d t by a positive d gives an upper bound of t. */
  lemma AboveQuotient(b: real, d: real, t: real)
    requires d > 0.0 && d * t <= b
    ensures t <= b / d
  {
    var q := b / d;
    assert q * d == b;
    MulStrict(q, t, d);
  }

  /** Multiplying by a positive number keeps a strict order. */
  lemma MulStrict(x: real, y: real, d: real)
    requires d > 0.0
    ensures x < y ==> x * d < y * d
  {
  }

  /** A ray that meets the box at a parameter t in [0, float.MaxValue] hits it, at a
      distance no greater than t, unless the ray is parallel (below 1e-6) to a pair of faces
      it starts outside of: the parallel guard rejects those rays outright. */
  lemma TryIntersectBoxComplete(ray: Ray, box: Box, t: real)
    requires 0.0 <= t <= FloatMax
    requires ContainsPoint(box, PointAt(ray, t))
    requires Abs(ray.direction.x) < Epsilon ==> box.min.x <= ray.origin.x <= box.max.x
    requires Abs(ray.direction.y) < Epsilon ==> box.min.y <= ray.origin.y <= box.max.y
    requires Abs(ray.direction.z) < Epsilon ==> box.min.z <= ray.origin.z <= box.max.z
    ensures TryIntersectBox(ray, box).hit && TryIntersectBox(ray, box).distance <= t
  {
    var acc := Interval(0.0, FloatMax);
    var ix := AxisCompleteX(ray, box, acc, t);
    var iy := AxisCompleteY(ray, box, ix, t);
    var iz := AxisCompleteZ(ray, box, iy, t);
    assert SlabInterval(ray, box) == Some(iz);
    HitFromInterval(ray, box, t);
  }

  /** A parameter in [0, float.MaxValue] that survives all three axes makes the test hit
      at a distance no greater than it. */
  lemma HitFromInterval(ray: Ray, box: Box, t: real)
    requires 0.0 <= t
    requires SlabInterval(ray, box).Some?
    requires SlabInterval(ray, box).value.tmin <= t <= SlabInterval(ray, box).value.tmax
    ensures TryIntersectBox(ray, box).hit && TryIntersectBox(ray, box).distance <= t
  {
  }

  /** SlabAxisComplete for the X axis of a ray and a box; returns the narrowed interval. */
  lemma AxisCompleteX(ray: Ray, box: Box, acc: Interval, t: real) returns (ix: Interval)
    requires acc.tmin <= t <= acc.tmax
    requires box.min.x <= PointAt(ray, t).x <= box.max.x
    requires Abs(ray.direction.x) < Epsilon ==> box.min.x <= ray.origin.x <= box.max.x
    ensures SlabAxis(ray.origin.x, ray.direction.x, box.min.x, box.max.x, acc) == Some(ix)
    ensures ix.tmin <= t <= ix.tmax
  {
    SlabAxisComplete(ray.origin.x, ray.direction.x, box.min.x, box.max.x, acc, t);
    ix := SlabAxis(ray.origin.x, ray.direction.x, box.min.x, box.max.x, acc).value;
  }

  /** SlabAxisComplete for the Y axis of a ray and a box; returns the narrowed interval. */
  lemma AxisCompleteY(ray: Ray, box: Box, acc: Interval, t: real) returns (iy: Interval)
    requires acc.tmin <= t <= acc.tmax
    requires box.min.y <= PointAt(ray, t).y <= box.max.y
    requires Abs(ray.direction.y) < Epsilon ==> box.min.y <= ray.origin.y <= box.max.y
    ensures SlabAxis(ray.origin.y, ray.direction.y, box.min.y, box.max.y, acc) == Some(iy)
    ensures iy.tmin <= t <= iy.tmax
  {
    SlabAxisComplete(ray.origin.y, ray.direction.y, box.min.y, box.max.y, acc, t);
    iy := SlabAxis(ray.origin.y, ray.direction.y, box.min.y, box.max.y, acc).value;
  }

  /** SlabAxisComplete for the Z axis of a ray and a box; returns the narrowed interval. */
  lemma AxisCompleteZ(ray: Ray, box: Box, acc: Interval, t: real) returns (iz: Interval)
    requires acc.tmin <= t <= acc.tmax
    requires box.min.z <= PointAt(ray, t).z <= box.max.z
    requires Abs(ray.direction.z) < Epsilon ==> box.min.z <= ray.origin.z <= box.max.z
    ensures SlabAxis(ray.origin.z, ray.direction.z, box.min.z, box.max.z, acc) == Some(iz)
    ensures iz.tmin <= t <= iz.tmax
  {
    SlabAxisComplete(ray.origin.z, ray.direction.z, box.min.z, box.max.z, acc, t);
    iz := SlabAxis(ray.origin.z, ray.direction.z, box.min.z, box.max.z, acc).value;
  }

  /** A ray parallel to a pair of faces and starting outside them never hits the box. */
  lemma ParallelOutsideMisses(ray: Ray, box: Box, axis: Axis)
    requires Abs(At(ray.direction, axis)) < Epsilon
    requires At(ray.origin, axis) < At(box.min, axis) || At(ray.origin, axis) > At(box.max, axis)
    ensures TryIntersectBox(ray, box) == TestResult(false, 0.0)
  {
  }

  /** On a hit, the reported distance lies in the interval each axis narrowed to. */
  lemma HitDistanceInAxisIntervals(ray: Ray, box: Box)
    requires TryIntersectBox(ray, box).hit
    ensures var o := ray.origin;
            var d := ray.direction;
            var t := TryIntersectBox(ray, box).distance;
            var ix := SlabAxis(o.x, d.x, box.min.x, box.max.x, Interval(0.0, FloatMax));
            && ix.Some? && ix.value.tmin <= t <= ix.value.tmax
            && var iy := SlabAxis(o.y, d.y, box.min.y, box.max.y, ix.value);
               && iy.Some? && iy.value.tmin <= t <= iy.value.tmax
               && var iz := SlabAxis(o.z, d.z, box.min.z, box.max.z, iy.value);
                  iz.Some? && iz.value.tmin <= t <= iz.value.tmax
  {
  }

  /** On a hit with a non-inverted box, the point at the reported distance lies inside the
      slab of every axis the ray is not parallel to. */
  lemma BoxHitPointInSlabs(ray: Ray, box: Box)
    requires box.min.x <= box.max.x && box.min.y <= box.max.y && box.min.z <= box.max.z
    requires TryIntersectBox(ray, box).hit
    ensures var p := PointAt(ray, TryIntersectBox(ray, box).distance);
            && (Abs(ray.direction.x) >= Epsilon ==> box.min.x <= p.x <= box.max.x)
            && (Abs(ray.direction.y) >= Epsilon ==> box.min.y <= p.y <= box.max.y)
            && (Abs(ray.direction.z) >= Epsilon ==> box.min.z <= p.z <= box.max.z)
  {
    var o := ray.origin;
    var d := ray.direction;
    HitDistanceInAxisIntervals(ray, box);
    var acc := Interval(0.0, FloatMax);
    var ix := SlabAxis(o.x, d.x, box.min.x, box.max.x, acc).value;
    var iy := SlabAxis(o.y, d.y, box.min.y, box.max.y, ix).value;
    var iz := SlabAxis(o.z, d.z, box.min.z, box.max.z, iy).value;
    var t := TryIntersectBox(ray, box).distance;
    InSlabX(ray, box, acc, ix, t);
    InSlabY(ray, box, ix, iy, t);
    InSlabZ(ray, box, iy, iz, t);
  }

  /** SlabAxisSound for the X axis of a ray and a box. */
  lemma InSlabX(ray: Ray, box: Box, acc: Interval, ix: Interval, t: real)
    requires box.min.x <= box.max.x
    requires SlabAxis(ray.origin.x, ray.direction.x, box.min.x, box.max.x, acc) == Some(ix)
    requires ix.tmin <= t <= ix.tmax
    ensures Abs(ray.direction.x) >= Epsilon ==> box.min.x <= PointAt(ray, t).x <= box.max.x
  {
    SlabAxisSound(ray.origin.x, ray.direction.x, box.min.x, box.max.x, acc, ix, t);
  }

  /** SlabAxisSound for the Y axis of a ray and a box. */
  lemma InSlabY(ray: Ray, box: Box, acc: Interval, iy: Interval, t: real)
    requires box.min.y <= box.max.y
    requires SlabAxis(ray.origin.y, ray.direction.y, box.min.y, box.max.y, acc) == Some(iy)
    requires iy.tmin <= t <= iy.tmax
    ensures Abs(ray.direction.y) >= Epsilon ==> box.min.y <= PointAt(ray, t).y <= box.max.y
  {
    SlabAxisSound(ray.origin.y, ray.direction.y, box.min.y, box.max.y, acc, iy, t);
  }

  /** SlabAxisSound for the Z axis of a ray and a box. */
  lemma InSlabZ(ray: Ray, box: Box, acc: Interval, iz: Interval, t: real)
    requires box.min.z <= box.max.z
    requires SlabAxis(ray.origin.z, ray.direction.z, box.min.z, box.max.z, acc) == Some(iz)
    requires iz.tmin <= t <= iz.tmax
    ensures Abs(ray.direction.z) >= Epsilon ==> box.min.z <= PointAt(ray, t).z <= box.max.z
  {
    SlabAxisSound(ray.origin.z, ray.direction.z, box.min.z, box.max.z, acc, iz, t);
  }

  /** The outcome of Moller-Trumbore: a miss, or the ray parameter and barycentrics. */
  datatype TriangleTest = TriMiss | TriHit(t: real, u: real, v: real)

  /** The threshold-independent quantities of Moller-Trumbore: the determinant
      det = e1 . (d x e2) and, for a non-zero determinant, the barycentrics u = (s . h) / det,
      v = (d . q) / det and the parameter t = (e2 . q) / det, where e1 = B - A, e2 = C - A,
      s = origin - A, h = d x e2 and q = s x e1. A zero determinant always fails the
      parallel test, so the other three are then never read. */
  datatype TriangleTerms = TriangleTerms(det: real, u: real, v: real, t: real)

  function Terms(ray: Ray, tri: Tri): (m: TriangleTerms)
    ensures m.det == Dot(Sub(tri.b, tri.a), Cross(ray.direction, Sub(tri.c, tri.a)))
  {
    var edge1 := Sub(tri.b, tri.a);
    var edge2 := Sub(tri.c, tri.a);
    var h := Cross(ray.direction, edge2);
    var det := Dot(edge1, h);
    if det == 0.0 then TriangleTerms(0.0, 0.0, 0.0, 0.0)
    else
      var f := 1.0 / det;
      var s := Sub(ray.origin, tri.a);
      var q := Cross(s, edge1);
      TriangleTerms(det, f * Dot(s, h), f * Dot(ray.direction, q), f * Dot(edge2, q))
  }

  /** Moller-Trumbore with parallel and distance threshold `eps`: every early return is a
      miss, and a hit has barycentrics inside the triangle and a parameter beyond `eps`. */
  function MollerTrumbore(ray: Ray, tri: Tri, eps: real): (r: TriangleTest)
    requires eps > 0.0
    ensures r.TriHit? ==> 0.0 <= r.u <= 1.0 && r.v >= 0.0 && r.u + r.v <= 1.0 && r.t > eps
    ensures Abs(Dot(Sub(tri.b, tri.a), Cross(ray.direction, Sub(tri.c, tri.a)))) < eps ==> r == TriMiss
  {
    var m := Terms(ray, tri);
    if m.det > -eps && m.det < eps then TriMiss
    else if m.u < 0.0 || m.u > 1.0 then TriMiss
    else if m.v < 0.0 || m.u + m.v > 1.0 then TriMiss
    else if m.t > eps then TriHit(m.t, m.u, m.v)
    else TriMiss
  }

  /** Cramer's rule behind Moller-Trumbore, multiplied through by the determinant, one
      axis at a time: det s == (s . h) e1 + (d . q) e2 - (e2 . q) d with h = d x e2 and
      q = s x e1. */
  lemma CramerX(d: Vec3, e1: Vec3, e2: Vec3, s: Vec3)
    ensures var h, q := Cross(d, e2), Cross(s, e1);
            Dot(e1, h) * s.x == Dot(s, h) * e1.x + Dot(d, q) * e2.x - Dot(e2, q) * d.x
  {
  }

  lemma CramerY(d: Vec3, e1: Vec3, e2: Vec3, s: Vec3)
    ensures var h, q := Cross(d, e2), Cross(s, e1);
            Dot(e1, h) * s.y == Dot(s, h) * e1.y + Dot(d, q) * e2.y - Dot(e2, q) * d.y
  {
  }

  lemma CramerZ(d: Vec3, e1: Vec3, e2: Vec3, s: Vec3)
    ensures var h, q := Cross(d, e2), Cross(s, e1);
            Dot(e1, h) * s.z == Dot(s, h) * e1.z + Dot(d, q) * e2.z - Dot(e2, q) * d.z
  {
  }

  /** A Moller-Trumbore hit lies on the triangle's plane at the reported barycentrics:
      origin + t * direction == A + u * (B - A) + v * (C - A). */
  lemma HitPointOnTriangle(ray: Ray, tri: Tri, eps: real)
    requires eps > 0.0 && MollerTrumbore(ray, tri, eps).TriHit?
    ensures var r := MollerTrumbore(ray, tri, eps);
            PointAt(ray, r.t) == Add(tri.a, Add(Scale(Sub(tri.b, tri.a), r.u), Scale(Sub(tri.c, tri.a), r.v)))
  {
    var m := Terms(ray, tri);
    assert MollerTrumbore(ray, tri, eps) == TriHit(m.t, m.u, m.v);
    TermsOnPlane(ray, tri);
  }

  /** For a non-zero determinant, the point at parameter t is the one at barycentrics
      (u, v). */
  lemma TermsOnPlane(ray: Ray, tri: Tri)
    requires Terms(ray, tri).det != 0.0
    ensures var m := Terms(ray, tri);
            PointAt(ray, m.t) == Add(tri.a, Add(Scale(Sub(tri.b, tri.a), m.u), Scale(Sub(tri.c, tri.a), m.v)))
  {
    var d, e1, e2, s := ray.direction, Sub(tri.b, tri.a), Sub(tri.c, tri.a), Sub(ray.origin, tri.a);
    var h, q := Cross(d, e2), Cross(s, e1);
    var det, su, sv, st := Dot(e1, h), Dot(s, h), Dot(d, q), Dot(e2, q);
    TermsAt(ray, tri, det, su, sv, st);
    CramerSolvedX(d, e1, e2, s);
    CramerSolvedY(d, e1, e2, s);
    CramerSolvedZ(d, e1, e2, s);
    PointFromComponents(ray, tri, su / det, sv / det, st / det);
  }

  /** Cramer's rule divided through by a non-zero determinant, one axis at a time:
      s == u e1 + v e2 - t d with u = (s . h) / det, v = (d . q) / det, t = (e2 . q) / det. */
  lemma CramerSolvedX(d: Vec3, e1: Vec3, e2: Vec3, s: Vec3)
    requires Dot(e1, Cross(d, e2)) != 0.0
    ensures var h, q := Cross(d, e2), Cross(s, e1);
            var det := Dot(e1, h);
            s.x == e1.x * (Dot(s, h) / det) + e2.x * (Dot(d, q) / det) - d.x * (Dot(e2, q) / det)
  {
    var h, q := Cross(d, e2), Cross(s, e1);
    CramerX(d, e1, e2, s);
    CancelDeterminant(Dot(e1, h), s.x, Dot(s, h), Dot(d, q), Dot(e2, q), e1.x, e2.x, d.x);
  }

  lemma CramerSolvedY(d: Vec3, e1: Vec3, e2: Vec3, s: Vec3)
    requires Dot(e1, Cross(d, e2)) != 0.0
    ensures var h, q := Cross(d, e2), Cross(s, e1);
            var det := Dot(e1, h);
            s.y == e1.y * (Dot(s, h) / det) + e2.y * (Dot(d, q) / det) - d.y * (Dot(e2, q) / det)
  {
    var h, q := Cross(d, e2), Cross(s, e1);
    CramerY(d, e1, e2, s);
    CancelDeterminant(Dot(e1, h), s.y, Dot(s, h), Dot(d, q), Dot(e2, q), e1.y, e2.y, d.y);
  }

  lemma CramerSolvedZ(d: Vec3, e1: Vec3, e2: Vec3, s: Vec3)
    requires Dot(e1, Cross(d, e2)) != 0.0
    ensures var h, q := Cross(d, e2), Cross(s, e1);
            var det := Dot(e1, h);
            s.z == e1.z * (Dot(s, h) / det) + e2.z * (Dot(d, q) / det) - d.z * (Dot(e2, q) / det)
  {
    var h, q := Cross(d, e2), Cross(s, e1);
    CramerZ(d, e1, e2, s);
    CancelDeterminant(Dot(e1, h), s.z, Dot(s, h), Dot(d, q), Dot(e2, q), e1.z, e2.z, d.z);
  }

  /** The point equation origin + t d == A + u e1 + v e2, from its three components
      rearranged as origin - A == u e1 + v e2 - t d. */
  lemma PointFromComponents(ray: Ray, tri: Tri, u: real, v: real, t: real)
    requires var d, e1, e2, s := ray.direction, Sub(tri.b, tri.a), Sub(tri.c, tri.a), Sub(ray.origin, tri.a);
             && s.x == e1.x * u + e2.x * v - d.x * t
             && s.y == e1.y * u + e2.y * v - d.y * t
             && s.z == e1.z * u + e2.z * v - d.z * t
    ensures PointAt(ray, t) == Add(tri.a, Add(Scale(Sub(tri.b, tri.a), u), Scale(Sub(tri.c, tri.a), v)))
  {
    var o, d := ray.origin, ray.direction;
    ComponentOnPlane(o.x, tri.a.x, tri.b.x, tri.c.x, d.x, u, v, t);
    ComponentOnPlane(o.y, tri.a.y, tri.b.y, tri.c.y, d.y, u, v, t);
    ComponentOnPlane(o.z, tri.a.z, tri.b.z, tri.c.z, d.z, u, v, t);
  }

  /** One component of PointFromComponents. */
  lemma ComponentOnPlane(o: real, a: real, b: real, c: real, d: real, u: real, v: real, t: real)
    requires o - a == (b - a) * u + (c - a) * v - d * t
    ensures o + d * t == a + ((b - a) * u + (c - a) * v)
  {
  }

  /** Multiplying by the reciprocal is dividing. */
  lemma ReciprocalScale(det: real, x: real)
    requires det != 0.0
    ensures (1.0 / det) * x == x / det
  {
  }

  /** Dividing one component of the Cramer identity by the determinant. */
  lemma CancelDeterminant(det: real, sc: real, su: real, sv: real, st: real, e1c: real, e2c: real, dc: real)
    requires det != 0.0
    requires det * sc == su * e1c + sv * e2c - st * dc
    ensures sc == e1c * (su / det) + e2c * (sv / det) - dc * (st / det)
  {
    calc {
      sc;
      == (det * sc) / det;
      == (su * e1c + sv * e2c - st * dc) / det;
      == e1c * (su / det) + e2c * (sv / det) - dc * (st / det);
    }
  }

  /** TryIntersect(Ray, Triangle): a hit reports the parameter, which exceeds 1e-6; every
      miss reports distance 0. */
  function TryIntersectTriangle(ray: Ray, tri: Tri): (r: TestResult)
    ensures r.hit ==> r.distance > Epsilon
    ensures !r.hit ==> r.distance == 0.0
    ensures r.hit <==> MollerTrumbore(ray, tri, Epsilon).TriHit?
  {
    match MollerTrumbore(ray, tri, Epsilon)
    case TriHit(t, _, _) => TestResult(true, t)
    case TriMiss => TestResult(false, 0.0)
  }

  /** Lowering the threshold keeps every hit: the determinant still clears it, the
      barycentric tests do not depend on it, and the parameter still lies beyond it. */
  lemma SmallerEpsilonKeepsHit(ray: Ray, tri: Tri, big: real, small: real)
    requires 0.0 < small <= big
    ensures MollerTrumbore(ray, tri, big).TriHit? ==> MollerTrumbore(ray, tri, small) == MollerTrumbore(ray, tri, big)
  {
    if MollerTrumbore(ray, tri, big).TriHit? {
      var m := Terms(ray, tri);
      assert !(m.det > -big && m.det < big);
      assert !(m.det > -small && m.det < small);
    }
  }

  /** The unit right triangle in the z = 0 plane, hit straight on from below. */
  lemma MollerTrumboreHitExample()
    ensures MollerTrumbore(Ray(Vec3(0.25, 0.25, -1.0), Vec3(0.0, 0.0, 1.0)),
                           Tri(Zero, Vec3(1.0, 0.0, 0.0), Vec3(0.0, 1.0, 0.0)), Epsilon)
            == TriHit(1.0, 0.25, 0.25)
  {
    HitExampleTerms();
  }

  /** The quantities behind MollerTrumboreHitExample: det = -1, u = v = 1/4, t = 1. */
  lemma HitExampleTerms()
    ensures Terms(Ray(Vec3(0.25, 0.25, -1.0), Vec3(0.0, 0.0, 1.0)),
                  Tri(Zero, Vec3(1.0, 0.0, 0.0), Vec3(0.0, 1.0, 0.0)))
            == TriangleTerms(-1.0, 0.25, 0.25, 1.0)
  {
    var ray := Ray(Vec3(0.25, 0.25, -1.0), Vec3(0.0, 0.0, 1.0));
    var tri := Tri(Zero, Vec3(1.0, 0.0, 0.0), Vec3(0.0, 1.0, 0.0));
    var e1 := Vec3(1.0, 0.0, 0.0);
    var e2 := Vec3(0.0, 1.0, 0.0);
    var h := Vec3(-1.0, 0.0, 0.0);
    var q := Vec3(0.0, -1.0, -0.25);
    assert Sub(tri.b, tri.a) == e1 && Sub(tri.c, tri.a) == e2;
    assert Sub(ray.origin, tri.a) == ray.origin;
    assert Cross(ray.direction, e2) == h && Cross(ray.origin, e1) == q;
    TermsAt(ray, tri, -1.0, Dot(ray.origin, h), Dot(ray.direction, q), Dot(e2, q));
  }

  /** Terms once the determinant and the three dot products are known. */
  lemma TermsAt(ray: Ray, tri: Tri, det: real, su: real, sv: real, st: real)
    requires det != 0.0
    requires var e1 := Sub(tri.b, tri.a);
             var e2 := Sub(tri.c, tri.a);
             var s := Sub(ray.origin, tri.a);
             var h := Cross(ray.direction, e2);
             var q := Cross(s, e1);
             det == Dot(e1, h) && su == Dot(s, h) && sv == Dot(ray.direction, q) && st == Dot(e2, q)
    ensures Terms(ray, tri) == TriangleTerms(det, su / det, sv / det, st / det)
  {
    ReciprocalScale(det, su);
    ReciprocalScale(det, sv);
    ReciprocalScale(det, st);
  }

  /** The converse of HitPointOnTriangle: a ray that meets the triangle at barycentrics
      (u, v) inside it, at a parameter beyond `eps`, with a determinant clearing the parallel
      test, is hit there, and Moller-Trumbore reports exactly that parameter and those
      barycentrics. */
  lemma MollerTrumboreComplete(ray: Ray, tri: Tri, eps: real, u: real, v: real, t: real)
    requires eps > 0.0
    requires Abs(Dot(Sub(tri.b, tri.a), Cross(ray.direction, Sub(tri.c, tri.a)))) >= eps
    requires 0.0 <= u && 0.0 <= v && u + v <= 1.0 && t > eps
    requires PointAt(ray, t) == Add(tri.a, Add(Scale(Sub(tri.b, tri.a), u), Scale(Sub(tri.c, tri.a), v)))
    ensures MollerTrumbore(ray, tri, eps) == TriHit(t, u, v)
  {
    var d, e1, e2, s := ray.direction, Sub(tri.b, tri.a), Sub(tri.c, tri.a), Sub(ray.origin, tri.a);
    var h, q := Cross(d, e2), Cross(s, e1);
    var det := Dot(e1, h);
    OriginOnPlane(ray, tri, u, v, t);
    TripleU(e1, e2, d, u, v, t);
    TripleV(e1, e2, d, u, v, t);
    TripleT(e1, e2, d, u, v, t);
    TermsAt(ray, tri, det, u * det, v * det, t * det);
    CancelFactor(u, det);
    CancelFactor(v, det);
    CancelFactor(t, det);
  }

  /** The point equation of a ray meeting the triangle, rearranged as
      origin - A == u e1 + v e2 - t d. */
  lemma OriginOnPlane(ray: Ray, tri: Tri, u: real, v: real, t: real)
    requires PointAt(ray, t) == Add(tri.a, Add(Scale(Sub(tri.b, tri.a), u), Scale(Sub(tri.c, tri.a), v)))
    ensures Sub(ray.origin, tri.a)
         == Sub(Add(Scale(Sub(tri.b, tri.a), u), Scale(Sub(tri.c, tri.a), v)), Scale(ray.direction, t))
  {
  }

  /** (s . h) == u det for s == u e1 + v e2 - t d, since e2 and d are orthogonal to h. */
  lemma TripleU(e1: Vec3, e2: Vec3, d: Vec3, u: real, v: real, t: real)
    ensures Dot(Sub(Add(Scale(e1, u), Scale(e2, v)), Scale(d, t)), Cross(d, e2)) == u * Dot(e1, Cross(d, e2))
  {
  }

  /** (d . q) == v det for q == s x e1. */
  lemma TripleV(e1: Vec3, e2: Vec3, d: Vec3, u: real, v: real, t: real)
    ensures Dot(d, Cross(Sub(Add(Scale(e1, u), Scale(e2, v)), Scale(d, t)), e1)) == v * Dot(e1, Cross(d, e2))
  {
    CrossCombination(e1, e2, d, u, v, t);
    DotDifference(d, Cross(e2, e1), Cross(d, e1), v, t);
    TripleRotate(e1, e2, d);
    CrossOrthogonal(d, e1);
  }

  /** (e2 . q) == t det for q == s x e1. */
  lemma TripleT(e1: Vec3, e2: Vec3, d: Vec3, u: real, v: real, t: real)
    ensures Dot(e2, Cross(Sub(Add(Scale(e1, u), Scale(e2, v)), Scale(d, t)), e1)) == t * Dot(e1, Cross(d, e2))
  {
    CrossCombination(e1, e2, d, u, v, t);
    DotDifference(e2, Cross(e2, e1), Cross(d, e1), v, t);
    TripleSwap(e1, e2, d);
    CrossOrthogonal(e2, e1);
  }

  /** Crossing u e1 + v e2 - t d with e1 drops the e1 term: v (e2 x e1) - t (d x e1). */
  lemma CrossCombination(e1: Vec3, e2: Vec3, d: Vec3, u: real, v: real, t: real)
    ensures Cross(Sub(Add(Scale(e1, u), Scale(e2, v)), Scale(d, t)), e1)
         == Sub(Scale(Cross(e2, e1), v), Scale(Cross(d, e1), t))
  {
    var c := Cross(Sub(Add(Scale(e1, u), Scale(e2, v)), Scale(d, t)), e1);
    var w := Sub(Scale(Cross(e2, e1), v), Scale(Cross(d, e1), t));
    CrossCombinationX(e1, e2, d, u, v, t);
    CrossCombinationY(e1, e2, d, u, v, t);
    CrossCombinationZ(e1, e2, d, u, v, t);
    assert c == Vec3(w.x, w.y, w.z);
  }

  lemma CrossCombinationX(e1: Vec3, e2: Vec3, d: Vec3, u: real, v: real, t: real)
    ensures Cross(Sub(Add(Scale(e1, u), Scale(e2, v)), Scale(d, t)), e1).x
         == Sub(Scale(Cross(e2, e1), v), Scale(Cross(d, e1), t)).x
  {
    var k, a, b := Sub(Add(Scale(e1, u), Scale(e2, v)), Scale(d, t)), Cross(e2, e1), Cross(d, e1);
    CrossComponent(e1.y, e1.z, e2.y, e2.z, d.y, d.z, u, v, t, k.y, k.z, a.x, b.x);
  }

  lemma CrossCombinationY(e1: Vec3, e2: Vec3, d: Vec3, u: real, v: real, t: real)
    ensures Cross(Sub(Add(Scale(e1, u), Scale(e2, v)), Scale(d, t)), e1).y
         == Sub(Scale(Cross(e2, e1), v), Scale(Cross(d, e1), t)).y
  {
    var k, a, b := Sub(Add(Scale(e1, u), Scale(e2, v)), Scale(d, t)), Cross(e2, e1), Cross(d, e1);
    CrossComponent(e1.z, e1.x, e2.z, e2.x, d.z, d.x, u, v, t, k.z, k.x, a.y, b.y);
  }

  lemma CrossCombinationZ(e1: Vec3, e2: Vec3, d: Vec3, u: real, v: real, t: real)
    ensures Cross(Sub(Add(Scale(e1, u), Scale(e2, v)), Scale(d, t)), e1).z
         == Sub(Scale(Cross(e2, e1), v), Scale(Cross(d, e1), t)).z
  {
    var k, a, b := Sub(Add(Scale(e1, u), Scale(e2, v)), Scale(d, t)), Cross(e2, e1), Cross(d, e1);
    CrossComponent(e1.x, e1.y, e2.x, e2.y, d.x, d.y, u, v, t, k.x, k.y, a.z, b.z);
  }

  /** One component of CrossCombination. */
  lemma CrossComponent(a1: real, a2: real, b1: real, b2: real, c1: real, c2: real,
                       u: real, v: real, t: real, k1: real, k2: real, p: real, r: real)
    requires k1 == a1 * u + b1 * v - c1 * t && k2 == a2 * u + b2 * v - c2 * t
    requires p == b1 * a2 - b2 * a1 && r == c1 * a2 - c2 * a1
    ensures k1 * a2 - k2 * a1 == p * v - r * t
  {
  }

  /** The dot product is linear in its second argument. */
  lemma DotDifference(w: Vec3, a: Vec3, b: Vec3, v: real, t: real)
    ensures Dot(w, Sub(Scale(a, v), Scale(b, t))) == v * Dot(w, a) - t * Dot(w, b)
  {
  }

  /** The triple product is invariant under rotating its three vectors. */
  lemma TripleRotate(a: Vec3, b: Vec3, c: Vec3)
    ensures Dot(c, Cross(b, a)) == Dot(a, Cross(c, b))
  {
  }

  /** Swapping the outer vector with one inside the cross product flips the sign. */
  lemma TripleSwap(e1: Vec3, e2: Vec3, d: Vec3)
    ensures Dot(e2, Cross(d, e1)) == -Dot(e1, Cross(d, e2))
  {
  }

  /** A vector is orthogonal to its cross product with any other. */
  lemma CrossOrthogonal(a: Vec3, b: Vec3)
    ensures Dot(a, Cross(a, b)) == 0.0
  {
  }

  /** Dividing a multiple of a non-zero number by it. */
  lemma CancelFactor(x: real, det: real)
    requires det != 0.0
    ensures (x * det) / det == x
  {
  }

  /** The same triangle, missed by a ray passing beside it. */
  lemma MollerTrumboreMissExample()
    ensures MollerTrumbore(Ray(Vec3(2.0, 2.0, -1.0), Vec3(0.0, 0.0, 1.0)),
                           Tri(Zero, Vec3(1.0, 0.0, 0.0), Vec3(0.0, 1.0, 0.0)), Epsilon)
            == TriMiss
  {
    var d := Vec3(0.0, 0.0, 1.0);
    var e1 := Vec3(1.0, 0.0, 0.0);
    var e2 := Vec3(0.0, 1.0, 0.0);
    var s := Vec3(2.0, 2.0, -1.0);
    assert Sub(Vec3(1.0, 0.0, 0.0), Zero) == e1;
    assert Sub(Vec3(0.0, 1.0, 0.0), Zero) == e2;
    assert Sub(s, Zero) == s;
    assert Cross(d, e2) == Vec3(-1.0, 0.0, 0.0);
    assert Dot(e1, Vec3(-1.0, 0.0, 0.0)) == -1.0;
    assert Dot(s, Vec3(-1.0, 0.0, 0.0)) == -2.0;
  }
}
