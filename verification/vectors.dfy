/** Geometry/Vector3.cs: a three-component vector. Single-precision floats are modelled
    as reals, so the operations below are exact. */
module Vectors {
  import opened Wrappers

  datatype Vec3 = Vec3(x: real, y: real, z: real)

  /** The index of an axis: 0 is X, 1 is Y, 2 is Z. */
  type Axis = i: int | 0 <= i < 3

  const Zero := Vec3(0.0, 0.0, 0.0)

  function Splat(s: real): Vec3 {
    Vec3(s, s, s)
  }

  /** The indexer: 0, 1, 2 select X, Y, Z and every other index throws. */
  function Get(v: Vec3, i: int): (r: Result<real>)
    ensures r.Success? <==> 0 <= i < 3
    ensures r.Failure? ==> r.error == IndexOutOfRangeException
  {
    match i
    case 0 => Success(v.x)
    case 1 => Success(v.y)
    case 2 => Success(v.z)
    case _ => Failure(IndexOutOfRangeException)
  }

  /** The indexer on an index known to be an axis. */
  function At(v: Vec3, i: Axis): real {
    Get(v, i).value
  }

  /** Reading the three axes back gives the vector again. */
  lemma IndexerRoundTrip(v: Vec3)
    ensures Vec3(At(v, 0), At(v, 1), At(v, 2)) == v
    ensures Get(v, 0) == Success(v.x) && Get(v, 1) == Success(v.y) && Get(v, 2) == Success(v.z)
  {
  }

  function Add(a: Vec3, b: Vec3): Vec3 {
    Vec3(a.x + b.x, a.y + b.y, a.z + b.z)
  }

  function Sub(a: Vec3, b: Vec3): Vec3 {
    Vec3(a.x - b.x, a.y - b.y, a.z - b.z)
  }

  function Scale(a: Vec3, s: real): Vec3 {
    Vec3(a.x * s, a.y * s, a.z * s)
  }

  function Neg(a: Vec3): Vec3 {
    Vec3(-a.x, -a.y, -a.z)
  }

  function RealMin(a: real, b: real): real {
    if a <= b then a else b
  }

  function RealMax(a: real, b: real): real {
    if a >= b then a else b
  }

  function Abs(a: real): real {
    if a < 0.0 then -a else a
  }

  /** Componentwise minimum: on every axis, the greatest value below both arguments. */
  function Min(a: Vec3, b: Vec3): (r: Vec3)
    ensures forall i: Axis :: At(r, i) <= At(a, i) && At(r, i) <= At(b, i)
    ensures forall i: Axis :: At(r, i) == At(a, i) || At(r, i) == At(b, i)
  {
    Vec3(RealMin(a.x, b.x), RealMin(a.y, b.y), RealMin(a.z, b.z))
  }

  /** Componentwise maximum: on every axis, the least value above both arguments. */
  function Max(a: Vec3, b: Vec3): (r: Vec3)
    ensures forall i: Axis :: At(a, i) <= At(r, i) && At(b, i) <= At(r, i)
    ensures forall i: Axis :: At(r, i) == At(a, i) || At(r, i) == At(b, i)
  {
    Vec3(RealMax(a.x, b.x), RealMax(a.y, b.y), RealMax(a.z, b.z))
  }

  lemma MinMaxCommutative(a: Vec3, b: Vec3)
    ensures Min(a, b) == Min(b, a) && Max(a, b) == Max(b, a)
  {
  }

  lemma MinMaxIdempotent(a: Vec3)
    ensures Min(a, a) == a && Max(a, a) == a
  {
  }

  lemma MinMaxAssociative(a: Vec3, b: Vec3, c: Vec3)
    ensures Min(Min(a, b), c) == Min(a, Min(b, c))
    ensures Max(Max(a, b), c) == Max(a, Max(b, c))
  {
  }

  function Dot(a: Vec3, b: Vec3): real {
    a.x * b.x + a.y * b.y + a.z * b.z
  }

  function LengthSquared(v: Vec3): real {
    Dot(v, v)
  }

  function Cross(a: Vec3, b: Vec3): Vec3 {
    Vec3(a.y * b.z - a.z * b.y, a.z * b.x - a.x * b.z, a.x * b.y - a.y * b.x)
  }

  /** The cross product is anti-commutative, vanishes on equal arguments and is orthogonal to both. */
  lemma CrossLaws(a: Vec3, b: Vec3)
    ensures Cross(a, b) == Neg(Cross(b, a))
    ensures Cross(a, a) == Zero
    ensures Dot(Cross(a, b), a) == 0.0 && Dot(Cross(a, b), b) == 0.0
  {
  }

  /** The internal vector-valued Dot: all three components hold the scalar dot product. */
  function DotSplat(a: Vec3, b: Vec3): (r: Vec3)
    ensures r.x == r.y == r.z == Dot(a, b)
  {
    Vec3(a.x * b.x + a.y * b.y + a.z * b.z,
         a.x * b.x + a.y * b.y + a.z * b.z,
         a.x * b.x + a.y * b.y + a.z * b.z)
  }

  /** `len` is the Euclidean length of `v`. The model has no square root, so callers of
      Normalize pass the length in. */
  predicate IsLengthOf(len: real, v: Vec3) {
    len >= 0.0 && len * len == LengthSquared(v)
  }

  /** Normalize leaves a vector whose length is at most `eps` unchanged, and scales every
      other vector to unit length. */
  function Normalize(v: Vec3, len: real, eps: real): (r: Vec3)
    requires IsLengthOf(len, v) && eps >= 0.0
    ensures len <= eps ==> r == v
    ensures len > eps ==> LengthSquared(r) == 1.0 && Scale(r, len) == v
  {
    if len > eps then
      var inv := 1.0 / len;
      var r := Scale(v, inv);
      assert LengthSquared(r) == LengthSquared(v) * (inv * inv);
      assert len * inv == 1.0;
      assert (len * len) * (inv * inv) == (len * inv) * (len * inv);
      assert Scale(r, len) == v by {
        assert v.x * inv * len == v.x * (len * inv);
        assert v.y * inv * len == v.y * (len * inv);
        assert v.z * inv * len == v.z * (len * inv);
      }
      r
    else
      v
  }
}
