/** The quad helpers of MathLibrary/Geometry/SceneFactory.cs: a quad is two scene
    triangles sharing the diagonal p0-p2, built either from its four corners or from a
    center, a size (or width and height), a normal and an optional right vector.
    MathLibrary's Vector3.Normalize (MathLibrary/Geometry/Vector3.cs:29-33) scales a vector
    longer than epsilon by the reciprocal of its length and returns a shorter one unchanged,
    that is, scaled by 1 (`NormalizeScales`); the model takes that factor as a function
    `invLength`, so a normalized vector is the input scaled. */
module SceneFactory {
  import opened Vectors
  import opened Primitives

  /** `Vector3.Normalize(v)`: v scaled by the factor the guarded normalization picks for it. */
  function Normalized(v: Vec3, invLength: Vec3 -> real): Vec3 {
    Scale(v, invLength(v))
  }

  /** The factor Vector3.Normalize scales by: the reciprocal length above `eps`, else 1. */
  function NormalizeFactor(len: real, eps: real): real
    requires eps >= 0.0
  {
    if len > eps then 1.0 / len else 1.0
  }

  /** The guarded Normalize is a scaling, so `Normalized` covers it with
      `invLength(v) == NormalizeFactor(|v|, eps)`. */
  lemma NormalizeScales(v: Vec3, len: real, eps: real)
    requires IsLengthOf(len, v) && eps >= 0.0
    ensures Normalize(v, len, eps) == Scale(v, NormalizeFactor(len, eps))
  {
  }

  const UnitX := Vec3(1.0, 0.0, 0.0)
  const UnitY := Vec3(0.0, 1.0, 0.0)

  /** A normal whose |Y| exceeds this is treated as vertical. */
  const VerticalThreshold: real := 0.999

  /** CreateQuad(p0, p1, p2, p3, material): the triangles (p0, p1, p2) and (p0, p2, p3). */
  function QuadFromCorners(p0: Vec3, p1: Vec3, p2: Vec3, p3: Vec3, material: Material): (r: seq<SceneObject>)
    ensures |r| == 2
    ensures forall k :: 0 <= k < 2 ==> r[k].Triangle? && r[k].material == material
  {
    [Triangle(p0, p1, p2, material), Triangle(p0, p2, p3, material)]
  }

  /** The two triangles share the diagonal p0-p2, and between them use each corner. */
  lemma QuadSharesDiagonal(p0: Vec3, p1: Vec3, p2: Vec3, p3: Vec3, material: Material)
    ensures var r := QuadFromCorners(p0, p1, p2, p3, material);
      && r[0].v0 == p0 && r[1].v0 == p0 && r[0].v2 == p2 && r[1].v1 == p2
      && r[0].v1 == p1 && r[1].v2 == p3
  {
  }

  /** The normal the center-based overloads work with: `default` (the zero vector) becomes
      (0, 1, 0), any other normal is normalized. */
  function QuadNormal(normal: Vec3, invLength: Vec3 -> real): (r: Vec3)
    ensures normal == Zero ==> r == UnitY
    ensures normal != Zero ==> r == Scale(normal, invLength(normal))
  {
    if normal == Zero then UnitY else Normalized(normal, invLength)
  }

  /** The right vector chosen from the normal alone: (1, 0, 0) for a near-vertical normal,
      otherwise the normalized cross product of the normal with the Y axis. */
  function DefaultRight(n: Vec3, invLength: Vec3 -> real): Vec3 {
    if Abs(n.y) > VerticalThreshold then UnitX else Normalized(Cross(n, UnitY), invLength)
  }

  datatype Corners4 = Corners4(p0: Vec3, p1: Vec3, p2: Vec3, p3: Vec3)

  /** The four corners center -/+ right * halfWidth -/+ up * halfHeight, counter-clockwise
      from (-, -). */
  function Corners(center: Vec3, right: Vec3, up: Vec3, halfWidth: real, halfHeight: real): Corners4 {
    var rw := Scale(right, halfWidth);
    var uh := Scale(up, halfHeight);
    Corners4(Sub(Sub(center, rw), uh), Sub(Add(center, rw), uh), Add(Add(center, rw), uh), Add(Sub(center, rw), uh))
  }

  /** Opposite corners are symmetric about the center. */
  lemma CornersSymmetric(center: Vec3, right: Vec3, up: Vec3, halfWidth: real, halfHeight: real)
    ensures var c := Corners(center, right, up, halfWidth, halfHeight);
      Add(c.p0, c.p2) == Scale(center, 2.0) && Add(c.p1, c.p3) == Scale(center, 2.0)
  {
  }

  /** CreateQuad(center, size, material, normal): a size-by-size square around the center,
      its right vector from DefaultRight and its up vector the normalized cross product of
      right and normal. */
  function SquareQuad(center: Vec3, size: real, material: Material, normal: Vec3,
                      invLength: Vec3 -> real): (r: seq<SceneObject>)
    ensures |r| == 2
  {
    var n := QuadNormal(normal, invLength);
    var half := size / 2.0;
    var right := if Abs(n.y) > VerticalThreshold then UnitX else Normalized(Cross(n, UnitY), invLength);
    var up := Normalized(Cross(right, n), invLength);
    var c := Corners(center, right, up, half, half);
    QuadFromCorners(c.p0, c.p1, c.p2, c.p3, material)
  }

  /** The right vector of the width/height overload: DefaultRight when no right vector is
      given; otherwise the given vector normalized, its component along the normal removed and
      normalized again, falling back to DefaultRight when what is left is shorter than the
      library's epsilon. */
  function RectangleRight(n: Vec3, right: Vec3, invLength: Vec3 -> real, eps: real): (r: Vec3)
    ensures right == Zero ==> r == DefaultRight(n, invLength)
  {
    if right == Zero then DefaultRight(n, invLength)
    else
      var r1 := Normalized(right, invLength);
      var r2 := Normalized(Sub(r1, Scale(n, Dot(r1, n))), invLength);
      if LengthSquared(r2) < eps then DefaultRight(n, invLength) else r2
  }

  /** Without a right vector a near-vertical normal gets (1, 0, 0). A given right vector,
      once its component along a unit normal is removed, is perpendicular to the normal
      whenever what is left is long enough to be kept. */
  lemma RightVectorChoice(n: Vec3, right: Vec3, invLength: Vec3 -> real, eps: real)
    ensures right == Zero && Abs(n.y) > VerticalThreshold ==> RectangleRight(n, right, invLength, eps) == UnitX
    ensures right != Zero && LengthSquared(n) == 1.0
            && LengthSquared(RectangleRight(n, right, invLength, eps)) >= eps
            && RectangleRight(n, right, invLength, eps) != DefaultRight(n, invLength)
            ==> Dot(RectangleRight(n, right, invLength, eps), n) == 0.0
  {
    if right != Zero && LengthSquared(n) == 1.0 {
      var r1 := Normalized(right, invLength);
      var d := Sub(r1, Scale(n, Dot(r1, n)));
      assert Dot(d, n) == Dot(r1, n) - Dot(r1, n) * LengthSquared(n);
      ScaledPerpendicular(d, n, invLength(d));
    }
  }

  /** CreateQuad(center, width, height, material, normal, right). */
  function RectangleQuad(center: Vec3, width: real, height: real, material: Material, normal: Vec3,
                         right: Vec3, invLength: Vec3 -> real, eps: real): (r: seq<SceneObject>)
    ensures |r| == 2
  {
    var n := QuadNormal(normal, invLength);
    var finalRight := RectangleRight(n, right, invLength, eps);
    var up := Normalized(Cross(finalRight, n), invLength);
    var c := Corners(center, finalRight, up, width / 2.0, height / 2.0);
    QuadFromCorners(c.p0, c.p1, c.p2, c.p3, material)
  }

  /** The square overload is the rectangle overload with equal sides and no right vector. */
  lemma SquareIsRectangle(center: Vec3, size: real, material: Material, normal: Vec3,
                          invLength: Vec3 -> real, eps: real)
    ensures SquareQuad(center, size, material, normal, invLength)
         == RectangleQuad(center, size, size, material, normal, Zero, invLength, eps)
  {
  }

  /** For a normal that is not near-vertical, the square lies in the plane through its center
      perpendicular to the normal: its right and up vectors are both multiples of cross
      products with the normal. */
  lemma {:induction false} SquareInPlane(center: Vec3, size: real, material: Material, normal: Vec3,
                                         invLength: Vec3 -> real, k: int)
    requires 0 <= k < 2
    requires Abs(QuadNormal(normal, invLength).y) <= VerticalThreshold
    ensures var n := QuadNormal(normal, invLength);
      var t := SquareQuad(center, size, material, normal, invLength)[k];
      && Dot(Sub(t.v0, center), n) == 0.0
      && Dot(Sub(t.v1, center), n) == 0.0
      && Dot(Sub(t.v2, center), n) == 0.0
  {
    var n := QuadNormal(normal, invLength);
    var half := size / 2.0;
    var right := Normalized(Cross(n, UnitY), invLength);
    var up := Normalized(Cross(right, n), invLength);
    CrossLaws(n, UnitY);
    CrossLaws(right, n);
    ScaledPerpendicular(Cross(n, UnitY), n, invLength(Cross(n, UnitY)));
    ScaledPerpendicular(Cross(right, n), n, invLength(Cross(right, n)));
    forall sr: real, su: real
      ensures Dot(Add(Scale(right, sr), Scale(up, su)), n) == 0.0
    {
      DotLinear(right, up, n, sr, su);
    }
    var rw := Scale(right, half);
    var uh := Scale(up, half);
    assert Sub(Sub(Sub(center, rw), uh), center) == Add(Scale(right, -half), Scale(up, -half));
    assert Sub(Sub(Add(center, rw), uh), center) == Add(Scale(right, half), Scale(up, -half));
    assert Sub(Add(Add(center, rw), uh), center) == Add(Scale(right, half), Scale(up, half));
    assert Sub(Add(Sub(center, rw), uh), center) == Add(Scale(right, -half), Scale(up, half));
  }

  /** A multiple of a vector perpendicular to n is perpendicular to n. */
  lemma ScaledPerpendicular(v: Vec3, n: Vec3, s: real)
    requires Dot(v, n) == 0.0
    ensures Dot(Scale(v, s), n) == 0.0
  {
    assert Dot(Scale(v, s), n) == s * Dot(v, n);
  }

  /** The dot product is linear in its first argument. */
  lemma DotLinear(a: Vec3, b: Vec3, n: Vec3, sa: real, sb: real)
    ensures Dot(Add(Scale(a, sa), Scale(b, sb)), n) == sa * Dot(a, n) + sb * Dot(b, n)
  {
  }
}
