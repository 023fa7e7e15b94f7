/** Scene primitives: the scene objects of Geometry/Triangle.cs and Geometry/Sphere.cs with
    their material, the vertex-only triangle record the linked-tree builders and tracers
    consume, the mesh triangle with per-vertex normals, and the ray. */
module Primitives {
  import opened Vectors
  import opened Boxes

  /** The PBR material carried by scene objects (CpuMaterial); the shader's Material has
      exactly the same fields, so one datatype serves both. */
  datatype Material = Material(
    baseColor: Vec3,
    metallic: real,
    roughness: real,
    transmission: real,
    ior: real,
    anisotropic: real,
    clearcoat: real,
    clearcoatRoughness: real,
    emissionColor: Vec3,
    emissionStrength: real)

  /** `new Material()`: every field zero. */
  const DefaultMaterial := Material(Zero, 0.0, 0.0, 0.0, 0.0, 0.0, 0.0, 0.0, Zero, 0.0)

  /** A scene object. Triangle and Sphere are the two implementations in the library;
      Other stands for any further implementation of the scene-object interface, known
      only through its bounding box and material. The constructors store their arguments
      unchanged, and GetObjectData returns the object itself, so the variant of this
      datatype is what callers dispatch on. */
  datatype SceneObject =
    | Triangle(v0: Vec3, v1: Vec3, v2: Vec3, material: Material)
    | Sphere(center: Vec3, radius: real, material: Material)
    | Other(bounds: Box, material: Material)

  /** The triangle's box: the componentwise extremes of its vertices, padded by `eps`. */
  function TriangleBounds(v0: Vec3, v1: Vec3, v2: Vec3, eps: real): (r: Box)
    requires eps >= 0.0
    ensures ContainsPoint(r, v0) && ContainsPoint(r, v1) && ContainsPoint(r, v2)
    ensures forall i: Axis ::
      At(r.min, i) + eps == At(v0, i) || At(r.min, i) + eps == At(v1, i) || At(r.min, i) + eps == At(v2, i)
    ensures forall i: Axis ::
      At(r.max, i) - eps == At(v0, i) || At(r.max, i) - eps == At(v1, i) || At(r.max, i) - eps == At(v2, i)
    ensures eps > 0.0 ==> r.min.x < r.max.x && r.min.y < r.max.y && r.min.z < r.max.z
  {
    var lo := Min(v0, Min(v1, v2));
    var hi := Max(v0, Max(v1, v2));
    var e := Splat(eps);
    assert forall i: Axis :: At(Sub(lo, e), i) == At(lo, i) - eps && At(Add(hi, e), i) == At(hi, i) + eps;
    Box(Sub(lo, e), Add(hi, e))
  }

  /** The sphere's box: the center minus and plus the radius on every axis. */
  function SphereBounds(center: Vec3, radius: real): (r: Box)
    ensures Size(r) == Splat(2.0 * radius)
    ensures Center(r) == center
    ensures radius >= 0.0 ==> ContainsPoint(r, center)
  {
    var rv := Splat(radius);
    Box(Sub(center, rv), Add(center, rv))
  }

  /** GetBoundingBox of each kind of scene object; `eps` is the library's Constants.Epsilon. */
  function GetBoundingBox(obj: SceneObject, eps: real): Box
    requires eps >= 0.0
  {
    match obj
    case Triangle(v0, v1, v2, _) => TriangleBounds(v0, v1, v2, eps)
    case Sphere(c, radius, _) => SphereBounds(c, radius)
    case Other(bounds, _) => bounds
  }

  /** GetMaterial: the material the object was constructed with. */
  function GetMaterial(obj: SceneObject): Material {
    obj.material
  }

  /** GetObjectData: the object itself, whose variant says what kind of object it is. */
  function GetObjectData(obj: SceneObject): SceneObject {
    obj
  }

  /** The constructors store their arguments, and the accessors give them back. */
  lemma AccessorsReturnConstructorArguments(v0: Vec3, v1: Vec3, v2: Vec3, c: Vec3, radius: real, m: Material)
    ensures var t := Triangle(v0, v1, v2, m);
      t.v0 == v0 && t.v1 == v1 && t.v2 == v2 && GetMaterial(t) == m && GetObjectData(t) == t
    ensures var s := Sphere(c, radius, m);
      s.center == c && s.radius == radius && GetMaterial(s) == m && GetObjectData(s) == s
  {
  }

  /** The vertex-only triangle record (A, B, C) consumed by the linked-tree builders and
      by the ray-triangle test. */
  datatype Tri = Tri(a: Vec3, b: Vec3, c: Vec3)

  /** The arithmetic mean of the three vertices. */
  function Centroid(t: Tri): Vec3 {
    Scale(Add(Add(t.a, t.b), t.c), 1.0 / 3.0)
  }

  /** The material of a mesh triangle (an albedo/emission PBR record). */
  datatype PbrMaterial = PbrMaterial(
    albedo: Vec3,
    emission: Vec3,
    metallic: real,
    roughness: real,
    transparency: real,
    indexOfRefraction: real)

  /** A triangle with per-vertex normals for smooth shading. */
  datatype MeshTriangle = MeshTriangle(
    geometry: Tri,
    normalA: Vec3,
    normalB: Vec3,
    normalC: Vec3,
    material: PbrMaterial)

  datatype Ray = Ray(origin: Vec3, direction: Vec3)

  /** The point at parameter `t` along the ray. */
  function PointAt(ray: Ray, t: real): Vec3 {
    Add(ray.origin, Scale(ray.direction, t))
  }
}
