/** The conversion of the CPU-side tree and scene into the shader's flat arrays
    (TestProject/BvhConverter.cs), and the upload sequence of TestProject/Program.cs that
    builds the linear tree and converts both arrays. */
module Converter {
  import opened Wrappers
  import opened Vectors
  import opened Boxes
  import opened Primitives
  import LinearBvh
  import opened GpuTraversal

  /** One node, field by field. */
  function ConvertNode(n: LinearBvh.CpuBvhNode): LinearBvhNode {
    LinearBvhNode(n.bounds, n.leftChild, n.rightChild, n.primitiveCount, n.firstPrimitive)
  }

  /** ConvertNodes: an array of the same length whose node i carries node i's box, child
      indices, primitive count and first primitive unchanged. */
  function ConvertNodes(cpuNodes: seq<LinearBvh.CpuBvhNode>): (r: seq<LinearBvhNode>)
    ensures |r| == |cpuNodes|
    ensures forall i :: 0 <= i < |r| ==>
      && r[i].box == cpuNodes[i].bounds
      && r[i].leftChildIndex == cpuNodes[i].leftChild
      && r[i].rightChildIndex == cpuNodes[i].rightChild
      && r[i].primitiveCount == cpuNodes[i].primitiveCount
      && r[i].firstPrimitiveIndex == cpuNodes[i].firstPrimitive
  {
    seq(|cpuNodes|, i requires 0 <= i < |cpuNodes| => ConvertNode(cpuNodes[i]))
  }

  /** The converted nodes of a tree the linear builder produced over `count` primitives
      are an array the shader may walk: its leaves name existing objects and its interior
      nodes name two distinct later nodes. */
  lemma BuiltTreeConvertsWellFormed(nodes: seq<LinearBvh.CpuBvhNode>, count: int, cap: int, boxes: seq<Box>)
    requires LinearBvh.Subtree(nodes, 0, 0, count, cap, boxes)
    ensures GpuTraversal.WellFormed(ConvertNodes(nodes), count)
  {
    LinearBvh.SubtreeIndices(nodes, 0, 0, count, cap, boxes);
  }

  /** `new SceneObject()`: type 0 and every field zero. */
  const DefaultObject := ShaderObject(0, DefaultMaterial, Zero, Zero, 0.0, Zero, Zero, Zero)

  /** The tangent the converter gives every sphere. */
  const SphereTangent := Vec3(1.0, 0.0, 0.0)

  /** One scene object: the material copied field by field; a sphere tagged 1 with its
      center, radius and tangent (1, 0, 0); a triangle tagged 3 with its vertices and the
      normalized first edge as tangent; any other object keeps tag 0 and zero geometry.
      `normalize` stands for Vector3.Normalize. */
  function ConvertObject(obj: SceneObject, normalize: Vec3 -> Vec3): (r: ShaderObject)
    ensures r.mat == obj.material
    ensures r.objectType == SphereType <==> obj.Sphere?
    ensures r.objectType == TriangleType <==> obj.Triangle?
    ensures obj.Other? ==> r == DefaultObject.(mat := obj.material)
  {
    var o := DefaultObject.(mat := GetMaterial(obj));
    match GetObjectData(obj)
    case Sphere(c, radius, _) =>
      o.(objectType := SphereType, sphereCenter := c, sphereRadius := radius, tangent := SphereTangent)
    case Triangle(v0, v1, v2, _) =>
      o.(objectType := TriangleType, triV0 := v0, triV1 := v1, triV2 := v2, tangent := normalize(Sub(v1, v0)))
    case Other(_, _) => o
  }

  /** The scene object a shader object describes, read back through its type tag. */
  function Recover(o: ShaderObject): Option<SceneObject> {
    if o.objectType == SphereType then Some(Sphere(o.sphereCenter, o.sphereRadius, o.mat))
    else if o.objectType == TriangleType then Some(Triangle(o.triV0, o.triV1, o.triV2, o.mat))
    else None
  }

  /** Converting loses nothing the shader uses: spheres and triangles are read back exactly,
      and only objects of another kind read back as nothing. */
  lemma ConvertObjectRoundTrip(obj: SceneObject, normalize: Vec3 -> Vec3)
    ensures obj.Other? <==> Recover(ConvertObject(obj, normalize)).None?
    ensures !obj.Other? ==> Recover(ConvertObject(obj, normalize)) == Some(obj)
  {
  }

  /** Iteration i of ConvertScene fails when orderedIndices[i] is not a scene position (the
      list indexer throws ArgumentOutOfRangeException), or else when i is past the end of the
      output array of scene.Count entries (IndexOutOfRangeException). */
  function ErrorAt(sceneCount: int, orderedIndices: seq<int>, i: int): Option<Exception>
    requires 0 <= i < |orderedIndices|
  {
    if !(0 <= orderedIndices[i] < sceneCount) then Some(ArgumentOutOfRangeException)
    else if i >= sceneCount then Some(IndexOutOfRangeException)
    else None
  }

  /** Every iteration of ConvertScene succeeds: each ordered index is a scene position and
      there are no more of them than scene objects. */
  predicate IndicesOk(sceneCount: int, orderedIndices: seq<int>) {
    && |orderedIndices| <= sceneCount
    && forall i :: 0 <= i < |orderedIndices| ==> 0 <= orderedIndices[i] < sceneCount
  }

  /** ConvertScene: an array of scene.Count entries whose entry i, for i below
      orderedIndices.Length, converts scene[orderedIndices[i]], the rest staying default.
      It fails with the exception of the first iteration that fails, and only then. */
  method ConvertScene(scene: seq<SceneObject>, orderedIndices: seq<int>, normalize: Vec3 -> Vec3)
    returns (r: Result<seq<ShaderObject>>)
    ensures r.Success? <==> IndicesOk(|scene|, orderedIndices)
    ensures r.Success? ==>
      && |r.value| == |scene|
      && (forall i :: 0 <= i < |orderedIndices| ==> r.value[i] == ConvertObject(scene[orderedIndices[i]], normalize))
      && (forall i :: |orderedIndices| <= i < |scene| ==> r.value[i] == DefaultObject)
    ensures r.Failure? ==> exists j ::
      && 0 <= j < |orderedIndices|
      && (forall i :: 0 <= i < j ==> ErrorAt(|scene|, orderedIndices, i).None?)
      && ErrorAt(|scene|, orderedIndices, j) == Some(r.error)
  {
    var gpuObjects := seq(|scene|, _ => DefaultObject);
    var i := 0;
    while i < |orderedIndices|
      invariant 0 <= i <= |orderedIndices|
      invariant forall k :: 0 <= k < i ==> ErrorAt(|scene|, orderedIndices, k).None?
      invariant |gpuObjects| == |scene|
      invariant forall k :: 0 <= k < i ==>
        && 0 <= orderedIndices[k] < |scene| && k < |scene|
        && gpuObjects[k] == ConvertObject(scene[orderedIndices[k]], normalize)
      invariant forall k :: i <= k < |scene| ==> gpuObjects[k] == DefaultObject
    {
      var originalIndex := orderedIndices[i];
      if !(0 <= originalIndex < |scene|) {
        assert ErrorAt(|scene|, orderedIndices, i) == Some(ArgumentOutOfRangeException);
        return Failure(ArgumentOutOfRangeException);
      }
      var obj := scene[originalIndex];
      if i >= |gpuObjects| {
        assert ErrorAt(|scene|, orderedIndices, i) == Some(IndexOutOfRangeException);
        return Failure(IndexOutOfRangeException);
      }
      gpuObjects := gpuObjects[i := ConvertObject(obj, normalize)];
      i := i + 1;
    }
    if |orderedIndices| > 0 {
      var last := |orderedIndices| - 1;
      assert 0 <= orderedIndices[last] < |scene| && last < |scene|;
    }
    return Success(gpuObjects);
  }

  /** Every entry of a permutation of 0 .. n - 1 is one of those positions. */
  lemma PermutationInRange(indices: seq<int>, n: nat)
    requires multiset(indices) == multiset(LinearBvh.Iota(n))
    ensures |indices| == n
    ensures forall i :: 0 <= i < |indices| ==> 0 <= indices[i] < n
  {
    assert |indices| == |multiset(indices)| == |LinearBvh.Iota(n)|;
    forall i | 0 <= i < |indices|
      ensures 0 <= indices[i] < n
    {
      assert indices[i] in multiset(LinearBvh.Iota(n));
    }
  }

  /** Program.cs's upload: build the linear tree over the scene, convert the nodes, and
      convert the scene in the builder's order. For a non-empty scene the conversion never
      fails, the node array is one the shader may walk, and object i of the shader's array
      is scene object indices[i] of a permutation `indices` of the scene's positions. */
  method Upload(scene: seq<SceneObject>, eps: real, normalize: Vec3 -> Vec3)
    returns (nodes: seq<LinearBvhNode>, objects: Result<seq<ShaderObject>>, indices: seq<int>)
    requires eps >= 0.0
    ensures multiset(indices) == multiset(LinearBvh.Iota(|scene|))
    ensures |indices| == |scene|
    ensures objects.Success? && |objects.value| == |scene|
    ensures forall i :: 0 <= i < |scene| ==>
      0 <= indices[i] < |scene| && objects.value[i] == ConvertObject(scene[indices[i]], normalize)
    ensures |scene| > 0 ==> GpuTraversal.WellFormed(nodes, |scene|)
  {
    var cpuNodes;
    cpuNodes, indices := LinearBvh.Build(scene, LinearBvh.DefaultMaxPrimitivesPerNode, eps);
    nodes := ConvertNodes(cpuNodes);
    PermutationInRange(indices, |scene|);
    if |scene| > 0 {
      BuiltTreeConvertsWellFormed(cpuNodes, |scene|, LinearBvh.ClampCap(LinearBvh.DefaultMaxPrimitivesPerNode),
                                  LinearBvh.OrderedBounds(scene, indices, eps));
    }
    objects := ConvertScene(scene, indices, normalize);
  }
}
