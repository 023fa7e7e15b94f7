/** The traversal half of TestProject/RaytracingShader.cs: the fixed 32-slot stack, the
    per-object hit tests and TraceRay, the nearest-hit walk over the flat node array. Only
    the closest distance and the object that set it are modelled; the hit position, normal
    and tangent frame computed afterwards are shading. */
module GpuTraversal {
  import opened Wrappers
  import opened Vectors
  import opened Boxes
  import opened Primitives
  import opened Raycast

  /** The number of slots N0 .. N31. */
  const StackCapacity: int := 32

  /** The shader's TraversalStack: a pointer and the 32 slots. */
  datatype TraversalStack = TraversalStack(ptr: int, slots: seq<int>)

  /** The states the walk can reach: 32 slots and a pointer between 0 and 32. */
  predicate Valid(s: TraversalStack) {
    |s.slots| == StackCapacity && 0 <= s.ptr <= StackCapacity
  }

  /** The values on the stack, bottom first. */
  function Contents(s: TraversalStack): seq<int>
    requires Valid(s)
  {
    s.slots[..s.ptr]
  }

  /** `new TraversalStack()`: pointer 0, every slot 0. */
  function NewStack(): (r: TraversalStack)
    ensures Valid(r) && Contents(r) == []
  {
    TraversalStack(0, seq(StackCapacity, _ => 0))
  }

  /** Push: below 32 the value goes on top; on a full stack it is silently dropped. */
  function Push(s: TraversalStack, value: int): (r: TraversalStack)
    requires |s.slots| == StackCapacity
    ensures |r.slots| == StackCapacity
    ensures s.ptr >= StackCapacity ==> r == s
    ensures Valid(s) ==> Valid(r)
    ensures Valid(s) && s.ptr < StackCapacity ==> Contents(r) == Contents(s) + [value]
    ensures Valid(s) && s.ptr == StackCapacity ==> Contents(r) == Contents(s)
  {
    if s.ptr >= StackCapacity then s
    else if s.ptr < 0 then TraversalStack(s.ptr + 1, s.slots)
    else
      var r := TraversalStack(s.ptr + 1, s.slots[s.ptr := value]);
      assert Valid(s) ==> Contents(r) == Contents(s) + [value];
      r
  }

  /** Pop: -1 on an empty stack, which stays as it is; otherwise the top value, removed. */
  function Pop(s: TraversalStack): (r: (int, TraversalStack))
    requires |s.slots| == StackCapacity
    ensures |r.1.slots| == StackCapacity
    ensures s.ptr <= 0 ==> r == (-1, s)
    ensures Valid(s) ==> Valid(r.1)
    ensures Valid(s) && s.ptr > 0 ==>
      r.0 == Contents(s)[|Contents(s)| - 1] && Contents(r.1) == Contents(s)[..|Contents(s)| - 1]
  {
    if s.ptr <= 0 then (-1, s)
    else
      var p := s.ptr - 1;
      (if p < StackCapacity then s.slots[p] else -1, TraversalStack(p, s.slots))
  }

  /** Pop undoes Push below capacity: it returns the pushed value and the same contents. */
  lemma PushThenPop(s: TraversalStack, value: int)
    requires Valid(s) && s.ptr < StackCapacity
    ensures Pop(Push(s, value)).0 == value
    ensures Contents(Pop(Push(s, value)).1) == Contents(s)
  {
    assert (Contents(s) + [value])[..|Contents(s)|] == Contents(s);
  }

  /** Last in, first out: after pushing `a` and then `b` with room for both, the pops
      return `b` and then `a`, and leave the stack as it was. */
  lemma LastInFirstOut(s: TraversalStack, a: int, b: int)
    requires Valid(s) && s.ptr + 2 <= StackCapacity
    ensures var p1 := Pop(Push(Push(s, a), b));
            var p2 := Pop(p1.1);
            p1.0 == b && p2.0 == a && Contents(p2.1) == Contents(s)
  {
    PushThenPop(Push(s, a), b);
    PushThenPop(s, a);
  }

  /** On a full stack a push changes nothing, so the value pushed is lost. */
  lemma FullStackDropsPush(s: TraversalStack, value: int)
    requires Valid(s) && s.ptr == StackCapacity
    ensures Push(s, value) == s
    ensures Pop(Push(s, value)).0 == Contents(s)[StackCapacity - 1]
  {
  }

  /** The shader's SceneObject: a type tag (1 sphere, 3 triangle), the material, a
      tangent, and the sphere and triangle fields. */
  datatype ShaderObject = ShaderObject(
    objectType: int,
    mat: Material,
    tangent: Vec3,
    sphereCenter: Vec3,
    sphereRadius: real,
    triV0: Vec3,
    triV1: Vec3,
    triV2: Vec3)

  const SphereType: int := 1
  const TriangleType: int := 3

  /** The shader's LinearBvhNode: a leaf has a positive primitive count and covers objects
      [firstPrimitiveIndex, firstPrimitiveIndex + primitiveCount); any other node is
      interior and names its two children. */
  datatype LinearBvhNode = LinearBvhNode(
    box: Box,
    leftChildIndex: int,
    rightChildIndex: int,
    primitiveCount: int,
    firstPrimitiveIndex: int)

  /** The parallel and near-distance threshold of the shader's triangle test. */
  const TriangleEpsilon: real := 0.0000001

  /** The nearest distance the shader's sphere test accepts. */
  const SphereMinDistance: real := 0.0001

  /** IntersectTriangle: Moller-Trumbore with threshold 1e-7, accepted only strictly below
      the current closest distance. */
  function IntersectTriangle(ray: Ray, obj: ShaderObject, closest: real): (r: Option<real>)
    ensures r.Some? ==> TriangleEpsilon < r.value < closest
  {
    match MollerTrumbore(ray, Tri(obj.triV0, obj.triV1, obj.triV2), TriangleEpsilon)
    case TriHit(t, _, _) => if t < closest then Some(t) else None
    case TriMiss => None
  }

  /** The shader's threshold 1e-7 is weaker than the 1e-6 of the CPU triangle test, so the
      shader accepts every triangle hit the CPU test reports, at the same distance. */
  lemma ShaderAcceptsCpuHits(ray: Ray, tri: Tri, mat: Material, closest: real)
    requires TryIntersectTriangle(ray, tri).hit && TryIntersectTriangle(ray, tri).distance < closest
    ensures IntersectTriangle(ray, ShaderObject(TriangleType, mat, Zero, Zero, 0.0, tri.a, tri.b, tri.c), closest)
            == Some(TryIntersectTriangle(ray, tri).distance)
  {
    assert Tri(tri.a, tri.b, tri.c) == tri;
    SmallerEpsilonKeepsHit(ray, tri, Epsilon, TriangleEpsilon);
  }

  /** The coefficients a, b, c of |o + t d - center|^2 - radius^2 = a t^2 + b t + c. */
  function SphereQuadratic(ray: Ray, obj: ShaderObject): (real, real, real) {
    var oc := Sub(ray.origin, obj.sphereCenter);
    (Dot(ray.direction, ray.direction), 2.0 * Dot(oc, ray.direction), Dot(oc, oc) - obj.sphereRadius * obj.sphereRadius)
  }

  /** The nearer and the farther root of the quadratic, or None when the discriminant
      b^2 - 4ac is negative or a is zero (a zero direction, for which the source divides by
      zero). `sqrt` is the square root. */
  function SphereRoots(ray: Ray, obj: ShaderObject, sqrt: real -> real): Option<(real, real)> {
    var q := SphereQuadratic(ray, obj);
    var discriminant := q.1 * q.1 - 4.0 * q.0 * q.2;
    if discriminant < 0.0 || q.0 == 0.0 then None
    else
      var s := sqrt(discriminant);
      Some(((-q.1 - s) / (2.0 * q.0), (-q.1 + s) / (2.0 * q.0)))
  }

  /** IntersectSphere: no hit without real roots; otherwise the nearer root if it lies in
      [1e-4, closest), else the farther root if it does. */
  function IntersectSphere(ray: Ray, obj: ShaderObject, closest: real, sqrt: real -> real): (r: Option<real>)
    ensures r.Some? ==> SphereMinDistance <= r.value < closest
    ensures r.Some? ==>
              && SphereRoots(ray, obj, sqrt).Some?
              && (r.value == SphereRoots(ray, obj, sqrt).value.0 || r.value == SphereRoots(ray, obj, sqrt).value.1)
  {
    match SphereRoots(ray, obj, sqrt)
    case None => None
    case Some((near, far)) =>
      if !(near < SphereMinDistance || near >= closest) then Some(near)
      else if far < SphereMinDistance || far >= closest then None
      else Some(far)
  }

  /** With a true square root, both roots solve a t^2 + b t + c = 0. */
  lemma RootsSolve(ray: Ray, obj: ShaderObject, sqrt: real -> real)
    requires SphereRoots(ray, obj, sqrt).Some?
    requires forall x :: x >= 0.0 ==> sqrt(x) >= 0.0 && sqrt(x) * sqrt(x) == x
    ensures var q := SphereQuadratic(ray, obj);
            var (near, far) := SphereRoots(ray, obj, sqrt).value;
            && q.0 * near * near + q.1 * near + q.2 == 0.0
            && q.0 * far * far + q.1 * far + q.2 == 0.0
  {
    var q := SphereQuadratic(ray, obj);
    BothRoots(q.0, q.1, q.2, sqrt(q.1 * q.1 - 4.0 * q.0 * q.2));
  }

  /** Both roots (-b -+ s) / 2a solve a t^2 + b t + c = 0 when s^2 is the discriminant. */
  lemma BothRoots(a: real, b: real, c: real, s: real)
    requires a != 0.0 && s * s == b * b - 4.0 * a * c
    ensures var near, far := (-b - s) / (2.0 * a), (-b + s) / (2.0 * a);
            a * near * near + b * near + c == 0.0 && a * far * far + b * far + c == 0.0
  {
    QuadraticRoot(a, b, c, s, (-b - s) / (2.0 * a));
    QuadraticRoot(a, b, c, s, (-b + s) / (2.0 * a));
  }

  /** With a true square root, a sphere hit lies on the sphere. */
  lemma SphereHitOnSurface(ray: Ray, obj: ShaderObject, closest: real, sqrt: real -> real)
    requires IntersectSphere(ray, obj, closest, sqrt).Some?
    requires forall x :: x >= 0.0 ==> sqrt(x) >= 0.0 && sqrt(x) * sqrt(x) == x
    ensures var t := IntersectSphere(ray, obj, closest, sqrt).value;
            LengthSquared(Sub(PointAt(ray, t), obj.sphereCenter)) == obj.sphereRadius * obj.sphereRadius
  {
    var t := IntersectSphere(ray, obj, closest, sqrt).value;
    RootsSolve(ray, obj, sqrt);
    var oc := Sub(ray.origin, obj.sphereCenter);
    SphereEquation(oc, ray.direction, t);
    assert Sub(PointAt(ray, t), obj.sphereCenter) == Add(oc, Scale(ray.direction, t));
  }

  /** |p + t q|^2 expanded as a quadratic in t. */
  lemma SphereEquation(p: Vec3, q: Vec3, t: real)
    ensures LengthSquared(Add(p, Scale(q, t))) == Dot(q, q) * t * t + 2.0 * Dot(p, q) * t + Dot(p, p)
  {
    SquareOfSum(p.x, q.x, t);
    SquareOfSum(p.y, q.y, t);
    SquareOfSum(p.z, q.z, t);
  }

  lemma SquareOfSum(p: real, q: real, t: real)
    ensures (p + q * t) * (p + q * t) == q * q * t * t + 2.0 * p * q * t + p * p
  {
  }

  /** Either root of the quadratic formula solves the quadratic. */
  lemma QuadraticRoot(a: real, b: real, c: real, s: real, t: real)
    requires a != 0.0 && s * s == b * b - 4.0 * a * c
    requires t == (-b - s) / (2.0 * a) || t == (-b + s) / (2.0 * a)
    ensures a * t * t + b * t + c == 0.0
  {
    var e := 2.0 * a * t + b;
    assert e == -s || e == s;
    assert e * e == s * s;
    assert 4.0 * a * (a * t * t + b * t + c) == e * e - (b * b - 4.0 * a * c);
  }

  /** IntersectObject: type 1 is a sphere, type 3 a triangle, and any other type is never
      hit. */
  function IntersectObject(ray: Ray, obj: ShaderObject, closest: real, sqrt: real -> real): (r: Option<real>)
    ensures obj.objectType != SphereType && obj.objectType != TriangleType ==> r.None?
    ensures r.Some? ==> r.value < closest
  {
    if obj.objectType == SphereType then IntersectSphere(ray, obj, closest, sqrt)
    else if obj.objectType == TriangleType then IntersectTriangle(ray, obj, closest)
    else None
  }

  /** The closest hit so far: its distance and the object that set it. */
  datatype RayHit = RayHit(distance: real, hitObject: Option<ShaderObject>)

  /** Before any test: float.MaxValue and no object. */
  const NoHit := RayHit(FloatMax, None)

  /** One object test: a hit replaces the distance and the object. */
  function TestObject(ray: Ray, obj: ShaderObject, h: RayHit, sqrt: real -> real): RayHit {
    match IntersectObject(ray, obj, h.distance, sqrt)
    case Some(t) => RayHit(t, Some(obj))
    case None => h
  }

  /** The objects with the given indices tested in order from NoHit. */
  function TestAll(ray: Ray, objects: seq<ShaderObject>, indices: seq<int>, sqrt: real -> real): (r: RayHit)
    requires forall j :: 0 <= j < |indices| ==> 0 <= indices[j] < |objects|
    ensures r.distance <= FloatMax
    ensures r.hitObject.None? <==> r.distance == FloatMax
    ensures r.hitObject.Some? ==> exists j :: 0 <= j < |indices| && objects[indices[j]] == r.hitObject.value
    decreases |indices|
  {
    if |indices| == 0 then NoHit
    else
      var prev := TestAll(ray, objects, indices[..|indices| - 1], sqrt);
      assert forall j :: 0 <= j < |indices| - 1 ==> indices[..|indices| - 1][j] == indices[j];
      TestObject(ray, objects[indices[|indices| - 1]], prev, sqrt)
  }

  /** The node array the shader may walk: node 0 exists, every leaf's objects exist, and
      an interior node's children are two different nodes after it. */
  predicate WellFormed(nodes: seq<LinearBvhNode>, objectCount: int) {
    && |nodes| > 0
    && (forall i :: 0 <= i < |nodes| && nodes[i].primitiveCount > 0 ==>
          0 <= nodes[i].firstPrimitiveIndex && nodes[i].firstPrimitiveIndex + nodes[i].primitiveCount <= objectCount)
    && (forall i :: 0 <= i < |nodes| && nodes[i].primitiveCount <= 0 ==>
          i < nodes[i].leftChildIndex < |nodes| && i < nodes[i].rightChildIndex < |nodes|
          && nodes[i].leftChildIndex != nodes[i].rightChildIndex)
  }

  /** lo, lo + 1, ..., hi - 1. */
  function Range(lo: int, hi: int): (r: seq<int>)
    ensures |r| == if lo <= hi then hi - lo else 0
    ensures forall j :: 0 <= j < |r| ==> r[j] == lo + j
  {
    if lo < hi then seq(hi - lo, j => lo + j) else []
  }

  /** The object indices a leaf covers; none for an interior node. */
  function LeafRange(n: LinearBvhNode): seq<int> {
    if n.primitiveCount > 0 then Range(n.firstPrimitiveIndex, n.firstPrimitiveIndex + n.primitiveCount) else []
  }

  /** The leaf ranges of nodes lo .. hi - 1, in array order. */
  function LeafRanges(nodes: seq<LinearBvhNode>, lo: int, hi: int): seq<int>
    requires 0 <= lo <= hi <= |nodes|
    decreases hi - lo
  {
    if lo == hi then [] else LeafRanges(nodes, lo, hi - 1) + LeafRange(nodes[hi - 1])
  }

  /** Every interior node's children come after it. */
  predicate ChildrenAfter(nodes: seq<LinearBvhNode>) {
    forall i :: 0 <= i < |nodes| && nodes[i].primitiveCount <= 0 ==>
      i < nodes[i].leftChildIndex < |nodes| && i < nodes[i].rightChildIndex < |nodes|
  }

  /** One past the last node of the subtree rooted at `i`, following right children. */
  function End(nodes: seq<LinearBvhNode>, i: int): (r: int)
    requires ChildrenAfter(nodes) && 0 <= i < |nodes|
    ensures i < r <= |nodes|
    decreases |nodes| - i
  {
    if nodes[i].primitiveCount > 0 then i + 1 else End(nodes, nodes[i].rightChildIndex)
  }

  /** The depth-first layout: the root's subtree is the whole array, and an interior
      node's left child follows it and its subtree ends where the right child begins. */
  predicate Preorder(nodes: seq<LinearBvhNode>) {
    && |nodes| > 0 && ChildrenAfter(nodes)
    && End(nodes, 0) == |nodes|
    && forall i :: 0 <= i < |nodes| && nodes[i].primitiveCount <= 0 ==>
         nodes[i].leftChildIndex == i + 1 && End(nodes, i + 1) == nodes[i].rightChildIndex
  }

  /** The stack, bottom first, holds the roots of consecutive subtrees: the subtree of
      each entry ends where the entry below it begins, and the bottom one ends the array. */
  ghost predicate Segments(nodes: seq<LinearBvhNode>, s: seq<int>)
    requires ChildrenAfter(nodes)
    decreases |s|
  {
    |s| == 0 ||
    (&& 0 <= s[|s| - 1] < |nodes|
     && End(nodes, s[|s| - 1]) == Next(nodes, s[..|s| - 1])
     && Segments(nodes, s[..|s| - 1]))
  }

  /** The node the walk visits next: the top of the stack, or the end of the array. */
  function Next(nodes: seq<LinearBvhNode>, s: seq<int>): int {
    if |s| == 0 then |nodes| else s[|s| - 1]
  }

  /** Without pruning and without overflow, the walk has tested exactly the leaf ranges of
      the nodes before the next one to visit. */
  ghost predicate InOrder(nodes: seq<LinearBvhNode>, s: seq<int>, tested: seq<int>)
    requires ChildrenAfter(nodes)
  {
    Segments(nodes, s) && 0 <= Next(nodes, s) <= |nodes| && tested == LeafRanges(nodes, 0, Next(nodes, s))
  }

  /** Visiting a leaf at the top of the stack keeps the walk in order. */
  lemma LeafInOrder(nodes: seq<LinearBvhNode>, rest: seq<int>, i: int, tested: seq<int>)
    requires Preorder(nodes) && 0 <= i < |nodes| && nodes[i].primitiveCount > 0
    requires InOrder(nodes, rest + [i], tested)
    ensures InOrder(nodes, rest, tested + LeafRange(nodes[i]))
  {
    assert (rest + [i])[..|rest|] == rest;
  }

  /** Replacing an interior node at the top of the stack by its right and then its left
      child keeps the walk in order, and its leaf range is empty. */
  lemma InteriorInOrder(nodes: seq<LinearBvhNode>, rest: seq<int>, i: int, tested: seq<int>)
    requires Preorder(nodes) && 0 <= i < |nodes| && nodes[i].primitiveCount <= 0
    requires InOrder(nodes, rest + [i], tested)
    ensures InOrder(nodes, rest + [nodes[i].rightChildIndex] + [nodes[i].leftChildIndex], tested)
  {
    var l, r := nodes[i].leftChildIndex, nodes[i].rightChildIndex;
    assert (rest + [i])[..|rest|] == rest;
    var s := rest + [r] + [l];
    assert s[..|s| - 1] == rest + [r];
    assert (rest + [r])[..|rest|] == rest;
    assert LeafRanges(nodes, 0, i + 1) == LeafRanges(nodes, 0, i);
  }

  /** Object index `k` belongs to the range of some leaf. */
  predicate InSomeLeaf(nodes: seq<LinearBvhNode>, k: int) {
    exists i :: 0 <= i < |nodes| && nodes[i].primitiveCount > 0
      && nodes[i].firstPrimitiveIndex <= k < nodes[i].firstPrimitiveIndex + nodes[i].primitiveCount
  }

  function Pow2(n: nat): (r: nat)
    ensures r >= 1
  {
    if n == 0 then 1 else 2 * Pow2(n - 1)
  }

  /** A measure of the work left: a node at index i on the stack weighs 2^(n - i), so
      replacing it by two different later nodes lightens the stack. */
  function Weight(n: int, s: seq<int>): nat
    decreases |s|
  {
    if |s| == 0 then 0
    else Weight(n, s[..|s| - 1]) + (if 0 <= s[|s| - 1] < n then Pow2(n - s[|s| - 1]) else 0)
  }

  lemma Pow2Monotone(a: nat, b: nat)
    requires a <= b
    ensures Pow2(a) <= Pow2(b)
    decreases b
  {
    if a < b {
      Pow2Monotone(a, b - 1);
    }
  }

  /** Popping interior node `i` and pushing its right child, then (if there is room) its
      left child, lowers the weight. */
  lemma ChildrenLighter(n: int, rest: seq<int>, i: int, left: int, right: int, pushLeft: bool)
    requires 0 <= i < left < n && i < right < n && left != right
    ensures Weight(n, if pushLeft then rest + [right] + [left] else rest + [right]) < Weight(n, rest + [i])
  {
    WeightPush(n, rest, i);
    WeightPush(n, rest, right);
    TwoLaterLighter(n, i, left, right);
    if pushLeft {
      WeightPush(n, rest + [right], left);
    }
  }

  /** Pushing an index onto the stack adds exactly its own weight. */
  lemma WeightPush(n: int, s: seq<int>, x: int)
    ensures Weight(n, s + [x]) == Weight(n, s) + (if 0 <= x < n then Pow2(n - x) else 0)
  {
    assert (s + [x])[..|s|] == s;
  }

  /** Two different indices after `i` weigh less together than `i` alone. */
  lemma TwoLaterLighter(n: int, i: int, left: int, right: int)
    requires 0 <= i < left < n && i < right < n && left != right
    ensures Pow2(n - right) + Pow2(n - left) < Pow2(n - i)
  {
    var lo := if left < right then left else right;
    var hi := if left < right then right else left;
    Pow2Monotone(n - hi, n - i - 2);
    Pow2Monotone(n - lo, n - i - 1);
    assert Pow2(n - i) == 2 * Pow2(n - i - 1);
    assert Pow2(n - i - 1) == 2 * Pow2(n - i - 2);
  }

  /** Every tested index names an object in the range of some leaf. */
  ghost predicate TestedInLeaves(nodes: seq<LinearBvhNode>, objects: seq<ShaderObject>, tested: seq<int>) {
    forall j :: 0 <= j < |tested| ==> 0 <= tested[j] < |objects| && InSomeLeaf(nodes, tested[j])
  }

  /** Testing one more object of a leaf extends the tested sequence by it. */
  lemma TestOneMore(ray: Ray, nodes: seq<LinearBvhNode>, objects: seq<ShaderObject>, tested: seq<int>,
                    sqrt: real -> real, leaf: int, i: int)
    requires TestedInLeaves(nodes, objects, tested)
    requires 0 <= leaf < |nodes| && 0 <= i < nodes[leaf].primitiveCount
    requires 0 <= nodes[leaf].firstPrimitiveIndex && nodes[leaf].firstPrimitiveIndex + nodes[leaf].primitiveCount <= |objects|
    ensures var k := nodes[leaf].firstPrimitiveIndex + i;
      && TestedInLeaves(nodes, objects, tested + [k])
      && TestAll(ray, objects, tested + [k], sqrt) == TestObject(ray, objects[k], TestAll(ray, objects, tested, sqrt), sqrt)
  {
    var k := nodes[leaf].firstPrimitiveIndex + i;
    assert (tested + [k])[..|tested|] == tested;
    assert InSomeLeaf(nodes, k);
  }

  /** The walk's stack holds node indices. */
  ghost predicate Indices(s: TraversalStack, n: int)
    requires Valid(s)
  {
    forall k :: 0 <= k < |Contents(s)| ==> 0 <= Contents(s)[k] < n
  }

  /** One step of the leaf loop: testing object `first + i` extends the tested prefix of
      the leaf's range by one. */
  lemma LeafStep(ray: Ray, nodes: seq<LinearBvhNode>, objects: seq<ShaderObject>, leaf: int,
                 sqrt: real -> real, tested: seq<int>, done: seq<int>, i: int)
    requires 0 <= leaf < |nodes| && 0 <= i < nodes[leaf].primitiveCount
    requires 0 <= nodes[leaf].firstPrimitiveIndex
    requires nodes[leaf].firstPrimitiveIndex + nodes[leaf].primitiveCount <= |objects|
    requires done == tested + LeafRange(nodes[leaf])[..i]
    requires TestedInLeaves(nodes, objects, done)
    ensures var k := nodes[leaf].firstPrimitiveIndex + i;
      && done + [k] == tested + LeafRange(nodes[leaf])[..i + 1]
      && TestedInLeaves(nodes, objects, done + [k])
      && TestAll(ray, objects, done + [k], sqrt) == TestObject(ray, objects[k], TestAll(ray, objects, done, sqrt), sqrt)
  {
    var k := nodes[leaf].firstPrimitiveIndex + i;
    TestOneMore(ray, nodes, objects, done, sqrt, leaf, i);
    assert LeafRange(nodes[leaf])[..i + 1] == LeafRange(nodes[leaf])[..i] + [k];
  }

  /** The leaf loop: the node's objects tested in order. */
  method TestLeaf(ray: Ray, nodes: seq<LinearBvhNode>, objects: seq<ShaderObject>, leaf: int,
                  hit: RayHit, sqrt: real -> real, ghost tested: seq<int>)
    returns (hit': RayHit)
    requires 0 <= leaf < |nodes| && nodes[leaf].primitiveCount > 0
    requires 0 <= nodes[leaf].firstPrimitiveIndex
    requires nodes[leaf].firstPrimitiveIndex + nodes[leaf].primitiveCount <= |objects|
    requires TestedInLeaves(nodes, objects, tested) && hit == TestAll(ray, objects, tested, sqrt)
    ensures TestedInLeaves(nodes, objects, tested + LeafRange(nodes[leaf]))
    ensures hit' == TestAll(ray, objects, tested + LeafRange(nodes[leaf]), sqrt)
  {
    var first, count := nodes[leaf].firstPrimitiveIndex, nodes[leaf].primitiveCount;
    hit' := hit;
    ghost var done := tested;
    assert LeafRange(nodes[leaf])[..0] == [];
    var i := 0;
    while i < count
      invariant 0 <= i <= count
      invariant done == tested + LeafRange(nodes[leaf])[..i]
      invariant TestedInLeaves(nodes, objects, done)
      invariant hit' == TestAll(ray, objects, done, sqrt)
    {
      LeafStep(ray, nodes, objects, leaf, sqrt, tested, done, i);
      hit' := TestObject(ray, objects[first + i], hit', sqrt);
      done := done + [first + i];
      i := i + 1;
    }
    assert LeafRange(nodes[leaf])[..i] == LeafRange(nodes[leaf]);
  }

  /** The box test passes for every box and distance, as if pruning were switched off. */
  ghost predicate NoPruning(boxTest: (Box, real) -> bool) {
    forall b, d :: boxTest(b, d)
  }

  /** Whether the in-order property is tracked: a depth-first layout, no pruning and no
      overflow so far. */
  ghost predicate Tracked(nodes: seq<LinearBvhNode>, boxTest: (Box, real) -> bool, overflowed: bool) {
    Preorder(nodes) && NoPruning(boxTest) && !overflowed
  }

  /** The state the traversal loop keeps: valid stack entries, the tested objects lying in
      leaves, the hit being their tests in order, and, while tracked, the in-order walk. */
  ghost predicate WalkOk(ray: Ray, nodes: seq<LinearBvhNode>, objects: seq<ShaderObject>,
                         boxTest: (Box, real) -> bool, sqrt: real -> real,
                         stack: seq<int>, hit: RayHit, tested: seq<int>, overflowed: bool)
    requires ChildrenAfter(nodes)
  {
    && (forall k :: 0 <= k < |stack| ==> 0 <= stack[k] < |nodes|)
    && TestedInLeaves(nodes, objects, tested)
    && hit == TestAll(ray, objects, tested, sqrt)
    && (Tracked(nodes, boxTest, overflowed) ==> InOrder(nodes, stack, tested))
  }

  /** Testing a leaf at the top of the stack keeps the loop state. */
  lemma LeafWalkOk(ray: Ray, nodes: seq<LinearBvhNode>, objects: seq<ShaderObject>,
                   boxTest: (Box, real) -> bool, sqrt: real -> real,
                   rest: seq<int>, i: int, hit: RayHit, hit': RayHit, tested: seq<int>, overflowed: bool)
    requires WellFormed(nodes, |objects|) && 0 <= i < |nodes| && nodes[i].primitiveCount > 0
    requires WalkOk(ray, nodes, objects, boxTest, sqrt, rest + [i], hit, tested, overflowed)
    requires TestedInLeaves(nodes, objects, tested + LeafRange(nodes[i]))
    requires hit' == TestAll(ray, objects, tested + LeafRange(nodes[i]), sqrt)
    ensures WalkOk(ray, nodes, objects, boxTest, sqrt, rest, hit', tested + LeafRange(nodes[i]), overflowed)
  {
    assert (rest + [i])[..|rest|] == rest;
    assert forall k :: 0 <= k < |rest| ==> rest[k] == (rest + [i])[k];
    if Tracked(nodes, boxTest, overflowed) {
      LeafInOrder(nodes, rest, i, tested);
    }
  }

  /** Pushing the right and then the left child below capacity: both go on when there is
      room for two, only the right one when there is room for one. */
  lemma PushChildren(stack: TraversalStack, l: int, r: int)
    requires Valid(stack) && stack.ptr < StackCapacity
    ensures Valid(Push(Push(stack, r), l))
    ensures Contents(Push(Push(stack, r), l)) ==
            if stack.ptr + 1 < StackCapacity then Contents(stack) + [r] + [l] else Contents(stack) + [r]
  {
    assert Contents(Push(stack, r)) == Contents(stack) + [r];
  }

  /** Replacing an interior node at the top of the stack by its pushed children keeps the
      loop state; a push onto a full stack sets the overflow flag. */
  lemma InteriorWalkOk(ray: Ray, nodes: seq<LinearBvhNode>, objects: seq<ShaderObject>,
                       boxTest: (Box, real) -> bool, sqrt: real -> real,
                       rest: seq<int>, pushed: seq<int>, i: int, hit: RayHit, tested: seq<int>, overflowed: bool)
    requires WellFormed(nodes, |objects|) && 0 <= i < |nodes| && nodes[i].primitiveCount <= 0
    requires pushed == rest + [nodes[i].rightChildIndex] + [nodes[i].leftChildIndex]
          || (pushed == rest + [nodes[i].rightChildIndex] && |rest| + 1 >= StackCapacity)
    requires WalkOk(ray, nodes, objects, boxTest, sqrt, rest + [i], hit, tested, overflowed)
    ensures WalkOk(ray, nodes, objects, boxTest, sqrt, pushed, hit, tested,
                   overflowed || pushed == rest + [nodes[i].rightChildIndex])
  {
    var l, r := nodes[i].leftChildIndex, nodes[i].rightChildIndex;
    assert (rest + [i])[..|rest|] == rest;
    assert forall k :: 0 <= k < |rest| ==> rest[k] == (rest + [i])[k];
    assert forall k :: 0 <= k < |pushed| ==> 0 <= pushed[k] < |nodes|;
    if Tracked(nodes, boxTest, overflowed) && pushed == rest + [r] + [l] {
      InteriorInOrder(nodes, rest, i, tested);
    }
  }

  /** One iteration after the pop: the box test, then a leaf's objects or an interior
      node's children. The loop state is kept and the stack gets lighter. */
  method Visit(ray: Ray, nodes: seq<LinearBvhNode>, objects: seq<ShaderObject>,
               boxTest: (Box, real) -> bool, sqrt: real -> real,
               stack: TraversalStack, nodeIndex: int, hit: RayHit, ghost tested: seq<int>, ghost overflowed: bool)
    returns (stack': TraversalStack, hit': RayHit, ghost tested': seq<int>, ghost overflowed': bool)
    requires WellFormed(nodes, |objects|) && Valid(stack) && stack.ptr < StackCapacity && 0 <= nodeIndex < |nodes|
    requires WalkOk(ray, nodes, objects, boxTest, sqrt, Contents(stack) + [nodeIndex], hit, tested, overflowed)
    ensures Valid(stack')
    ensures WalkOk(ray, nodes, objects, boxTest, sqrt, Contents(stack'), hit', tested', overflowed')
    ensures Weight(|nodes|, Contents(stack')) < Weight(|nodes|, Contents(stack) + [nodeIndex])
  {
    ghost var rest := Contents(stack);
    stack', hit', tested', overflowed' := stack, hit, tested, overflowed;
    var node := nodes[nodeIndex];
    if boxTest(node.box, hit.distance) {
      if node.primitiveCount > 0 {
        hit' := TestLeaf(ray, nodes, objects, nodeIndex, hit, sqrt, tested);
        LeafWalkOk(ray, nodes, objects, boxTest, sqrt, rest, nodeIndex, hit, hit', tested, overflowed);
        tested' := tested + LeafRange(node);
        assert (rest + [nodeIndex])[..|rest|] == rest;
      } else {
        PushChildren(stack, node.leftChildIndex, node.rightChildIndex);
        stack' := Push(stack, node.rightChildIndex);
        stack' := Push(stack', node.leftChildIndex);
        InteriorWalkOk(ray, nodes, objects, boxTest, sqrt, rest, Contents(stack'), nodeIndex, hit, tested, overflowed);
        overflowed' := overflowed || Contents(stack') == rest + [node.rightChildIndex];
        ChildrenLighter(|nodes|, rest, nodeIndex, node.leftChildIndex, node.rightChildIndex, |rest| + 1 < StackCapacity);
      }
    } else {
      assert !NoPruning(boxTest);
      assert (rest + [nodeIndex])[..|rest|] == rest;
      assert forall k :: 0 <= k < |rest| ==> rest[k] == (rest + [nodeIndex])[k];
    }
  }

  /** TraceRay: push node 0; pop a node; skip it when its box is not hit before the
      closest distance; test a leaf's objects in order; push an interior node's right
      child and then its left child, so the left subtree is walked first. `boxTest` is the
      shader's IntersectBox with near limit 1e-4 and far limit the closest distance.
      The result is the object tests applied in order to `tested`, the object indices the
      walk tested, each of which lies in a leaf's range. `overflowed` records a push onto
      a full stack. On a depth-first layout, when no box is pruned and the stack never
      overflows, the walk tests every leaf's objects in array order. */
  method TraceRay(ray: Ray, nodes: seq<LinearBvhNode>, objects: seq<ShaderObject>,
                  boxTest: (Box, real) -> bool, sqrt: real -> real)
    returns (hit: RayHit, ghost tested: seq<int>, ghost overflowed: bool)
    requires WellFormed(nodes, |objects|)
    ensures TestedInLeaves(nodes, objects, tested)
    ensures hit == TestAll(ray, objects, tested, sqrt)
    ensures hit.distance <= FloatMax
    ensures hit.hitObject.None? <==> hit.distance == FloatMax
    ensures Preorder(nodes) && NoPruning(boxTest) && !overflowed ==> tested == LeafRanges(nodes, 0, |nodes|)
  {
    hit := NoHit;
    tested := [];
    overflowed := false;
    var stack := Push(NewStack(), 0);
    assert Contents(stack) == [0];
    WalkStarts(ray, nodes, objects, boxTest, sqrt);
    while stack.ptr > 0
      invariant Valid(stack)
      invariant WalkOk(ray, nodes, objects, boxTest, sqrt, Contents(stack), hit, tested, overflowed)
      decreases Weight(|nodes|, Contents(stack))
    {
      ghost var before := Contents(stack);
      var popped := Pop(stack);
      var nodeIndex := popped.0;
      stack := popped.1;
      assert before == Contents(stack) + [nodeIndex];
      assert stack.ptr < StackCapacity;
      if nodeIndex >= 0 {
        stack, hit, tested, overflowed := Visit(ray, nodes, objects, boxTest, sqrt, stack, nodeIndex, hit, tested, overflowed);
      }
    }
    assert Contents(stack) == [];
    WalkEnds(ray, nodes, objects, boxTest, sqrt, hit, tested, overflowed);
  }

  /** The loop state holds with only the root on the stack and nothing tested. */
  lemma WalkStarts(ray: Ray, nodes: seq<LinearBvhNode>, objects: seq<ShaderObject>,
                   boxTest: (Box, real) -> bool, sqrt: real -> real)
    requires WellFormed(nodes, |objects|)
    ensures WalkOk(ray, nodes, objects, boxTest, sqrt, [0], NoHit, [], false)
  {
    assert [0][..0] == [];
  }

  /** With the stack empty, the loop state gives TraceRay's postcondition. */
  lemma WalkEnds(ray: Ray, nodes: seq<LinearBvhNode>, objects: seq<ShaderObject>,
                 boxTest: (Box, real) -> bool, sqrt: real -> real, hit: RayHit, tested: seq<int>, overflowed: bool)
    requires WellFormed(nodes, |objects|)
    requires WalkOk(ray, nodes, objects, boxTest, sqrt, [], hit, tested, overflowed)
    ensures TestedInLeaves(nodes, objects, tested)
    ensures hit == TestAll(ray, objects, tested, sqrt)
    ensures Preorder(nodes) && NoPruning(boxTest) && !overflowed ==> tested == LeafRanges(nodes, 0, |nodes|)
  {
  }
}
