/** Tracing/SmoothBvhTracer.cs: the nearest-hit walk over a linked sorted-median tree of
    mesh triangles. Nothing is pruned: the walk pops a node, scans a leaf's triangles in order
    and pushes an interior node's right child and then its left child, so every leaf is
    visited, left subtree before right subtree. The result is therefore the closest-hit scan
    over the tree's leaves in left-to-right order. */
module SmoothTracer {
  import opened Wrappers
  import opened Vectors
  import opened Boxes
  import opened Primitives
  import opened Raycast
  import opened LinkedBvh
  import opened ClosestHit

  /** The outcome of the ray-mesh-triangle test: whether it hit, at what distance, and the
      barycentric coordinates of the hit point. */
  datatype MeshHit = MeshHit(hit: bool, distance: real, u: real, v: real)

  /** Tracing/Pbr.cs:36: the hit mesh triangle, the distance and the barycentrics. */
  datatype HitInfo = HitInfo(hitObject: MeshTriangle, distance: real, u: real, v: real)

  /** default(HitInfo): every field zero. */
  const DefaultHit := HitInfo(
    MeshTriangle(Tri(Zero, Zero, Zero), Zero, Zero, Zero, PbrMaterial(Zero, Zero, 0.0, 0.0, 0.0, 0.0)),
    0.0, 0.0, 0.0)

  /** The hit flag and distance of the mesh test, as the closest-hit scan sees them. */
  function AsTest(ray: Ray, tryIntersect: (Ray, MeshTriangle) -> MeshHit): MeshTriangle -> TestResult {
    (m: MeshTriangle) => TestResult(tryIntersect(ray, m).hit, tryIntersect(ray, m).distance)
  }

  /** The hit record the walk stores for triangle `m`. */
  function InfoOf(ray: Ray, tryIntersect: (Ray, MeshTriangle) -> MeshHit, m: MeshTriangle): HitInfo {
    var h := tryIntersect(ray, m);
    HitInfo(m, h.distance, h.u, h.v)
  }

  /** The primitives still to be visited, in visiting order: the top node's leaves first. */
  function StackLeaves(s: seq<Node<MeshTriangle>>): seq<MeshTriangle>
    decreases |s|
  {
    if |s| == 0 then [] else Leaves(s[|s| - 1]) + StackLeaves(s[..|s| - 1])
  }

  /** The walk's three variables as a closest-hit state. */
  function StateOf(closest: real, hasHit: bool, info: HitInfo): Closest<MeshTriangle> {
    Closest(closest, if hasHit then Some(info.hitObject) else None)
  }

  /** The hit record agrees with the state: a hit is recorded with its own test's distance
      and barycentrics, and before the first hit everything is still at its initial value. */
  ghost predicate Recorded(ray: Ray, tryIntersect: (Ray, MeshTriangle) -> MeshHit, closest: real, hasHit: bool, info: HitInfo) {
    && (hasHit ==> info == InfoOf(ray, tryIntersect, info.hitObject) && info.distance == closest)
    && (!hasHit ==> info == DefaultHit && closest == FloatMax)
  }

  /** The walk's result for a tree: a hit exactly when some triangle is hit below
      float.MaxValue; the reported triangle is one of the tree's, hit at the reported
      distance with the reported barycentrics; no triangle is hit closer; and among equally
      close triangles the first in left-to-right leaf order wins. */
  ghost predicate BruteForce(ps: seq<MeshTriangle>, ray: Ray, tryIntersect: (Ray, MeshTriangle) -> MeshHit, hit: bool, hitInfo: HitInfo) {
    && (hit <==> exists k :: 0 <= k < |ps| && tryIntersect(ray, ps[k]).hit && tryIntersect(ray, ps[k]).distance < FloatMax)
    && (hit ==> hitInfo.hitObject in ps && tryIntersect(ray, hitInfo.hitObject).hit)
    && (hit ==> hitInfo == InfoOf(ray, tryIntersect, hitInfo.hitObject))
    && (hit ==> forall k :: 0 <= k < |ps| && tryIntersect(ray, ps[k]).hit ==> hitInfo.distance <= tryIntersect(ray, ps[k]).distance)
    && (hit ==> var first := FirstHitAt(AsTest(ray, tryIntersect), ps, hitInfo.distance);
                first < |ps| && hitInfo.hitObject == ps[first])
  }

  /** Intersect. A missing root gives false and the default hit; otherwise the result is
      the brute-force closest hit over the tree's leaves. */
  method Intersect(root: Option<Node<MeshTriangle>>, ray: Ray, tryIntersect: (Ray, MeshTriangle) -> MeshHit)
    returns (hit: bool, hitInfo: HitInfo)
    requires root.Some? ==> Shaped(root.value)
    ensures root.None? ==> !hit
    ensures !hit ==> hitInfo == DefaultHit
    ensures root.Some? ==> BruteForce(Leaves(root.value), ray, tryIntersect, hit, hitInfo)
  {
    hitInfo := DefaultHit;
    if root.None? {
      return false, hitInfo;
    }
    var tree := root.value;
    ghost var test := AsTest(ray, tryIntersect);
    ghost var target := Scan(test, Leaves(tree), Start());
    var closestDistance := FloatMax;
    var hasHit := false;
    var stack := [tree];
    assert StackLeaves(stack) == Leaves(tree) by {
      assert stack[..0] == [];
    }
    while |stack| > 0
      invariant AllShaped(stack)
      invariant Recorded(ray, tryIntersect, closestDistance, hasHit, hitInfo)
      invariant Scan(test, StackLeaves(stack), StateOf(closestDistance, hasHit, hitInfo)) == target
      decreases StackSize(stack)
    {
      var node := stack[|stack| - 1];
      var rest := stack[..|stack| - 1];
      assert Shaped(node) && AllShaped(rest);
      if IsLeaf(node) {
        ghost var before := StateOf(closestDistance, hasHit, hitInfo);
        closestDistance, hasHit, hitInfo := ScanLeaf(node.primitives.value, ray, tryIntersect, closestDistance, hasHit, hitInfo);
        ScanConcat(test, node.primitives.value, StackLeaves(rest), before);
        stack := rest;
      } else {
        assert stack == rest + [node];
        PushBothChildren(rest, node);
        stack := rest + [node.right.value, node.left.value];
      }
    }
    hit := hasHit;
    WalkIsBruteForce(Leaves(tree), ray, tryIntersect, closestDistance, hasHit, hitInfo);
  }

  /** The foreach over a leaf's triangles: a hit strictly closer than the current distance
      replaces the distance and the hit record and sets the hit flag. */
  method ScanLeaf(prims: seq<MeshTriangle>, ray: Ray, tryIntersect: (Ray, MeshTriangle) -> MeshHit,
                  closest: real, hasHit: bool, info: HitInfo)
    returns (closest': real, hasHit': bool, info': HitInfo)
    requires Recorded(ray, tryIntersect, closest, hasHit, info)
    ensures Recorded(ray, tryIntersect, closest', hasHit', info')
    ensures StateOf(closest', hasHit', info') == Scan(AsTest(ray, tryIntersect), prims, StateOf(closest, hasHit, info))
  {
    ghost var test := AsTest(ray, tryIntersect);
    closest', hasHit', info' := closest, hasHit, info;
    var i := 0;
    while i < |prims|
      invariant 0 <= i <= |prims|
      invariant Recorded(ray, tryIntersect, closest', hasHit', info')
      invariant Scan(test, prims[i..], StateOf(closest', hasHit', info')) == Scan(test, prims, StateOf(closest, hasHit, info))
    {
      ghost var before := StateOf(closest', hasHit', info');
      var h := tryIntersect(ray, prims[i]);
      if h.hit && h.distance < closest' {
        closest' := h.distance;
        info' := HitInfo(prims[i], h.distance, h.u, h.v);
        hasHit' := true;
      }
      assert StateOf(closest', hasHit', info') == Step(test, prims[i], before);
      assert prims[i..][1..] == prims[i + 1..];
      i := i + 1;
    }
  }

  /** The walk's final state, being the scan of the leaves from the start state, is the
      brute-force closest hit. */
  lemma WalkIsBruteForce(ps: seq<MeshTriangle>, ray: Ray, tryIntersect: (Ray, MeshTriangle) -> MeshHit,
                         closest: real, hasHit: bool, info: HitInfo)
    requires Recorded(ray, tryIntersect, closest, hasHit, info)
    requires StateOf(closest, hasHit, info) == Scan(AsTest(ray, tryIntersect), ps, Start())
    ensures BruteForce(ps, ray, tryIntersect, hasHit, info)
  {
    var test := AsTest(ray, tryIntersect);
    ScanFromStart(test, ps);
    ScanPicksFirst(test, ps, Start());
    assert forall k :: 0 <= k < |ps| ==> test(ps[k]) == TestResult(tryIntersect(ray, ps[k]).hit, tryIntersect(ray, ps[k]).distance);
    if hasHit {
      assert test(info.hitObject).hit;
    }
  }

  /** Replacing an interior node by its right child and then its left child keeps the
      primitives to visit, in order, and shrinks the stack. */
  lemma PushBothChildren(rest: seq<Node<MeshTriangle>>, node: Node<MeshTriangle>)
    requires Shaped(node) && !IsLeaf(node)
    ensures var s := rest + [node.right.value, node.left.value];
      && (AllShaped(rest) ==> AllShaped(s))
      && StackLeaves(s) == Leaves(node) + StackLeaves(rest)
      && StackSize(s) < StackSize(rest + [node])
  {
    var l, r := node.left.value, node.right.value;
    var s := rest + [r, l];
    assert s == rest + [r] + [l];
    assert s[..|s| - 1] == rest + [r];
    assert (rest + [r])[..|rest|] == rest;
    assert (rest + [node])[..|rest|] == rest;
    assert Leaves(node) == Leaves(l) + Leaves(r);
    StackSizePush(rest, r);
    StackSizePush(rest + [r], l);
    StackSizePush(rest, node);
  }
}
