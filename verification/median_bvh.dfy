/** BVH/BvhBuilder.cs: the top-down median builder over a list of triangles. Every node
    takes the bounds of its triangles, splits them at the middle of the longest axis by
    centroid, falls back to halving the list when one side would be empty, and stops at
    lists no longer than the leaf cap. */
module MedianBvh {
  import opened Wrappers
  import opened Vectors
  import opened Boxes
  import opened Primitives
  import opened LinkedBvh
  import LinearBvh

  /** The running min/max fold of CalculateBounds, visiting A, B, C of each triangle in
      list order. */
  function BoundsFold(tris: seq<Tri>, acc: Box): (r: Box)
    ensures Encloses(r, acc)
    ensures forall k :: 0 <= k < |tris| ==> ContainsTri(r, tris[k])
    decreases |tris|
  {
    if |tris| == 0 then acc
    else
      var t := tris[0];
      var next := Box(Min(Min(Min(acc.min, t.a), t.b), t.c), Max(Max(Max(acc.max, t.a), t.b), t.c));
      var r := BoundsFold(tris[1..], next);
      assert forall k :: 1 <= k < |tris| ==> tris[k] == tris[1..][k - 1];
      r
  }

  /** CalculateBounds: the zero box for an empty list, otherwise the fold from the empty
      box (+MaxValue minimum, MinValue maximum). */
  function CalculateBounds(tris: seq<Tri>): (r: Box)
    ensures |tris| == 0 ==> r == Box(Zero, Zero)
    ensures forall k :: 0 <= k < |tris| ==> ContainsTri(r, tris[k])
  {
    if |tris| == 0 then Box(Zero, Zero) else BoundsFold(tris, Empty)
  }

  /** The fold is the least box containing the vertices: any box reaching at least as far
      as the start value and containing every vertex encloses the result. */
  lemma {:induction false} BoundsFoldIsLeast(tris: seq<Tri>, acc: Box, c: Box)
    requires Encloses(c, acc)
    requires forall k :: 0 <= k < |tris| ==> ContainsTri(c, tris[k])
    ensures Encloses(c, BoundsFold(tris, acc))
    decreases |tris|
  {
    if |tris| > 0 {
      var t := tris[0];
      var next := Box(Min(Min(Min(acc.min, t.a), t.b), t.c), Max(Max(Max(acc.max, t.a), t.b), t.c));
      assert ContainsTri(c, t);
      assert Encloses(c, next);
      assert forall k :: 0 <= k < |tris[1..]| ==> tris[1..][k] == tris[k + 1];
      BoundsFoldIsLeast(tris[1..], next, c);
    }
  }

  /** So CalculateBounds of a non-empty list is exactly the componentwise min/max over its
      vertices: it contains them all and lies inside every finite box that does. */
  lemma CalculateBoundsIsLeast(tris: seq<Tri>, c: Box)
    requires |tris| > 0
    requires Encloses(c, Empty)
    requires forall k :: 0 <= k < |tris| ==> ContainsTri(c, tris[k])
    ensures Encloses(c, CalculateBounds(tris))
    ensures forall k :: 0 <= k < |tris| ==> ContainsTri(CalculateBounds(tris), tris[k])
  {
    BoundsFoldIsLeast(tris, Empty, c);
  }

  /** The split axis: Y when its extent exceeds X's, Z only when it exceeds both. This is
      the FIRST axis of largest extent, so an X = Y tie picks X. */
  function SplitAxis(ext: Vec3): (r: Axis)
    ensures forall i: Axis :: At(ext, i) <= At(ext, r)
    ensures forall i: Axis :: i < r ==> At(ext, i) < At(ext, r)
  {
    var a := if ext.y > ext.x then 1 else 0;
    if ext.z > ext.y && ext.z > ext.x then 2 else a
  }

  /** On an X = Y tie the median builder splits on X while Box.MaxExtentAxis reports Y. */
  lemma SplitAxisTieDiffersFromMaxExtent()
    ensures SplitAxis(Vec3(2.0, 2.0, 1.0)) == 0
    ensures MaxExtentAxis(Box(Zero, Vec3(2.0, 2.0, 1.0))) == 1
  {
    assert Size(Box(Zero, Vec3(2.0, 2.0, 1.0))) == Vec3(2.0, 2.0, 1.0);
  }

  /** The triangles whose centroid lies strictly before `pos` on `axis`, in list order. */
  function Before(tris: seq<Tri>, axis: Axis, pos: real): seq<Tri>
    decreases |tris|
  {
    if |tris| == 0 then []
    else (if IsBefore(tris[0], axis, pos) then [tris[0]] else []) + Before(tris[1..], axis, pos)
  }

  /** The triangles whose centroid lies at or after `pos` on `axis`, in list order. */
  function NotBefore(tris: seq<Tri>, axis: Axis, pos: real): seq<Tri>
    decreases |tris|
  {
    if |tris| == 0 then []
    else (if IsBefore(tris[0], axis, pos) then [] else [tris[0]]) + NotBefore(tris[1..], axis, pos)
  }

  /** The centroid of `t` lies strictly before `pos` on `axis`. */
  predicate IsBefore(t: Tri, axis: Axis, pos: real) {
    At(Centroid(t), axis) < pos
  }

  /** The foreach loop of BuildRecursive from the lists built so far: each triangle in
      turn is appended to the left list when its centroid lies before `pos` and to the
      right list otherwise. */
  function SplitFold(tris: seq<Tri>, axis: Axis, pos: real, left: seq<Tri>, right: seq<Tri>): (r: (seq<Tri>, seq<Tri>))
    requires forall k :: 0 <= k < |left| ==> IsBefore(left[k], axis, pos)
    requires forall k :: 0 <= k < |right| ==> !IsBefore(right[k], axis, pos)
    ensures forall k :: 0 <= k < |r.0| ==> IsBefore(r.0[k], axis, pos)
    ensures forall k :: 0 <= k < |r.1| ==> !IsBefore(r.1[k], axis, pos)
    ensures multiset(r.0) + multiset(r.1) == multiset(left) + multiset(right) + multiset(tris)
    decreases |tris|
  {
    if |tris| == 0 then (left, right)
    else
      var t := tris[0];
      assert tris == [t] + tris[1..];
      if IsBefore(t, axis, pos) then SplitFold(tris[1..], axis, pos, left + [t], right)
      else SplitFold(tris[1..], axis, pos, left, right + [t])
  }

  /** The whole loop, from two empty lists. */
  function SplitByPlane(tris: seq<Tri>, axis: Axis, pos: real): (r: (seq<Tri>, seq<Tri>))
    ensures forall k :: 0 <= k < |r.0| ==> At(Centroid(r.0[k]), axis) < pos
    ensures forall k :: 0 <= k < |r.1| ==> At(Centroid(r.1[k]), axis) >= pos
    ensures multiset(r.0) + multiset(r.1) == multiset(tris)
  {
    SplitFold(tris, axis, pos, [], [])
  }

  /** The loop appends to each list exactly the input filtered by its side's test, in
      input order. */
  lemma {:induction false} SplitFoldKeepsOrder(tris: seq<Tri>, axis: Axis, pos: real, left: seq<Tri>, right: seq<Tri>)
    requires forall k :: 0 <= k < |left| ==> IsBefore(left[k], axis, pos)
    requires forall k :: 0 <= k < |right| ==> !IsBefore(right[k], axis, pos)
    ensures SplitFold(tris, axis, pos, left, right) == (left + Before(tris, axis, pos), right + NotBefore(tris, axis, pos))
    decreases |tris|
  {
    if |tris| > 0 {
      var t := tris[0];
      if IsBefore(t, axis, pos) {
        SplitFoldKeepsOrder(tris[1..], axis, pos, left + [t], right);
        assert SplitFold(tris, axis, pos, left, right) == SplitFold(tris[1..], axis, pos, left + [t], right);
        assert Before(tris, axis, pos) == [t] + Before(tris[1..], axis, pos);
        assert NotBefore(tris, axis, pos) == [] + NotBefore(tris[1..], axis, pos) == NotBefore(tris[1..], axis, pos);
        assert left + [t] + Before(tris[1..], axis, pos) == left + ([t] + Before(tris[1..], axis, pos));
      } else {
        SplitFoldKeepsOrder(tris[1..], axis, pos, left, right + [t]);
        assert SplitFold(tris, axis, pos, left, right) == SplitFold(tris[1..], axis, pos, left, right + [t]);
        assert Before(tris, axis, pos) == [] + Before(tris[1..], axis, pos) == Before(tris[1..], axis, pos);
        assert NotBefore(tris, axis, pos) == [t] + NotBefore(tris[1..], axis, pos);
        assert right + [t] + NotBefore(tris[1..], axis, pos) == right + ([t] + NotBefore(tris[1..], axis, pos));
      }
    } else {
      assert left + [] == left && right + [] == right;
    }
  }

  /** Each side of the split keeps the input order: the left list is the input filtered by
      "centroid before the plane" and the right list the input filtered by its negation. */
  lemma SplitKeepsOrder(tris: seq<Tri>, axis: Axis, pos: real)
    ensures SplitByPlane(tris, axis, pos).0 == Before(tris, axis, pos)
    ensures SplitByPlane(tris, axis, pos).1 == NotBefore(tris, axis, pos)
  {
    SplitFoldKeepsOrder(tris, axis, pos, [], []);
  }

  /** The two child lists of an over-full node: the plane split at the middle of the split
      axis, or the list halved at count/2 when one side of the plane split is empty. */
  function Children(tris: seq<Tri>): (r: (seq<Tri>, seq<Tri>))
    ensures multiset(r.0) + multiset(r.1) == multiset(tris)
    ensures |tris| >= 2 ==> 1 <= |r.0| < |tris| && 1 <= |r.1| < |tris|
    ensures |tris| == 1 ==> r == ([], tris)
  {
    var box := CalculateBounds(tris);
    var ext := Size(box);
    var axis := SplitAxis(ext);
    var pos := At(box.min, axis) + At(ext, axis) * 0.5;
    var split := SplitByPlane(tris, axis, pos);
    assert |multiset(split.0)| + |multiset(split.1)| == |multiset(tris)|;
    if |split.0| == 0 || |split.1| == 0 then
      var mid := |tris| / 2;
      assert tris == tris[..mid] + tris[mid..];
      (tris[..mid], tris[mid..])
    else split
  }

  /** BuildRecursive for a leaf cap of at least 1: a leaf holding the whole list when it
      fits, otherwise an interior node over the two child lists. */
  function BuildRecursive(tris: seq<Tri>, cap: int): (n: Node<Tri>)
    requires |tris| >= 1 && cap >= 1
    ensures IsLeaf(n) <==> |tris| <= cap
    ensures n.box == CalculateBounds(tris)
    ensures IsLeaf(n) ==> n.primitives == Some(tris)
    decreases |tris|
  {
    var box := CalculateBounds(tris);
    if |tris| <= cap then Leaf(box, tris)
    else
      var ch := Children(tris);
      Interior(box, BuildRecursive(ch.0, cap), BuildRecursive(ch.1, cap))
  }

  /** The leaves of the tree hold exactly the input triangles. */
  lemma {:induction false} BuildRecursivePermutes(tris: seq<Tri>, cap: int)
    requires |tris| >= 1 && cap >= 1
    ensures multiset(Leaves(BuildRecursive(tris, cap))) == multiset(tris)
    decreases |tris|
  {
    if |tris| > cap {
      var ch := Children(tris);
      BuildRecursivePermutes(ch.0, cap);
      BuildRecursivePermutes(ch.1, cap);
    }
  }

  function Self(t: Tri): Tri { t }

  /** The tree is shaped, every leaf holds between 1 and `cap` triangles, and every node's
      box contains every vertex of the triangles below it. */
  lemma {:induction false} BuildRecursiveWellFormed(tris: seq<Tri>, cap: int)
    requires |tris| >= 1 && cap >= 1
    ensures Shaped(BuildRecursive(tris, cap))
    ensures LeavesWithin(BuildRecursive(tris, cap), cap)
    ensures BoxesCover(BuildRecursive(tris, cap), Self)
    decreases |tris|
  {
    var n := BuildRecursive(tris, cap);
    BuildRecursivePermutes(tris, cap);
    forall k | 0 <= k < |Leaves(n)|
      ensures ContainsTri(n.box, Self(Leaves(n)[k]))
    {
      assert Leaves(n)[k] in multiset(Leaves(n));
      var j :| 0 <= j < |tris| && tris[j] == Leaves(n)[k];
    }
    if |tris| > cap {
      var ch := Children(tris);
      BuildRecursiveWellFormed(ch.0, cap);
      BuildRecursiveWellFormed(ch.1, cap);
    }
  }

  /** Build with the leaf cap clamped to at least 1, as the linear builder does: an empty
      list is an ArgumentException, any other list gives a well-formed tree over exactly
      its triangles. */
  function Build(tris: seq<Tri>, maxPrimitivesPerNode: int): (r: Result<Node<Tri>>)
    ensures r.Failure? <==> |tris| == 0
    ensures r.Failure? ==> r.error == ArgumentException
    ensures r.Success? ==> multiset(Leaves(r.value)) == multiset(tris)
    ensures r.Success? ==> Shaped(r.value) && BoxesCover(r.value, Self)
    ensures r.Success? ==> LeavesWithin(r.value, LinearBvh.ClampCap(maxPrimitivesPerNode))
    ensures r.Success? ==> (IsLeaf(r.value) <==> |tris| <= LinearBvh.ClampCap(maxPrimitivesPerNode))
  {
    if |tris| == 0 then Failure(ArgumentException)
    else
      var cap := LinearBvh.ClampCap(maxPrimitivesPerNode);
      BuildRecursivePermutes(tris, cap);
      BuildRecursiveWellFormed(tris, cap);
      Success(BuildRecursive(tris, cap))
  }

  /** BuildRecursive exactly as written, for any cap, with a fuel bound on the recursion
      depth standing in for the call stack: None means the fuel ran out. */
  function BuildRecursiveAsWritten(tris: seq<Tri>, maxPrimitivesPerNode: int, fuel: nat): (r: Option<Node<Tri>>)
    ensures r.Some? ==> multiset(Leaves(r.value)) == multiset(tris)
    ensures r.Some? ==> (IsLeaf(r.value) <==> |tris| <= maxPrimitivesPerNode)
    decreases fuel
  {
    if fuel == 0 then None
    else
      var box := CalculateBounds(tris);
      if |tris| <= maxPrimitivesPerNode then Some(Leaf(box, tris))
      else
        var ch := Children(tris);
        var left := BuildRecursiveAsWritten(ch.0, maxPrimitivesPerNode, fuel - 1);
        var right := BuildRecursiveAsWritten(ch.1, maxPrimitivesPerNode, fuel - 1);
        if left.Some? && right.Some? then Some(Interior(box, left.value, right.value)) else None
  }

  /** For a cap of at least 1 the code as written finishes within |tris| levels and builds
      the same tree as BuildRecursive. */
  lemma {:induction false} AsWrittenAgrees(tris: seq<Tri>, cap: int, fuel: nat)
    requires |tris| >= 1 && cap >= 1 && fuel >= |tris|
    ensures BuildRecursiveAsWritten(tris, cap, fuel) == Some(BuildRecursive(tris, cap))
    decreases |tris|
  {
    if |tris| > cap {
      var ch := Children(tris);
      var f := fuel - 1;
      AsWrittenAgrees(ch.0, cap, f);
      AsWrittenAgrees(ch.1, cap, f);
      AsWrittenInteriorStep(tris, cap, fuel, f);
    } else {
      AsWrittenLeafStep(tris, cap, fuel);
    }
  }

  /** The leaf level of the previous lemma. */
  lemma AsWrittenLeafStep(tris: seq<Tri>, cap: int, fuel: nat)
    requires 1 <= |tris| <= cap && fuel >= 1
    ensures BuildRecursiveAsWritten(tris, cap, fuel) == Some(BuildRecursive(tris, cap))
  {
    assert BuildRecursive(tris, cap) == Leaf(CalculateBounds(tris), tris);
  }

  /** One interior level of the previous lemma: children that agree make the node agree. */
  lemma AsWrittenInteriorStep(tris: seq<Tri>, cap: int, fuel: nat, f: nat)
    requires |tris| > cap >= 1 && fuel == f + 1
    requires BuildRecursiveAsWritten(Children(tris).0, cap, f) == Some(BuildRecursive(Children(tris).0, cap))
    requires BuildRecursiveAsWritten(Children(tris).1, cap, f) == Some(BuildRecursive(Children(tris).1, cap))
    ensures BuildRecursiveAsWritten(tris, cap, fuel) == Some(BuildRecursive(tris, cap))
  {
    AsWrittenUnfold(tris, cap, f);
    RecursiveUnfold(tris, cap);
  }

  /** The interior case of BuildRecursiveAsWritten. */
  lemma AsWrittenUnfold(tris: seq<Tri>, cap: int, f: nat)
    requires |tris| > cap
    ensures var l := BuildRecursiveAsWritten(Children(tris).0, cap, f);
      var r := BuildRecursiveAsWritten(Children(tris).1, cap, f);
      BuildRecursiveAsWritten(tris, cap, f + 1)
        == if l.Some? && r.Some? then Some(Interior(CalculateBounds(tris), l.value, r.value)) else None
  {
  }

  /** The interior case of BuildRecursive. */
  lemma RecursiveUnfold(tris: seq<Tri>, cap: int)
    requires |tris| > cap >= 1
    ensures BuildRecursive(tris, cap)
         == Interior(CalculateBounds(tris), BuildRecursive(Children(tris).0, cap), BuildRecursive(Children(tris).1, cap))
  {
  }

  /** For a cap of 0 the code as written never finishes on a single triangle: the plane
      split of one triangle is always one-sided, halving at count/2 = 0 hands the same
      one-triangle list to the right child, and so on without end. */
  lemma {:induction false} ZeroCapNeverFinishes(t: Tri, fuel: nat)
    ensures BuildRecursiveAsWritten([t], 0, fuel) == None
    decreases fuel
  {
    if fuel > 0 {
      assert Children([t]) == ([], [t]);
      ZeroCapNeverFinishes(t, fuel - 1);
    }
  }
}
