/** BVH/SmoothBvhBuilder.cs: the sorted-median builder over mesh triangles. Every node takes
    the bounds of its triangles, sorts a copy of them by centroid along the longest axis and
    splits the sorted list at count/2, stopping at lists no longer than the leaf cap. */
module SmoothBvh {
  import opened Wrappers
  import opened Vectors
  import opened Boxes
  import opened Primitives
  import opened LinkedBvh
  import MedianBvh
  import LinearBvh

  function GeometryOf(m: MeshTriangle): Tri { m.geometry }

  /** The triangles of a list of mesh triangles, in order. */
  function Geometries(ms: seq<MeshTriangle>): (r: seq<Tri>)
    ensures |r| == |ms|
    ensures forall k :: 0 <= k < |ms| ==> r[k] == ms[k].geometry
    decreases |ms|
  {
    if |ms| == 0 then [] else [ms[0].geometry] + Geometries(ms[1..])
  }

  /** The running min/max fold of CalculateBounds: each step takes the min (max) of the
      accumulator and the min (max) of the three vertices. */
  function BoundsFold(ms: seq<MeshTriangle>, acc: Box): (r: Box)
    ensures Encloses(r, acc)
    ensures forall k :: 0 <= k < |ms| ==> ContainsTri(r, ms[k].geometry)
    decreases |ms|
  {
    if |ms| == 0 then acc
    else
      var t := ms[0].geometry;
      var next := Box(Min(acc.min, Min(t.a, Min(t.b, t.c))), Max(acc.max, Max(t.a, Max(t.b, t.c))));
      var r := BoundsFold(ms[1..], next);
      assert forall k :: 1 <= k < |ms| ==> ms[k] == ms[1..][k - 1];
      r
  }

  /** CalculateBounds: the fold from the empty box. There is no special case for an empty
      list (Build never passes one), so the empty list gives Box.Empty. */
  function CalculateBounds(ms: seq<MeshTriangle>): (r: Box)
    ensures |ms| == 0 ==> r == Empty
    ensures forall k :: 0 <= k < |ms| ==> ContainsTri(r, ms[k].geometry)
  {
    BoundsFold(ms, Empty)
  }

  /** One fold step of either builder gives the same box: the grouping of the minima and
      maxima differs, the result does not. */
  lemma FoldStepsAgree(acc: Box, t: Tri)
    ensures Min(acc.min, Min(t.a, Min(t.b, t.c))) == Min(Min(Min(acc.min, t.a), t.b), t.c)
    ensures Max(acc.max, Max(t.a, Max(t.b, t.c))) == Max(Max(Max(acc.max, t.a), t.b), t.c)
  {
    MinMaxAssociative(acc.min, t.a, Min(t.b, t.c));
    MinMaxAssociative(Min(acc.min, t.a), t.b, t.c);
    MinMaxAssociative(acc.max, t.a, Max(t.b, t.c));
    MinMaxAssociative(Max(acc.max, t.a), t.b, t.c);
  }

  lemma {:induction false} BoundsFoldAgrees(ms: seq<MeshTriangle>, acc: Box)
    ensures BoundsFold(ms, acc) == MedianBvh.BoundsFold(Geometries(ms), acc)
    decreases |ms|
  {
    if |ms| > 0 {
      var t := ms[0].geometry;
      FoldStepsAgree(acc, t);
      var next := Box(Min(acc.min, Min(t.a, Min(t.b, t.c))), Max(acc.max, Max(t.a, Max(t.b, t.c))));
      BoundsFoldAgrees(ms[1..], next);
      assert Geometries(ms)[1..] == Geometries(ms[1..]);
    }
  }

  /** On a non-empty list both builders compute the same bounds, so the smooth builder's
      box is also the least box containing every vertex. */
  lemma BoundsMatchMedian(ms: seq<MeshTriangle>)
    requires |ms| > 0
    ensures CalculateBounds(ms) == MedianBvh.CalculateBounds(Geometries(ms))
  {
    BoundsFoldAgrees(ms, Empty);
  }

  /** The split axis: Y when its extent exceeds X's, then Z when its extent exceeds that of
      the axis chosen so far. This picks the same axis as the median builder. */
  function SplitAxis(ext: Vec3): (r: Axis)
    ensures r == MedianBvh.SplitAxis(ext)
  {
    var a: Axis := if ext.y > ext.x then 1 else 0;
    if ext.z > At(ext, a) then 2 else a
  }

  /** The sort key: the centroid's coordinate on `axis`. */
  function Key(m: MeshTriangle, axis: Axis): real {
    At(Centroid(m.geometry), axis)
  }

  ghost predicate SortedBy(s: seq<MeshTriangle>, axis: Axis) {
    forall i, j :: 0 <= i < j < |s| ==> Key(s[i], axis) <= Key(s[j], axis)
  }

  /** Inserts `m` before the first element whose key is not smaller. */
  function Insert(m: MeshTriangle, s: seq<MeshTriangle>, axis: Axis): (r: seq<MeshTriangle>)
    requires SortedBy(s, axis)
    ensures SortedBy(r, axis)
    ensures multiset(r) == multiset(s) + multiset{m}
    ensures |r| == |s| + 1
    ensures r[0] == m || (|s| > 0 && r[0] == s[0])
    decreases |s|
  {
    if |s| == 0 || Key(m, axis) <= Key(s[0], axis) then [m] + s
    else
      var rest := Insert(m, s[1..], axis);
      assert s == [s[0]] + s[1..];
      [s[0]] + rest
  }

  /** The copy sorted by key (an insertion sort; Array.Sort fixes no order among equal
      keys, and nothing below depends on one). */
  function SortByKey(s: seq<MeshTriangle>, axis: Axis): (r: seq<MeshTriangle>)
    ensures SortedBy(r, axis)
    ensures multiset(r) == multiset(s)
    ensures |r| == |s|
    decreases |s|
  {
    if |s| == 0 then []
    else
      assert s == [s[0]] + s[1..];
      Insert(s[0], SortByKey(s[1..], axis), axis)
  }

  /** The two child lists: the first count/2 sorted triangles and the rest. Every key on
      the left is at most every key on the right. */
  function Halves(ms: seq<MeshTriangle>, axis: Axis): (r: (seq<MeshTriangle>, seq<MeshTriangle>))
    ensures multiset(r.0) + multiset(r.1) == multiset(ms)
    ensures |r.0| == |ms| / 2 && |r.1| == |ms| - |ms| / 2
    ensures forall i, j :: 0 <= i < |r.0| && 0 <= j < |r.1| ==> Key(r.0[i], axis) <= Key(r.1[j], axis)
  {
    var sorted := SortByKey(ms, axis);
    var mid := |sorted| / 2;
    SplitSorted(sorted, mid, axis);
    (sorted[..mid], sorted[mid..])
  }

  /** Cutting a sorted sequence keeps its contents, and no key before the cut exceeds one
      after it. */
  lemma SplitSorted(s: seq<MeshTriangle>, mid: int, axis: Axis)
    requires SortedBy(s, axis) && 0 <= mid <= |s|
    ensures multiset(s[..mid]) + multiset(s[mid..]) == multiset(s)
    ensures forall i, j :: 0 <= i < |s[..mid]| && 0 <= j < |s[mid..]| ==> Key(s[..mid][i], axis) <= Key(s[mid..][j], axis)
  {
    assert s == s[..mid] + s[mid..];
    forall i, j | 0 <= i < |s[..mid]| && 0 <= j < |s[mid..]|
      ensures Key(s[..mid][i], axis) <= Key(s[mid..][j], axis)
    {
      assert s[..mid][i] == s[i] && s[mid..][j] == s[mid + j];
    }
  }

  /** Build for a non-empty list and a cap of at least 1: a leaf holding exactly the list
      when it fits, otherwise an interior node over the two halves of the sorted copy. */
  function BuildNode(ms: seq<MeshTriangle>, cap: int): (n: Node<MeshTriangle>)
    requires |ms| >= 1 && cap >= 1
    ensures IsLeaf(n) <==> |ms| <= cap
    ensures IsLeaf(n) ==> n.primitives == Some(ms)
    ensures n.box == CalculateBounds(ms)
    decreases |ms|
  {
    var box := CalculateBounds(ms);
    if |ms| <= cap then Leaf(box, ms)
    else
      var halves := Halves(ms, SplitAxis(Size(box)));
      Interior(box, BuildNode(halves.0, cap), BuildNode(halves.1, cap))
  }

  /** The leaves hold exactly the input triangles. */
  lemma {:induction false} BuildNodePermutes(ms: seq<MeshTriangle>, cap: int)
    requires |ms| >= 1 && cap >= 1
    ensures multiset(Leaves(BuildNode(ms, cap))) == multiset(ms)
    decreases |ms|
  {
    if |ms| > cap {
      var halves := Halves(ms, SplitAxis(Size(CalculateBounds(ms))));
      BuildNodePermutes(halves.0, cap);
      BuildNodePermutes(halves.1, cap);
    }
  }

  /** The tree is shaped, every leaf holds between 1 and `cap` triangles, and every node's
      box contains every vertex of the triangles below it. */
  lemma {:induction false} BuildNodeWellFormed(ms: seq<MeshTriangle>, cap: int)
    requires |ms| >= 1 && cap >= 1
    ensures Shaped(BuildNode(ms, cap))
    ensures LeavesWithin(BuildNode(ms, cap), cap)
    ensures BoxesCover(BuildNode(ms, cap), GeometryOf)
    decreases |ms|
  {
    var n := BuildNode(ms, cap);
    BuildNodePermutes(ms, cap);
    forall k | 0 <= k < |Leaves(n)|
      ensures ContainsTri(n.box, GeometryOf(Leaves(n)[k]))
    {
      assert Leaves(n)[k] in multiset(Leaves(n));
      var j :| 0 <= j < |ms| && ms[j] == Leaves(n)[k];
    }
    if |ms| > cap {
      var halves := Halves(ms, SplitAxis(Size(CalculateBounds(ms))));
      BuildNodeWellFormed(halves.0, cap);
      BuildNodeWellFormed(halves.1, cap);
    }
  }

  /** Build with the leaf cap clamped to at least 1: no tree (null) for an empty list, and
      otherwise a well-formed tree over exactly the given triangles. */
  function Build(ms: seq<MeshTriangle>, maxPrimitivesPerNode: int): (r: Option<Node<MeshTriangle>>)
    ensures r.None? <==> |ms| == 0
    ensures r.Some? ==> multiset(Leaves(r.value)) == multiset(ms)
    ensures r.Some? ==> Shaped(r.value) && BoxesCover(r.value, GeometryOf)
    ensures r.Some? ==> LeavesWithin(r.value, LinearBvh.ClampCap(maxPrimitivesPerNode))
    ensures r.Some? && |ms| <= maxPrimitivesPerNode ==> r.value == Leaf(CalculateBounds(ms), ms)
  {
    if |ms| == 0 then None
    else
      var cap := LinearBvh.ClampCap(maxPrimitivesPerNode);
      BuildNodePermutes(ms, cap);
      BuildNodeWellFormed(ms, cap);
      Some(BuildNode(ms, cap))
  }

  /** Build exactly as written, for any cap, with a fuel bound on the recursion depth
      standing in for the call stack: the outer None means the fuel ran out, the inner
      None is the null returned for an empty list. */
  function BuildAsWritten(ms: seq<MeshTriangle>, maxPrimitivesPerNode: int, fuel: nat): (r: Option<Option<Node<MeshTriangle>>>)
    ensures r.Some? ==> (r.value.None? <==> |ms| == 0)
    decreases fuel
  {
    if fuel == 0 then None
    else if |ms| == 0 then Some(None)
    else
      var box := CalculateBounds(ms);
      if |ms| <= maxPrimitivesPerNode then Some(Some(Leaf(box, ms)))
      else
        var halves := Halves(ms, SplitAxis(Size(box)));
        var left := BuildAsWritten(halves.0, maxPrimitivesPerNode, fuel - 1);
        var right := BuildAsWritten(halves.1, maxPrimitivesPerNode, fuel - 1);
        if left.Some? && right.Some? then Some(Some(Node(box, left.value, right.value, None)))
        else None
  }

  /** For a cap of 0 the code as written never finishes on a single triangle: count/2 = 0
      gives an empty left half (null) and hands the same one-triangle list to the right
      half, and so on without end. */
  lemma {:induction false} SmoothZeroCapNeverFinishes(m: MeshTriangle, fuel: nat)
    ensures BuildAsWritten([m], 0, fuel) == None
    decreases fuel
  {
    if fuel > 0 {
      var halves := Halves([m], SplitAxis(Size(CalculateBounds([m]))));
      assert multiset(halves.1) == multiset{m};
      assert halves.1 == [m] by {
        assert |halves.1| == 1 && halves.1[0] in multiset(halves.1);
      }
      SmoothZeroCapNeverFinishes(m, fuel - 1);
    }
  }
}
