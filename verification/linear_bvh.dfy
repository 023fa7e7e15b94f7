/** BVH/LinearBvhBuilder.cs: the surface-area-heuristic builder that lays the tree out as a
    flat, depth-first node array and reorders the primitives so that every leaf covers a
    contiguous range of them. */
module LinearBvh {
  import opened Wrappers
  import opened Vectors
  import opened Boxes
  import opened Primitives

  /** A primitive's original position, its bounding box and the centre of that box. */
  datatype PrimitiveInfo = PrimitiveInfo(originalIndex: int, bounds: Box, centroid: Vec3)

  /** The number of primitives that fell into one bucket and the union of their boxes. */
  datatype BucketInfo = BucketInfo(count: nat, bounds: Box)

  /** A node of the flat tree (BVH/CpuBvhNode.cs). A leaf has a positive primitive count and
      covers primitives [firstPrimitive, firstPrimitive + primitiveCount); an interior node
      has count 0 and the array indices of its two children. */
  datatype CpuBvhNode = CpuBvhNode(
    bounds: Box,
    leftChild: int,
    rightChild: int,
    primitiveCount: int,
    firstPrimitive: int)

  const NumBuckets: int := 12

  /** The default of Build's maxPrimitivesPerNode parameter. */
  const DefaultMaxPrimitivesPerNode: int := 4

  /** Math.Max(1, maxPrimitivesPerNode). */
  function ClampCap(maxPrimitivesPerNode: int): (r: int)
    ensures r >= 1
    ensures maxPrimitivesPerNode >= 1 ==> r == maxPrimitivesPerNode
    ensures maxPrimitivesPerNode < 1 ==> r == 1
  {
    if maxPrimitivesPerNode >= 1 then maxPrimitivesPerNode else 1
  }

  /** The C# conversion `(int)x` of a float: truncation toward zero. */
  function Truncate(x: real): (r: int)
    ensures x >= 0.0 ==> r as real <= x < r as real + 1.0
    ensures x < 0.0 ==> r as real - 1.0 < x <= r as real
  {
    if x >= 0.0 then x.Floor else -((-x).Floor)
  }

  lemma TruncateMonotone(x: real, y: real)
    requires x <= y
    ensures Truncate(x) <= Truncate(y)
  {
  }

  /** Math.Clamp on integers. */
  function ClampInt(v: int, lo: int, hi: int): (r: int)
    requires lo <= hi
    ensures lo <= r <= hi
    ensures lo <= v <= hi ==> r == v
    ensures v < lo ==> r == lo
    ensures v > hi ==> r == hi
  {
    if v < lo then lo else if v > hi then hi else v
  }

  /** The bucket of a centroid: twelve equal slices of the centroid bounds along the split
      axis, with anything at or beyond the far end clamped into the last bucket. */
  function BucketIndex(cb: Box, c: Vec3, axis: Axis): (b: int)
    ensures 0 <= b < NumBuckets
  {
    ClampInt(Truncate(NumBuckets as real * Offset(cb, c, axis)), 0, NumBuckets - 1)
  }

  /** Bucketing preserves the order of centroids along the split axis. */
  lemma BucketIndexMonotone(cb: Box, p: Vec3, q: Vec3, axis: Axis)
    requires At(p, axis) <= At(q, axis)
    ensures BucketIndex(cb, p, axis) <= BucketIndex(cb, q, axis)
  {
    OffsetMonotone(cb, p, q, axis);
    TruncateMonotone(NumBuckets as real * Offset(cb, p, axis), NumBuckets as real * Offset(cb, q, axis));
  }

  /** For a centroid inside a non-flat centroid box, the bucket is the twelfth of the axis
      it falls in, the far face itself belonging to the last bucket. */
  lemma BucketIndexSlice(cb: Box, c: Vec3, axis: Axis)
    requires At(cb.max, axis) - At(cb.min, axis) > 0.0
    requires At(cb.min, axis) <= At(c, axis) <= At(cb.max, axis)
    ensures var b := BucketIndex(cb, c, axis);
            var o := NumBuckets as real * Offset(cb, c, axis);
            (b as real <= o < b as real + 1.0) || (b == NumBuckets - 1 && o == NumBuckets as real)
  {
  }

  /** The union of the bounding boxes of a run of primitives, folded from Box.Empty in
      order. */
  function BoundsOf(s: seq<PrimitiveInfo>): (r: Box)
    ensures forall k :: 0 <= k < |s| ==> Encloses(r, s[k].bounds)
    decreases |s|
  {
    if |s| == 0 then Empty else Combine(BoundsOf(s[..|s| - 1]), s[|s| - 1].bounds)
  }

  /** The union of the centroids of a run of primitives, folded from Box.Empty in order. */
  function CentroidBounds(s: seq<PrimitiveInfo>): (r: Box)
    ensures forall k :: 0 <= k < |s| ==> ContainsPoint(r, s[k].centroid)
    decreases |s|
  {
    if |s| == 0 then Empty else CombinePoint(CentroidBounds(s[..|s| - 1]), s[|s| - 1].centroid)
  }

  /** BoundsOf is the least box enclosing the run (and the empty box). */
  lemma {:induction false} BoundsOfIsLeast(s: seq<PrimitiveInfo>, c: Box)
    requires Encloses(c, Empty)
    requires forall k :: 0 <= k < |s| ==> Encloses(c, s[k].bounds)
    ensures Encloses(c, BoundsOf(s))
    decreases |s|
  {
    if |s| > 0 {
      BoundsOfIsLeast(s[..|s| - 1], c);
      CombineIsLeast(BoundsOf(s[..|s| - 1]), s[|s| - 1].bounds, c);
    }
  }

  /** The twelve empty buckets the bucketing loop starts from. */
  function EmptyBuckets(): (r: seq<BucketInfo>)
    ensures |r| == NumBuckets
    ensures forall b :: 0 <= b < NumBuckets ==> r[b] == BucketInfo(0, Empty)
  {
    seq(NumBuckets, _ => BucketInfo(0, Empty))
  }

  /** The bucket index of every primitive of a run, in order. */
  function BucketsOf(s: seq<PrimitiveInfo>, cb: Box, axis: Axis): (r: seq<int>)
    ensures |r| == |s|
    ensures forall k :: 0 <= k < |s| ==> r[k] == BucketIndex(cb, s[k].centroid, axis)
  {
    seq(|s|, k requires 0 <= k < |s| => BucketIndex(cb, s[k].centroid, axis))
  }

  /** The bounding box of every primitive of a run, in order. */
  function BoxesOf(s: seq<PrimitiveInfo>): (r: seq<Box>)
    ensures |r| == |s|
    ensures forall k :: 0 <= k < |s| ==> r[k] == s[k].bounds
  {
    seq(|s|, k requires 0 <= k < |s| => s[k].bounds)
  }

  /** The bucketing loop over precomputed bucket indices and boxes: each primitive
      increments its bucket's count and grows its bucket's bounds. Each count is the number
      of primitives in that bucket, and each bucket's box encloses their boxes. */
  function Fill(bs: seq<int>, boxes: seq<Box>): (r: seq<BucketInfo>)
    requires |bs| == |boxes|
    requires forall k :: 0 <= k < |bs| ==> 0 <= bs[k] < NumBuckets
    ensures |r| == NumBuckets
    ensures forall b :: 0 <= b < NumBuckets ==> r[b].count == multiset(bs)[b]
    ensures forall k :: 0 <= k < |bs| ==> Encloses(r[bs[k]].bounds, boxes[k])
    decreases |bs|
  {
    if |bs| == 0 then EmptyBuckets()
    else
      var n := |bs| - 1;
      FillNext(bs, boxes, n, Fill(bs[..n], boxes[..n]))
  }

  /** The last iteration of the bucketing loop, after the others have filled `prev`. */
  function FillNext(bs: seq<int>, boxes: seq<Box>, n: int, prev: seq<BucketInfo>): (r: seq<BucketInfo>)
    requires |bs| == |boxes| > 0 && n == |bs| - 1
    requires forall k :: 0 <= k < |bs| ==> 0 <= bs[k] < NumBuckets
    requires |prev| == NumBuckets
    requires forall b :: 0 <= b < NumBuckets ==> prev[b].count == multiset(bs[..n])[b]
    requires forall k :: 0 <= k < |bs[..n]| ==> Encloses(prev[bs[..n][k]].bounds, boxes[..n][k])
    ensures |r| == NumBuckets
    ensures forall b :: 0 <= b < NumBuckets ==> r[b].count == multiset(bs)[b]
    ensures forall k :: 0 <= k < |bs| ==> Encloses(r[bs[k]].bounds, boxes[k])
  {
    assert forall k :: 0 <= k < n ==> Encloses(prev[bs[k]].bounds, boxes[k]) by {
      forall k | 0 <= k < n
        ensures Encloses(prev[bs[k]].bounds, boxes[k])
      {
        assert bs[..n][k] == bs[k] && boxes[..n][k] == boxes[k];
      }
    }
    FillStep(bs, boxes, prev);
    prev[bs[n] := BucketInfo(prev[bs[n]].count + 1, Combine(prev[bs[n]].bounds, boxes[n]))]
  }

  /** One iteration of the bucketing loop keeps the count and enclosure properties. */
  lemma FillStep(bs: seq<int>, boxes: seq<Box>, prev: seq<BucketInfo>)
    requires |bs| == |boxes| > 0
    requires forall k :: 0 <= k < |bs| ==> 0 <= bs[k] < NumBuckets
    requires |prev| == NumBuckets
    requires forall b :: 0 <= b < NumBuckets ==> prev[b].count == multiset(bs[..|bs| - 1])[b]
    requires forall k :: 0 <= k < |bs| - 1 ==> Encloses(prev[bs[k]].bounds, boxes[k])
    ensures var n := |bs| - 1;
            var r := prev[bs[n] := BucketInfo(prev[bs[n]].count + 1, Combine(prev[bs[n]].bounds, boxes[n]))];
            && (forall b :: 0 <= b < NumBuckets ==> r[b].count == multiset(bs)[b])
            && (forall k :: 0 <= k < |bs| ==> Encloses(r[bs[k]].bounds, boxes[k]))
  {
    var n := |bs| - 1;
    var b := bs[n];
    var grown := Combine(prev[b].bounds, boxes[n]);
    var r := prev[b := BucketInfo(prev[b].count + 1, grown)];
    assert bs == bs[..n] + [b];
    forall k | 0 <= k < |bs|
      ensures Encloses(r[bs[k]].bounds, boxes[k])
    {
      if k < n && bs[k] == b {
        EnclosesTransitive(grown, prev[b].bounds, boxes[k]);
      }
    }
  }

  /** The bucketing loop of RecursiveBuild over a run of primitives. */
  function FillBuckets(s: seq<PrimitiveInfo>, cb: Box, axis: Axis): (r: seq<BucketInfo>)
    ensures |r| == NumBuckets
    ensures forall b :: 0 <= b < NumBuckets ==> r[b].count == multiset(BucketsOf(s, cb, axis))[b]
    ensures forall k :: 0 <= k < |s| ==> Encloses(r[BucketIndex(cb, s[k].centroid, axis)].bounds, s[k].bounds)
  {
    Fill(BucketsOf(s, cb, axis), BoxesOf(s))
  }

  /** The sum of the counts of buckets [lo, hi). */
  function SumCounts(buckets: seq<BucketInfo>, lo: int, hi: int): nat
    requires 0 <= lo <= hi <= |buckets|
    decreases hi - lo
  {
    if lo == hi then 0 else SumCounts(buckets, lo, hi - 1) + buckets[hi - 1].count
  }

  lemma {:induction false} SumCountsSplit(buckets: seq<BucketInfo>, lo: int, mid: int, hi: int)
    requires 0 <= lo <= mid <= hi <= |buckets|
    ensures SumCounts(buckets, lo, hi) == SumCounts(buckets, lo, mid) + SumCounts(buckets, mid, hi)
    decreases hi - mid
  {
    if hi > mid {
      SumCountsSplit(buckets, lo, mid, hi - 1);
    }
  }

  /** Replacing one bucket changes the sum of a range holding it by the change in its
      count, and leaves the sum of a range without it alone. */
  lemma {:induction false} SumCountsUpdate(buckets: seq<BucketInfo>, b: int, x: BucketInfo, lo: int, hi: int)
    requires 0 <= b < |buckets| && 0 <= lo <= hi <= |buckets|
    ensures SumCounts(buckets[b := x], lo, hi)
            == SumCounts(buckets, lo, hi) + (if lo <= b < hi then x.count - buckets[b].count else 0)
    decreases hi - lo
  {
    if lo < hi {
      SumCountsUpdate(buckets, b, x, lo, hi - 1);
    }
  }

  /** Every primitive is counted in exactly one bucket. */
  lemma {:induction false} FillTotal(bs: seq<int>, boxes: seq<Box>)
    requires |bs| == |boxes|
    requires forall k :: 0 <= k < |bs| ==> 0 <= bs[k] < NumBuckets
    ensures SumCounts(Fill(bs, boxes), 0, NumBuckets) == |bs|
    decreases |bs|
  {
    if |bs| == 0 {
      var e := EmptyBuckets();
      EmptySum(e, NumBuckets);
    } else {
      var n := |bs| - 1;
      var prev := Fill(bs[..n], boxes[..n]);
      var b := bs[n];
      var x := BucketInfo(prev[b].count + 1, Combine(prev[b].bounds, boxes[n]));
      assert Fill(bs, boxes) == prev[b := x];
      FillTotal(bs[..n], boxes[..n]);
      SumCountsUpdate(prev, b, x, 0, NumBuckets);
    }
  }

  /** The bucket counts of a run add up to its length. */
  lemma FillBucketsTotal(s: seq<PrimitiveInfo>, cb: Box, axis: Axis)
    ensures SumCounts(FillBuckets(s, cb, axis), 0, NumBuckets) == |s|
  {
    FillTotal(BucketsOf(s, cb, axis), BoxesOf(s));
  }

  lemma {:induction false} EmptySum(e: seq<BucketInfo>, hi: int)
    requires 0 <= hi <= |e|
    requires forall b :: 0 <= b < |e| ==> e[b].count == 0
    ensures SumCounts(e, 0, hi) == 0
    decreases hi
  {
    if hi > 0 {
      EmptySum(e, hi - 1);
    }
  }

  /** The union of the boxes of buckets [lo, hi), folded from Box.Empty in order. */
  function BucketUnion(buckets: seq<BucketInfo>, lo: int, hi: int): (r: Box)
    requires 0 <= lo <= hi <= |buckets|
    ensures forall j :: lo <= j < hi ==> Encloses(r, buckets[j].bounds)
    decreases hi - lo
  {
    if lo == hi then Empty else Combine(BucketUnion(buckets, lo, hi - 1), buckets[hi - 1].bounds)
  }

  /** The surface area costs are divided by: the area of the node's box, or 1 when that
      area is not positive. */
  function CostArea(totalBounds: Box): (r: real)
    ensures r > 0.0
    ensures SurfaceArea(totalBounds) > 0.0 ==> r == SurfaceArea(totalBounds)
  {
    var area := SurfaceArea(totalBounds);
    if area <= 0.0 then 1.0 else area
  }

  /** The cost of splitting after bucket i: 0.1 for the traversal step plus each side's
      primitive count weighted by its surface area relative to the node's. */
  function SplitCost(buckets: seq<BucketInfo>, i: int, area: real): (r: real)
    requires |buckets| == NumBuckets && 0 <= i < NumBuckets - 1 && area > 0.0
    ensures r >= 0.1
    ensures SumCounts(buckets, 0, NumBuckets) == 0 ==> r == 0.1
  {
    var count0 := SumCounts(buckets, 0, i + 1);
    var count1 := SumCounts(buckets, i + 1, NumBuckets);
    var sa0 := SurfaceArea(BucketUnion(buckets, 0, i + 1));
    var sa1 := SurfaceArea(BucketUnion(buckets, i + 1, NumBuckets));
    var weighted := WeightedArea(count0, sa0, count1, sa1, area);
    assert SumCounts(buckets, 0, NumBuckets) == 0 ==> count0 == 0 && count1 == 0 by {
      SumCountsSplit(buckets, 0, i + 1, NumBuckets);
    }
    0.1 + weighted
  }

  /** The expected intersection cost of a split: each side's count times its area, over the
      node's area. */
  function WeightedArea(count0: nat, sa0: real, count1: nat, sa1: real, area: real): (r: real)
    requires sa0 >= 0.0 && sa1 >= 0.0 && area > 0.0
    ensures r >= 0.0
    ensures count0 == 0 && count1 == 0 ==> r == 0.0
  {
    WeightedAreaNonnegative(count0 as real, sa0, count1 as real, sa1, area);
    (count0 as real * sa0 + count1 as real * sa1) / area
  }

  lemma WeightedAreaNonnegative(c0: real, a0: real, c1: real, a1: real, area: real)
    requires c0 >= 0.0 && a0 >= 0.0 && c1 >= 0.0 && a1 >= 0.0 && area > 0.0
    ensures (c0 * a0 + c1 * a1) / area >= 0.0
    ensures c0 == 0.0 && c1 == 0.0 ==> (c0 * a0 + c1 * a1) / area == 0.0
  {
    assert c0 * a0 >= 0.0 && c1 * a1 >= 0.0;
  }

  /** The two sides of every candidate split together hold every bucketed primitive. */
  lemma SplitSidesCoverAll(buckets: seq<BucketInfo>, i: int)
    requires |buckets| == NumBuckets && 0 <= i < NumBuckets - 1
    ensures SumCounts(buckets, 0, i + 1) + SumCounts(buckets, i + 1, NumBuckets)
            == SumCounts(buckets, 0, NumBuckets)
  {
    SumCountsSplit(buckets, 0, i + 1, NumBuckets);
  }

  /** The eleven candidate split costs. */
  function Costs(buckets: seq<BucketInfo>, area: real): (r: seq<real>)
    requires |buckets| == NumBuckets && area > 0.0
    ensures |r| == NumBuckets - 1
    ensures forall i :: 0 <= i < |r| ==> r[i] == SplitCost(buckets, i, area) && r[i] >= 0.1
  {
    seq(NumBuckets - 1, i requires 0 <= i < NumBuckets - 1 => SplitCost(buckets, i, area))
  }

  /** The first position of a least cost: every cost is at least the one there, and every
      earlier cost is strictly greater. */
  function FirstMinIndex(costs: seq<real>): (r: int)
    requires |costs| >= 1
    ensures 0 <= r < |costs|
    ensures forall j :: 0 <= j < |costs| ==> costs[r] <= costs[j]
    ensures forall j :: 0 <= j < r ==> costs[r] < costs[j]
    decreases |costs|
  {
    if |costs| == 1 then 0
    else
      var b := FirstMinIndex(costs[..|costs| - 1]);
      assert forall j :: 0 <= j < |costs| - 1 ==> costs[..|costs| - 1][j] == costs[j];
      if costs[|costs| - 1] < costs[b] then |costs| - 1 else b
  }

  /** Only one position is the first of a least cost. */
  lemma FirstMinUnique(costs: seq<real>, b: int)
    requires 0 <= b < |costs|
    requires forall j :: 0 <= j < |costs| ==> costs[b] <= costs[j]
    requires forall j :: 0 <= j < b ==> costs[b] < costs[j]
    ensures b == FirstMinIndex(costs)
  {
  }

  /** The scan for the cheapest split: the first bucket of minimal cost, since only a
      strictly smaller cost replaces the current choice. */
  method MinCostSplit(costs: seq<real>) returns (minCost: real, bucket: int)
    requires |costs| >= 1
    ensures 0 <= bucket < |costs| && minCost == costs[bucket]
    ensures forall j :: 0 <= j < |costs| ==> minCost <= costs[j]
    ensures forall j :: 0 <= j < bucket ==> minCost < costs[j]
    ensures bucket == FirstMinIndex(costs)
  {
    minCost := costs[0];
    bucket := 0;
    var i := 1;
    while i < |costs|
      invariant 1 <= i <= |costs|
      invariant 0 <= bucket < i && minCost == costs[bucket]
      invariant forall j :: 0 <= j < i ==> minCost <= costs[j]
      invariant forall j :: 0 <= j < bucket ==> minCost < costs[j]
    {
      if costs[i] < minCost {
        minCost := costs[i];
        bucket := i;
      }
      i := i + 1;
    }
    FirstMinUnique(costs, bucket);
  }

  /** The in-place partition of [start, end): the elements satisfying `pred` are swapped to
      the front of the range, and the returned index is the first element that fails it.
      Outside the range nothing moves; inside, the elements are permuted. */
  method Partition<T>(data: seq<T>, start: int, end: int, pred: T -> bool) returns (r: seq<T>, mid: int)
    requires 0 <= start <= end <= |data|
    ensures |r| == |data| && start <= mid <= end
    ensures forall k :: 0 <= k < start || end <= k < |data| ==> r[k] == data[k]
    ensures multiset(r[start..end]) == multiset(data[start..end])
    ensures multiset(r) == multiset(data)
    ensures forall k :: start <= k < mid ==> pred(r[k])
    ensures forall k :: mid <= k < end ==> !pred(r[k])
  {
    r := data;
    var i := start;
    var j := start;
    while j < end
      invariant start <= i <= j <= end
      invariant |r| == |data|
      invariant forall k :: 0 <= k < start || j <= k < |data| ==> r[k] == data[k]
      invariant multiset(r) == multiset(data)
      invariant forall k :: start <= k < i ==> pred(r[k])
      invariant forall k :: i <= k < j ==> !pred(r[k])
    {
      if pred(r[j]) {
        SwapPermutes(r, i, j);
        r := r[i := r[j]][j := r[i]];
        i := i + 1;
      }
      j := j + 1;
    }
    mid := i;
    RangePermutes(r, data, start, end);
  }

  /** Swapping two positions permutes a sequence. */
  lemma SwapPermutes<T>(s: seq<T>, i: int, j: int)
    requires 0 <= i <= j < |s|
    ensures multiset(s[i := s[j]][j := s[i]]) == multiset(s)
  {
  }

  /** Two permutations of each other that agree outside [start, end) are permutations of
      each other inside it. */
  lemma RangePermutes<T>(a: seq<T>, b: seq<T>, start: int, end: int)
    requires |a| == |b| && 0 <= start <= end <= |a|
    requires multiset(a) == multiset(b)
    requires forall k :: 0 <= k < start || end <= k < |a| ==> a[k] == b[k]
    ensures multiset(a[start..end]) == multiset(b[start..end])
  {
    assert a[..start] == b[..start];
    assert a[end..] == b[end..];
    ThreeParts(a, start, end);
    ThreeParts(b, start, end);
    AddCancel(multiset(a[start..end]), multiset(b[start..end]), multiset(a[..start]) + multiset(a[end..]));
  }

  /** A sequence's multiset is the sum of those of its prefix, middle and suffix. */
  lemma ThreeParts<T>(a: seq<T>, start: int, end: int)
    requires 0 <= start <= end <= |a|
    ensures multiset(a) == multiset(a[start..end]) + (multiset(a[..start]) + multiset(a[end..]))
  {
    assert a == a[..start] + a[start..end] + a[end..];
  }

  /** Multiset addition cancels. */
  lemma AddCancel<T>(x: multiset<T>, y: multiset<T>, o: multiset<T>)
    requires x + o == y + o
    ensures x == y
  {
    forall e
      ensures x[e] == y[e]
    {
      assert (x + o)[e] == (y + o)[e];
    }
  }

  /** CreateLeafNode: a leaf over primitives [start, start + count), child indices 0. */
  function LeafNode(bounds: Box, start: int, count: int): CpuBvhNode {
    CpuBvhNode(bounds, 0, 0, count, start)
  }

  /** The first primitive of the leftmost leaf reached by always descending left, which in
      the depth-first layout is the next node. */
  function LeftmostFirst(ns: seq<CpuBvhNode>): int
    decreases |ns|
  {
    if |ns| == 0 then 0
    else if ns[0].primitiveCount > 0 then ns[0].firstPrimitive
    else LeftmostFirst(ns[1..])
  }

  /** `ns` is the depth-first layout of a tree built over primitives [start, end) whose
      root sits at array index `base`:
      - every node's box encloses the boxes of all primitives of its range;
      - a leaf is the single node CreateLeafNode(bounds, start, end - start);
      - an interior node covers more than `cap` primitives, has count 0 and first 0, its
        left child is the next node, its right child follows the whole left subtree, and
        the two subtrees cover [start, mid) and [mid, end) for some start < mid < end. */
  predicate Subtree(ns: seq<CpuBvhNode>, base: int, start: int, end: int, cap: int, boxes: seq<Box>)
    decreases |ns|
  {
    && 0 <= start < end <= |boxes|
    && |ns| >= 1
    && (forall k :: start <= k < end ==> Encloses(ns[0].bounds, boxes[k]))
    && if ns[0].primitiveCount > 0 then
         |ns| == 1 && ns[0] == LeafNode(ns[0].bounds, start, end - start)
       else
         var k := ns[0].rightChild - base;
         && end - start > cap
         && ns[0].leftChild == base + 1 && ns[0].firstPrimitive == 0 && ns[0].primitiveCount == 0
         && 1 < k < |ns|
         && start < LeftmostFirst(ns[k..]) < end
         && Subtree(ns[1..k], base + 1, start, LeftmostFirst(ns[k..]), cap, boxes)
         && Subtree(ns[k..], base + k, LeftmostFirst(ns[k..]), end, cap, boxes)
  }

  /** A subtree only depends on the boxes of its own range. */
  lemma {:induction false} SubtreeFrame(ns: seq<CpuBvhNode>, base: int, start: int, end: int, cap: int,
                                        boxes: seq<Box>, boxes2: seq<Box>)
    requires Subtree(ns, base, start, end, cap, boxes)
    requires end <= |boxes2|
    requires forall k :: start <= k < end ==> boxes2[k] == boxes[k]
    ensures Subtree(ns, base, start, end, cap, boxes2)
    decreases |ns|
  {
    if ns[0].primitiveCount <= 0 {
      var k := ns[0].rightChild - base;
      var mid := LeftmostFirst(ns[k..]);
      SubtreeFrame(ns[1..k], base + 1, start, mid, cap, boxes, boxes2);
      SubtreeFrame(ns[k..], base + k, mid, end, cap, boxes, boxes2);
    }
  }

  /** The leftmost leaf of a subtree starts its range, whatever follows the subtree. */
  lemma {:induction false} SubtreeLeftmost(ns: seq<CpuBvhNode>, tail: seq<CpuBvhNode>, base: int,
                                           start: int, end: int, cap: int, boxes: seq<Box>)
    requires Subtree(ns, base, start, end, cap, boxes)
    ensures LeftmostFirst(ns + tail) == start
    decreases |ns|
  {
    if ns[0].primitiveCount <= 0 {
      var k := ns[0].rightChild - base;
      var mid := LeftmostFirst(ns[k..]);
      assert (ns + tail)[1..] == ns[1..k] + (ns[k..] + tail);
      SubtreeLeftmost(ns[1..k], ns[k..] + tail, base + 1, start, mid, cap, boxes);
    }
  }

  /** `r` is `infos` with [start, end) permuted and everything else in place. */
  ghost predicate PermutesRange(r: seq<PrimitiveInfo>, infos: seq<PrimitiveInfo>, start: int, end: int)
  {
    && |r| == |infos|
    && 0 <= start <= end <= |infos|
    && (forall k :: 0 <= k < start || end <= k < |infos| ==> r[k] == infos[k])
    && multiset(r) == multiset(infos)
  }

  /** A property of every primitive of a range still holds of every primitive after the
      range is permuted. */
  lemma AllAfterPermute(r: seq<PrimitiveInfo>, infos: seq<PrimitiveInfo>, start: int, end: int,
                        P: PrimitiveInfo -> bool)
    requires PermutesRange(r, infos, start, end)
    requires forall j :: start <= j < end ==> P(infos[j])
    ensures forall k :: start <= k < end ==> P(r[k])
  {
    RangePermutes(r, infos, start, end);
    forall k | start <= k < end
      ensures P(r[k])
    {
      assert r[start..end][k - start] == r[k];
      assert r[k] in multiset(infos[start..end]);
      var j :| 0 <= j < end - start && infos[start..end][j] == r[k];
      assert infos[start + j] == r[k];
    }
  }

  /** A box that encloses every primitive of a range still does after the range is
      permuted. */
  lemma EnclosedAfterPermute(r: seq<PrimitiveInfo>, infos: seq<PrimitiveInfo>, start: int, end: int, box: Box)
    requires PermutesRange(r, infos, start, end)
    requires forall j :: start <= j < end ==> Encloses(box, infos[j].bounds)
    ensures forall k :: start <= k < end ==> Encloses(box, r[k].bounds)
  {
    AllAfterPermute(r, infos, start, end, (p: PrimitiveInfo) => Encloses(box, p.bounds));
  }

  /** Permuting within [start, mid) and then within [mid, end) permutes [start, end). */
  lemma PermutesRangeCompose(a: seq<PrimitiveInfo>, b: seq<PrimitiveInfo>, c: seq<PrimitiveInfo>,
                             start: int, mid: int, end: int, lo: int, hi: int)
    requires start <= lo <= hi <= end
    requires PermutesRange(b, a, start, end) && PermutesRange(c, b, lo, hi)
    ensures PermutesRange(c, a, start, end)
  {
  }

  /** A single leaf over [start, end) is a subtree when its box encloses the range. */
  lemma LeafSubtree(infos: seq<PrimitiveInfo>, start: int, end: int, base: int, cap: int, box: Box)
    requires 0 <= start < end <= |infos|
    requires forall j :: start <= j < end ==> Encloses(box, infos[j].bounds)
    ensures Subtree([LeafNode(box, start, end - start)], base, start, end, cap, BoxesOf(infos))
  {
  }

  /** An interior root followed by the layouts of its two subtrees is a subtree. */
  lemma InteriorSubtree(left: seq<CpuBvhNode>, right: seq<CpuBvhNode>, base: int, start: int, mid: int,
                        end: int, cap: int, boxes: seq<Box>, box: Box)
    requires Subtree(left, base + 1, start, mid, cap, boxes)
    requires Subtree(right, base + 1 + |left|, mid, end, cap, boxes)
    requires end - start > cap
    requires forall j :: start <= j < end ==> Encloses(box, boxes[j])
    ensures Subtree([CpuBvhNode(box, base + 1, base + 1 + |left|, 0, 0)] + left + right,
                    base, start, end, cap, boxes)
  {
    var nodes := [CpuBvhNode(box, base + 1, base + 1 + |left|, 0, 0)] + left + right;
    var k := 1 + |left|;
    assert nodes[1..k] == left;
    assert nodes[k..] == right;
    SubtreeLeftmost(right, [], base + 1 + |left|, mid, end, cap, boxes);
    assert right + [] == right;
  }

  /** The interior case of RecursiveBuild: partition, build left, build right, and put an
      interior root in front of the two layouts. */
  lemma InteriorStep(infos: seq<PrimitiveInfo>, parted: seq<PrimitiveInfo>, r1: seq<PrimitiveInfo>,
                     r2: seq<PrimitiveInfo>, left: seq<CpuBvhNode>, right: seq<CpuBvhNode>,
                     base: int, start: int, mid: int, end: int, cap: int, box: Box)
    requires start < mid < end && end - start > cap
    requires PermutesRange(parted, infos, start, end)
    requires forall j :: start <= j < end ==> Encloses(box, infos[j].bounds)
    requires PermutesRange(r1, parted, start, mid)
    requires PermutesRange(r2, r1, mid, end)
    requires Subtree(left, base + 1, start, mid, cap, BoxesOf(r1))
    requires Subtree(right, base + 1 + |left|, mid, end, cap, BoxesOf(r2))
    ensures PermutesRange(r2, infos, start, end)
    ensures Subtree([CpuBvhNode(box, base + 1, base + 1 + |left|, 0, 0)] + left + right,
                    base, start, end, cap, BoxesOf(r2))
  {
    PermutesRangeCompose(infos, parted, r1, start, mid, end, start, mid);
    PermutesRangeCompose(infos, r1, r2, start, mid, end, mid, end);
    EnclosedAfterPermute(r2, infos, start, end, box);
    SubtreeFrame(left, base + 1, start, mid, cap, BoxesOf(r1), BoxesOf(r2));
    InteriorSubtree(left, right, base, start, mid, end, cap, BoxesOf(r2), box);
  }

  /** The split RecursiveBuild settles on: the centroid bounds of the range, the axis of
      their largest extent, the last bucket of the left side and that split's cost. */
  datatype SplitChoice = SplitChoice(centroidBounds: Box, axis: Axis, bucket: int, cost: real)

  /** The eleven candidate costs of a run whose node box is `totalBounds`, bucketed along
      the longest axis of the centroid bounds. */
  function RunCosts(run: seq<PrimitiveInfo>, totalBounds: Box): (r: seq<real>)
    ensures |r| == NumBuckets - 1
  {
    var cb := CentroidBounds(run);
    Costs(FillBuckets(run, cb, MaxExtentAxis(cb)), CostArea(totalBounds))
  }

  /** The surface area heuristic declines to split: the centroids are spread less than
      `eps` along the longest axis, or no split costs less than the leaf cost, which is
      the number of primitives. */
  predicate NoSplit(run: seq<PrimitiveInfo>, totalBounds: Box, eps: real) {
    SpreadBelow(run, eps) || NoCheaperSplit(run, totalBounds)
  }

  /** The centroids are spread less than `eps` along their longest axis. */
  predicate SpreadBelow(run: seq<PrimitiveInfo>, eps: real) {
    var cb := CentroidBounds(run);
    At(Size(cb), MaxExtentAxis(cb)) < eps
  }

  /** No bucket split costs less than the leaf cost. */
  predicate NoCheaperSplit(run: seq<PrimitiveInfo>, totalBounds: Box) {
    forall j :: 0 <= j < NumBuckets - 1 ==> RunCosts(run, totalBounds)[j] >= |run| as real
  }

  /** The bucket a split ends its left side with: the first of least cost. */
  function ChosenBucket(run: seq<PrimitiveInfo>, totalBounds: Box): int {
    FirstMinIndex(RunCosts(run, totalBounds))
  }

  /** The surface area heuristic for a range holding more than the leaf capacity. There is
      a split exactly when the centroids are spread at least `eps` along the chosen axis and
      the cheapest of the eleven bucket splits costs less than the leaf cost, which is the
      number of primitives; the split chosen is the first of minimal cost. */
  method ChooseSplit(run: seq<PrimitiveInfo>, totalBounds: Box, eps: real) returns (choice: Option<SplitChoice>)
    ensures choice.None? <==> NoSplit(run, totalBounds, eps)
    ensures choice.Some? ==>
      && choice.value.centroidBounds == CentroidBounds(run)
      && choice.value.axis == MaxExtentAxis(CentroidBounds(run))
      && choice.value.bucket == ChosenBucket(run, totalBounds)
      && choice.value.cost == RunCosts(run, totalBounds)[choice.value.bucket] < |run| as real
  {
    var cb := CentroidBounds(run);
    var axis := MaxExtentAxis(cb);
    if At(Size(cb), axis) < eps {
      return None;
    }
    var minCost, split := CheapestSplit(run, totalBounds);
    if minCost < |run| as real {
      choice := Some(SplitChoice(cb, axis, split, minCost));
    } else {
      choice := None;
    }
  }

  /** The first bucket split of least cost, and whether no split beats the leaf cost. */
  method CheapestSplit(run: seq<PrimitiveInfo>, totalBounds: Box) returns (minCost: real, split: int)
    ensures split == ChosenBucket(run, totalBounds) && 0 <= split < NumBuckets - 1
    ensures minCost == RunCosts(run, totalBounds)[split]
    ensures NoCheaperSplit(run, totalBounds) <==> minCost >= |run| as real
  {
    var costs := RunCosts(run, totalBounds);
    minCost, split := MinCostSplit(costs);
    NoSplitByMinimum(run, totalBounds, minCost, split);
  }

  /** No split beats the leaf cost exactly when the least cost does not. */
  lemma NoSplitByMinimum(run: seq<PrimitiveInfo>, totalBounds: Box, minCost: real, split: int)
    requires 0 <= split < NumBuckets - 1 && minCost == RunCosts(run, totalBounds)[split]
    requires forall j :: 0 <= j < NumBuckets - 1 ==> minCost <= RunCosts(run, totalBounds)[j]
    ensures NoCheaperSplit(run, totalBounds) <==> minCost >= |run| as real
  {
  }

  /** Every primitive of [lo, hi) in `r` is bucketed at or below `split` (`left`), or every
      one above it (not `left`). */
  predicate Side(r: seq<PrimitiveInfo>, lo: int, hi: int, cb: Box, axis: Axis, split: int, left: bool) {
    && 0 <= lo <= hi <= |r|
    && forall k :: lo <= k < hi ==> (BucketIndex(cb, r[k].centroid, axis) <= split) == left
  }

  /** [start, mid) and [mid, end) are the two sides of a bucket split of `r`: either the
      primitives bucketed at or below `split` come first and the others after, or every
      primitive falls on one side and the range is cut in the middle instead. */
  predicate SplitsBy(r: seq<PrimitiveInfo>, start: int, mid: int, end: int, cb: Box, axis: Axis, split: int) {
    && 0 <= start < mid < end <= |r|
    && (|| (Side(r, start, mid, cb, axis, split, true) && Side(r, mid, end, cb, axis, split, false))
        || (&& mid == start + (end - start) / 2
            && (Side(r, start, end, cb, axis, split, true) || Side(r, start, end, cb, axis, split, false))))
  }

  /** The split step of RecursiveBuild: partition [start, end) into the primitives whose
      centroid bucket is at most `split` and the rest, falling back to the middle of the
      range when either side would be empty. */
  method SplitRange(infos: seq<PrimitiveInfo>, start: int, end: int, cb: Box, axis: Axis, split: int)
    returns (parted: seq<PrimitiveInfo>, mid: int)
    requires 0 <= start && start + 2 <= end <= |infos|
    ensures PermutesRange(parted, infos, start, end)
    ensures SplitsBy(parted, start, mid, end, cb, axis, split)
  {
    var pred := (p: PrimitiveInfo) => BucketIndex(cb, p.centroid, axis) <= split;
    parted, mid := Partition(infos, start, end, pred);
    if mid == start || mid == end {
      mid := start + (end - start) / 2;
    }
  }

  /** Permuting each side of a split within itself keeps it a split. */
  lemma SplitsByAfterChildren(parted: seq<PrimitiveInfo>, r1: seq<PrimitiveInfo>, r2: seq<PrimitiveInfo>,
                              start: int, mid: int, end: int, cb: Box, axis: Axis, split: int)
    requires SplitsBy(parted, start, mid, end, cb, axis, split)
    requires PermutesRange(r1, parted, start, mid)
    requires PermutesRange(r2, r1, mid, end)
    ensures SplitsBy(r2, start, mid, end, cb, axis, split)
  {
    if Side(parted, start, mid, cb, axis, split, true) && Side(parted, mid, end, cb, axis, split, false) {
      SideKept(parted, r1, r2, start, mid, end, cb, axis, split, true);
    } else {
      var left := Side(parted, start, end, cb, axis, split, true);
      SideHalves(parted, start, mid, end, cb, axis, split, left);
      SideKept(parted, r1, r2, start, mid, end, cb, axis, split, left);
      SideHalves(r2, start, mid, end, cb, axis, split, left);
    }
  }

  /** Side `left` of [start, mid) and side `!left` of [mid, end) survive permuting first
      the one and then the other range... */
  lemma SideKept(parted: seq<PrimitiveInfo>, r1: seq<PrimitiveInfo>, r2: seq<PrimitiveInfo>,
                 start: int, mid: int, end: int, cb: Box, axis: Axis, split: int, left: bool)
    requires PermutesRange(r1, parted, start, mid) && PermutesRange(r2, r1, mid, end)
    requires Side(parted, start, mid, cb, axis, split, left)
    requires Side(parted, mid, end, cb, axis, split, left) || Side(parted, mid, end, cb, axis, split, !left)
    ensures Side(r2, start, mid, cb, axis, split, left)
    ensures Side(parted, mid, end, cb, axis, split, left) ==> Side(r2, mid, end, cb, axis, split, left)
    ensures Side(parted, mid, end, cb, axis, split, !left) ==> Side(r2, mid, end, cb, axis, split, !left)
  {
    SidePermuted(r1, parted, start, mid, start, mid, cb, axis, split, left);
    SidePermuted(r2, r1, mid, end, start, mid, cb, axis, split, left);
    if Side(parted, mid, end, cb, axis, split, left) {
      SidePermuted(r1, parted, start, mid, mid, end, cb, axis, split, left);
      SidePermuted(r2, r1, mid, end, mid, end, cb, axis, split, left);
    }
    if Side(parted, mid, end, cb, axis, split, !left) {
      SidePermuted(r1, parted, start, mid, mid, end, cb, axis, split, !left);
      SidePermuted(r2, r1, mid, end, mid, end, cb, axis, split, !left);
    }
  }

  /** ... because permuting a range keeps a side that is that range or lies outside it. */
  lemma SidePermuted(r: seq<PrimitiveInfo>, infos: seq<PrimitiveInfo>, start: int, end: int,
                     lo: int, hi: int, cb: Box, axis: Axis, split: int, left: bool)
    requires PermutesRange(r, infos, start, end)
    requires Side(infos, lo, hi, cb, axis, split, left)
    requires (lo == start && hi == end) || hi <= start || end <= lo
    ensures Side(r, lo, hi, cb, axis, split, left)
  {
    if lo == start && hi == end {
      AllAfterPermute(r, infos, start, end, (p: PrimitiveInfo) => (BucketIndex(cb, p.centroid, axis) <= split) == left);
    }
  }

  /** A range is on one side exactly when both of its halves are. */
  lemma SideHalves(r: seq<PrimitiveInfo>, lo: int, mid: int, hi: int, cb: Box, axis: Axis, split: int, left: bool)
    requires 0 <= lo <= mid <= hi <= |r|
    ensures Side(r, lo, hi, cb, axis, split, left)
        <==> Side(r, lo, mid, cb, axis, split, left) && Side(r, mid, hi, cb, axis, split, left)
  {
  }

  /** The first primitive of an interior root's right subtree: where its range is split. */
  function SplitPoint(nodes: seq<CpuBvhNode>, base: int): int {
    if |nodes| == 0 then 0
    else
      var k := nodes[0].rightChild - base;
      if 0 <= k <= |nodes| then LeftmostFirst(nodes[k..]) else 0
  }

  /** RecursiveBuild over primitives [start, end), whose root will sit at array index
      `base`. It returns the primitive array with that range reordered and the nodes of the
      subtree in depth-first order (root, left subtree, right subtree). */
  method RecursiveBuild(infos: seq<PrimitiveInfo>, start: int, end: int, base: int, cap: int, eps: real)
    returns (r: seq<PrimitiveInfo>, nodes: seq<CpuBvhNode>)
    requires 0 <= start < end <= |infos| && cap >= 1
    ensures PermutesRange(r, infos, start, end)
    ensures Subtree(nodes, base, start, end, cap, BoxesOf(r))
    ensures |nodes| >= 1 && nodes[0].bounds == BoundsOf(infos[start..end])
    ensures nodes[0].primitiveCount > 0 <==>
      end - start <= cap || NoSplit(infos[start..end], BoundsOf(infos[start..end]), eps)
    ensures nodes[0].primitiveCount == 0 ==>
      var run := infos[start..end];
      SplitsBy(r, start, SplitPoint(nodes, base), end, CentroidBounds(run), MaxExtentAxis(CentroidBounds(run)),
               ChosenBucket(run, BoundsOf(run)))
    decreases end - start, 1
  {
    var totalBounds := BoundsOf(infos[start..end]);
    assert forall j :: start <= j < end ==> Encloses(totalBounds, infos[j].bounds) by {
      forall j | start <= j < end
        ensures Encloses(totalBounds, infos[j].bounds)
      {
        assert infos[start..end][j - start] == infos[j];
      }
    }
    var count := end - start;
    var leaf := LeafNode(totalBounds, start, count);
    LeafSubtree(infos, start, end, base, cap, totalBounds);
    if count <= cap {
      return infos, [leaf];
    }
    var choice := ChooseSplit(infos[start..end], totalBounds, eps);
    if choice.Some? {
      var c := choice.value;
      r, nodes := BuildChildren(infos, start, end, base, cap, eps, totalBounds, c.centroidBounds, c.axis, c.bucket);
    } else {
      return infos, [leaf];
    }
  }

  /** The interior case of RecursiveBuild: split the range, build the left subtree right
      after the root and the right subtree after the left one, and put an interior root
      holding the range's box in front. */
  method BuildChildren(infos: seq<PrimitiveInfo>, start: int, end: int, base: int, cap: int, eps: real,
                       totalBounds: Box, cb: Box, axis: Axis, bucket: int)
    returns (r: seq<PrimitiveInfo>, nodes: seq<CpuBvhNode>)
    requires 0 <= start < end <= |infos| && cap >= 1 && end - start > cap
    requires forall j :: start <= j < end ==> Encloses(totalBounds, infos[j].bounds)
    ensures PermutesRange(r, infos, start, end)
    ensures Subtree(nodes, base, start, end, cap, BoxesOf(r))
    ensures |nodes| >= 1 && nodes[0] == CpuBvhNode(totalBounds, base + 1, nodes[0].rightChild, 0, 0)
    ensures SplitsBy(r, start, SplitPoint(nodes, base), end, cb, axis, bucket)
    decreases end - start, 0
  {
    var parted, mid := SplitRange(infos, start, end, cb, axis, bucket);
    var r1, leftNodes := BuildSide(parted, start, mid, base + 1, cap, eps);
    var r2, rightNodes := BuildSide(r1, mid, end, base + 1 + |leftNodes|, cap, eps);
    InteriorStep(infos, parted, r1, r2, leftNodes, rightNodes, base, start, mid, end, cap, totalBounds);
    SplitsByAfterChildren(parted, r1, r2, start, mid, end, cb, axis, bucket);
    r := r2;
    nodes := [CpuBvhNode(totalBounds, base + 1, base + 1 + |leftNodes|, 0, 0)] + leftNodes + rightNodes;
    InteriorSplitPoint(totalBounds, leftNodes, rightNodes, base, mid, end, cap, BoxesOf(r2));
  }

  /** One child of an interior node: RecursiveBuild seen only through the layout facts the
      parent needs. */
  method BuildSide(infos: seq<PrimitiveInfo>, start: int, end: int, base: int, cap: int, eps: real)
    returns (r: seq<PrimitiveInfo>, nodes: seq<CpuBvhNode>)
    requires 0 <= start < end <= |infos| && cap >= 1
    ensures PermutesRange(r, infos, start, end)
    ensures Subtree(nodes, base, start, end, cap, BoxesOf(r))
    decreases end - start, 2
  {
    r, nodes := RecursiveBuild(infos, start, end, base, cap, eps);
  }

  /** The split point read back from an interior root is where its right subtree starts. */
  lemma InteriorSplitPoint(totalBounds: Box, leftNodes: seq<CpuBvhNode>, rightNodes: seq<CpuBvhNode>,
                           base: int, mid: int, end: int, cap: int, boxes: seq<Box>)
    requires Subtree(rightNodes, base + 1 + |leftNodes|, mid, end, cap, boxes)
    ensures SplitPoint([CpuBvhNode(totalBounds, base + 1, base + 1 + |leftNodes|, 0, 0)] + leftNodes + rightNodes, base) == mid
  {
    var nodes := [CpuBvhNode(totalBounds, base + 1, base + 1 + |leftNodes|, 0, 0)] + leftNodes + rightNodes;
    assert nodes[1 + |leftNodes|..] == rightNodes + [];
    SubtreeLeftmost(rightNodes, [], base + 1 + |leftNodes|, mid, end, cap, boxes);
  }

  /** The number of leaves in a node array. */
  function LeafCount(ns: seq<CpuBvhNode>): nat
    decreases |ns|
  {
    if |ns| == 0 then 0 else LeafCount(ns[..|ns| - 1]) + (if ns[|ns| - 1].primitiveCount > 0 then 1 else 0)
  }

  lemma {:induction false} LeafCountConcat(a: seq<CpuBvhNode>, b: seq<CpuBvhNode>)
    ensures LeafCount(a + b) == LeafCount(a) + LeafCount(b)
    decreases |b|
  {
    if |b| > 0 {
      assert (a + b)[..|a + b| - 1] == a + b[..|b| - 1];
      LeafCountConcat(a, b[..|b| - 1]);
    } else {
      assert a + b == a;
    }
  }

  /** A tree over n primitives has L leaves, 1 <= L <= n, and exactly 2L - 1 nodes, so the
      node array never exceeds 2n - 1 entries. */
  lemma {:induction false} SubtreeNodeCount(ns: seq<CpuBvhNode>, base: int, start: int, end: int, cap: int, boxes: seq<Box>)
    requires Subtree(ns, base, start, end, cap, boxes)
    ensures |ns| == 2 * LeafCount(ns) - 1
    ensures 1 <= LeafCount(ns) <= end - start
    decreases |ns|
  {
    if ns[0].primitiveCount > 0 {
      assert ns[..0] == [];
    } else {
      var k := ns[0].rightChild - base;
      var mid := LeftmostFirst(ns[k..]);
      SubtreeNodeCount(ns[1..k], base + 1, start, mid, cap, boxes);
      SubtreeNodeCount(ns[k..], base + k, mid, end, cap, boxes);
      assert ns == [ns[0]] + ns[1..k] + ns[k..];
      LeafCountConcat([ns[0]] + ns[1..k], ns[k..]);
      LeafCountConcat([ns[0]], ns[1..k]);
      assert [ns[0]][..0] == [];
    }
  }

  /** Every node of a subtree rooted at array index `base` is well indexed: an interior
      node at index base + i has its left child at base + i + 1 and its right child after
      that and inside the subtree; a leaf covers a non-empty part of [start, end). */
  lemma {:induction false} SubtreeIndices(ns: seq<CpuBvhNode>, base: int, start: int, end: int, cap: int, boxes: seq<Box>)
    requires Subtree(ns, base, start, end, cap, boxes)
    ensures forall i :: 0 <= i < |ns| && ns[i].primitiveCount <= 0 ==>
              ns[i].primitiveCount == 0 && ns[i].leftChild == base + i + 1
              && base + i + 1 < ns[i].rightChild < base + |ns|
    ensures forall i :: 0 <= i < |ns| && ns[i].primitiveCount > 0 ==>
              start <= ns[i].firstPrimitive && ns[i].firstPrimitive + ns[i].primitiveCount <= end
    decreases |ns|
  {
    if ns[0].primitiveCount <= 0 {
      var k := ns[0].rightChild - base;
      var mid := LeftmostFirst(ns[k..]);
      SubtreeIndices(ns[1..k], base + 1, start, mid, cap, boxes);
      SubtreeIndices(ns[k..], base + k, mid, end, cap, boxes);
      forall i | 1 <= i < |ns|
        ensures ns[i] == if i < k then ns[1..k][i - 1] else ns[k..][i - k]
      {
      }
    }
  }

  /** Every primitive of [start, end) belongs to some leaf of the subtree. */
  lemma {:induction false} SubtreeCovers(ns: seq<CpuBvhNode>, base: int, start: int, end: int, cap: int,
                                         boxes: seq<Box>, p: int)
    requires Subtree(ns, base, start, end, cap, boxes)
    requires start <= p < end
    ensures exists i :: 0 <= i < |ns| && ns[i].primitiveCount > 0
              && ns[i].firstPrimitive <= p < ns[i].firstPrimitive + ns[i].primitiveCount
    decreases |ns|
  {
    if ns[0].primitiveCount <= 0 {
      var k := ns[0].rightChild - base;
      var mid := LeftmostFirst(ns[k..]);
      if p < mid {
        SubtreeCovers(ns[1..k], base + 1, start, mid, cap, boxes, p);
        var i :| 0 <= i < k - 1 && ns[1..k][i].primitiveCount > 0
                 && ns[1..k][i].firstPrimitive <= p < ns[1..k][i].firstPrimitive + ns[1..k][i].primitiveCount;
        assert ns[i + 1] == ns[1..k][i];
      } else {
        SubtreeCovers(ns[k..], base + k, mid, end, cap, boxes, p);
        var i :| 0 <= i < |ns| - k && ns[k..][i].primitiveCount > 0
                 && ns[k..][i].firstPrimitive <= p < ns[k..][i].firstPrimitive + ns[k..][i].primitiveCount;
        assert ns[i + k] == ns[k..][i];
      }
    }
  }

  /** Leaves appear in the array in the order of their ranges: a leaf that comes earlier
      ends no later than a later leaf begins, so no primitive belongs to two leaves. */
  lemma {:induction false} SubtreeLeavesOrdered(ns: seq<CpuBvhNode>, base: int, start: int, end: int, cap: int,
                                                boxes: seq<Box>)
    requires Subtree(ns, base, start, end, cap, boxes)
    ensures forall i, j :: 0 <= i < j < |ns| && ns[i].primitiveCount > 0 && ns[j].primitiveCount > 0 ==>
              ns[i].firstPrimitive + ns[i].primitiveCount <= ns[j].firstPrimitive
    decreases |ns|
  {
    if ns[0].primitiveCount <= 0 {
      var k := ns[0].rightChild - base;
      var mid := LeftmostFirst(ns[k..]);
      var left := ns[1..k];
      var right := ns[k..];
      SubtreeLeavesOrdered(left, base + 1, start, mid, cap, boxes);
      SubtreeLeavesOrdered(right, base + k, mid, end, cap, boxes);
      SubtreeIndices(left, base + 1, start, mid, cap, boxes);
      SubtreeIndices(right, base + k, mid, end, cap, boxes);
      forall i, j | 0 <= i < j < |ns| && ns[i].primitiveCount > 0 && ns[j].primitiveCount > 0
        ensures ns[i].firstPrimitive + ns[i].primitiveCount <= ns[j].firstPrimitive
      {
        if j < k {
          assert ns[i] == left[i - 1] && ns[j] == left[j - 1];
        } else if i >= k {
          assert ns[i] == right[i - k] && ns[j] == right[j - k];
        } else {
          assert ns[i] == left[i - 1] && ns[j] == right[j - k];
        }
      }
    }
  }

  /** The records Run fills before building: original position, bounding box and its
      centre, for every scene object in order. */
  function InitialInfos(objects: seq<SceneObject>, eps: real): (r: seq<PrimitiveInfo>)
    requires eps >= 0.0
    ensures |r| == |objects|
    ensures forall i :: 0 <= i < |r| ==> r[i].originalIndex == i
    ensures Consistent(r, objects, eps)
  {
    seq(|objects|, i requires 0 <= i < |objects| =>
      PrimitiveInfo(i, GetBoundingBox(objects[i], eps), Center(GetBoundingBox(objects[i], eps))))
  }

  /** Every record names a scene object and carries that object's bounding box. */
  ghost predicate Consistent(infos: seq<PrimitiveInfo>, objects: seq<SceneObject>, eps: real)
    requires eps >= 0.0
  {
    forall k :: 0 <= k < |infos| ==>
      0 <= infos[k].originalIndex < |objects|
      && infos[k].bounds == GetBoundingBox(objects[infos[k].originalIndex], eps)
  }

  /** Reordering the records keeps them consistent with the scene. */
  lemma ConsistentPermuted(r: seq<PrimitiveInfo>, infos: seq<PrimitiveInfo>, objects: seq<SceneObject>, eps: real)
    requires eps >= 0.0
    requires multiset(r) == multiset(infos) && Consistent(infos, objects, eps)
    ensures Consistent(r, objects, eps)
  {
    forall k | 0 <= k < |r|
      ensures 0 <= r[k].originalIndex < |objects|
      ensures r[k].bounds == GetBoundingBox(objects[r[k].originalIndex], eps)
    {
      assert r[k] in multiset(infos);
    }
  }

  /** The orderedPrimitiveIndices array: the original index of every record, in order. */
  function OriginalIndices(infos: seq<PrimitiveInfo>): (r: seq<int>)
    ensures |r| == |infos|
    ensures forall k :: 0 <= k < |infos| ==> r[k] == infos[k].originalIndex
  {
    seq(|infos|, k requires 0 <= k < |infos| => infos[k].originalIndex)
  }

  lemma OriginalIndicesConcat(a: seq<PrimitiveInfo>, b: seq<PrimitiveInfo>)
    ensures OriginalIndices(a + b) == OriginalIndices(a) + OriginalIndices(b)
  {
  }

  /** Removing the record at `j` removes one record and one original index. */
  lemma DropAt(b: seq<PrimitiveInfo>, j: int)
    requires 0 <= j < |b|
    ensures multiset(b) == multiset(b[..j] + b[j + 1..]) + multiset{b[j]}
    ensures multiset(OriginalIndices(b)) == multiset(OriginalIndices(b[..j] + b[j + 1..])) + multiset{b[j].originalIndex}
  {
    MultisetDrop(b, j);
    var o := OriginalIndices(b);
    assert OriginalIndices(b[..j] + b[j + 1..]) == o[..j] + o[j + 1..];
    MultisetDrop(o, j);
  }

  /** Removing the element at `j` removes one occurrence from the multiset. */
  lemma MultisetDrop<T>(s: seq<T>, j: int)
    requires 0 <= j < |s|
    ensures multiset(s) == multiset(s[..j] + s[j + 1..]) + multiset{s[j]}
  {
    var l, r := s[..j], s[j + 1..];
    assert s == l + [s[j]] + r;
    assert multiset(s) == multiset(l) + multiset{s[j]} + multiset(r);
    assert multiset(l + r) == multiset(l) + multiset(r);
  }

  /** Permuting the records permutes their original indices. */
  lemma {:induction false} OriginalIndicesPermuted(a: seq<PrimitiveInfo>, b: seq<PrimitiveInfo>)
    requires multiset(a) == multiset(b)
    ensures multiset(OriginalIndices(a)) == multiset(OriginalIndices(b))
    decreases |a|
  {
    if |a| == 0 {
      assert |b| == |multiset(b)| == 0;
    } else {
      var x := a[0];
      assert x in multiset(b);
      var j :| 0 <= j < |b| && b[j] == x;
      var rest := b[..j] + b[j + 1..];
      DropAt(b, j);
      assert a == [x] + a[1..];
      assert multiset(a) == multiset{x} + multiset(a[1..]);
      assert multiset(a[1..]) == multiset(a) - multiset{x};
      assert multiset(rest) == multiset(b) - multiset{x};
      OriginalIndicesPermuted(a[1..], rest);
      OriginalIndicesConcat([x], a[1..]);
      assert OriginalIndices(a) == OriginalIndices([x]) + OriginalIndices(a[1..]);
      assert OriginalIndices([x]) == [x.originalIndex];
      assert multiset(OriginalIndices(a)) == multiset{x.originalIndex} + multiset(OriginalIndices(a[1..]));
    }
  }

  /** 0, 1, ..., n - 1. */
  function Iota(n: nat): (r: seq<int>)
    ensures |r| == n && forall k :: 0 <= k < n ==> r[k] == k
  {
    seq(n, k => k)
  }

  /** The bounding box of the scene object each entry of `indices` names, or the empty box
      for an entry that names none. */
  function OrderedBounds(objects: seq<SceneObject>, indices: seq<int>, eps: real): (r: seq<Box>)
    requires eps >= 0.0
    ensures |r| == |indices|
  {
    seq(|indices|, k requires 0 <= k < |indices| =>
      if 0 <= indices[k] < |objects| then GetBoundingBox(objects[indices[k]], eps) else Empty)
  }

  /** Build (with Run): an empty scene gives no nodes and no indices. Otherwise the nodes
      are the depth-first layout of a tree over all primitives with its root at index 0,
      and the index array is a permutation of the scene's positions such that each leaf's
      range [first, first + count) of it names the objects of that leaf, every node's box
      enclosing their boxes. */
  method Build(objects: seq<SceneObject>, maxPrimitivesPerNode: int, eps: real)
    returns (nodes: seq<CpuBvhNode>, indices: seq<int>)
    requires eps >= 0.0
    ensures |objects| == 0 ==> nodes == [] && indices == []
    ensures |indices| == |objects|
    ensures multiset(indices) == multiset(Iota(|objects|))
    ensures |objects| > 0 ==>
              Subtree(nodes, 0, 0, |objects|, ClampCap(maxPrimitivesPerNode), OrderedBounds(objects, indices, eps))
    ensures |objects| > 0 ==>
              var infos := InitialInfos(objects, eps);
              && nodes[0].bounds == BoundsOf(infos)
              && (nodes[0].primitiveCount > 0 <==>
                    |objects| <= ClampCap(maxPrimitivesPerNode) || NoSplit(infos, BoundsOf(infos), eps))
  {
    if |objects| == 0 {
      return [], [];
    }
    var cap := ClampCap(maxPrimitivesPerNode);
    var infos := InitialInfos(objects, eps);
    var r;
    assert infos[0..|objects|] == infos;
    r, nodes := RecursiveBuild(infos, 0, |objects|, 0, cap, eps);
    indices := OriginalIndices(r);
    OriginalIndicesPermuted(r, infos);
    assert OriginalIndices(infos) == Iota(|objects|);
    ConsistentPermuted(r, infos, objects, eps);
    assert BoxesOf(r) == OrderedBounds(objects, indices, eps);
  }
}
