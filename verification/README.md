# MathLibrary bounding-volume hierarchies, in Dafny

This project models the ray-tracing core of DigLik/MathLibrary, a C# library and GPU
path-tracing test program. It covers three areas.

- **Building the hierarchies.** The library has three builders:
  - the surface-area-heuristic builder `LinearBvhBuilder`. It lays the tree out as a flat,
    depth-first node array and reorders the primitives in place so that every leaf covers a
    contiguous range;
  - the median builder `BvhBuilder`;
  - the sorted-median builder `SmoothBvhBuilder`.

  The last two build linked trees of `BvhNode` / `SmoothBvhNode`.
- **Walking them.** There are three walks:
  - the pruned stack walk of `BvhTracer`;
  - the unpruned walk of `SmoothBvhTracer`;
  - the shader's `TraceRay`, over the flat array with a fixed 32-slot stack.

  All three use the slab test and the Moller-Trumbore test of `RaycastExtensions`.
- **The exact pieces around them:**
  - the box and vector algebra;
  - the scene primitives and their bounding boxes;
  - the conversion of the tree and scene into the shader's arrays;
  - the shader's PCG-style random number generator and per-pixel seed;
  - the control structure of a light path (bounce loop, termination, medium flag);
  - the batch and tile schedule of the program;
  - the quad and mesh generators;
  - the approximate float comparisons of `MathHelper`.

Modelling conventions:

- **Floats.** Single-precision floats are reals. `float.MaxValue` is the exact real
  `Boxes.FloatMax`.
- **Epsilons.** The library's `Constants.Epsilon` is a parameter `eps`.
- **Square roots and normalization.** These are given as functions:
  - `invLength`, `normalize` and `sqrt`;
  - or, in `Vectors.Normalize`, a length argument tied to the vector by `IsLengthOf`.
- **Integer arithmetic.** Unchecked C# `uint` arithmetic is reduced modulo 2^32.
- **Exceptions.** A thrown exception is a `Failure` of `Wrappers.Result`.
- **Null.** A null reference is `None`.

One module per source file or component; modules import each other by name.

## Model

| member | source | states |
|---|---|---|
| Vectors.Get | MathLibrary/Geometry/Vector3.cs:9-15 | the indexer succeeds exactly for 0, 1, 2 and throws IndexOutOfRangeException for every other index |
| Vectors.IndexerRoundTrip | MathLibrary/Geometry/Vector3.cs:9-15 | reading the three axes back rebuilds the vector: 0, 1, 2 are X, Y, Z |
| Vectors.Min | MathLibrary/Geometry/Vector3.cs:23 | on every axis the result is at most both arguments and equal to one of them |
| Vectors.Max | MathLibrary/Geometry/Vector3.cs:24 | on every axis the result is at least both arguments and equal to one of them |
| Vectors.MinMaxCommutative | MathLibrary/Geometry/Vector3.cs:23-24 | Min and Max do not depend on argument order |
| Vectors.MinMaxIdempotent | MathLibrary/Geometry/Vector3.cs:23-24 | Min(a, a) and Max(a, a) are a |
| Vectors.MinMaxAssociative | MathLibrary/Geometry/Vector3.cs:23-24 | Min and Max are associative, so folds over them may be regrouped |
| Vectors.CrossLaws | MathLibrary/Geometry/Vector3.cs:35-42 | the cross product is anti-commutative, vanishes on equal arguments and is orthogonal to both arguments |
| Vectors.DotSplat | MathLibrary/Geometry/Vector3.cs:44-51 | the internal vector-valued Dot holds the scalar dot product in all three components |
| Vectors.Normalize | MathLibrary/Geometry/Vector3.cs:29-33 | a vector of length at most epsilon comes back unchanged; any longer one comes back with squared length 1 and, scaled by its length, gives the input again |
| Boxes.SurfaceArea | MathLibrary/Geometry/Box.cs:14-19 | the area is never negative, and is 0 for a box inverted on any axis |
| Boxes.EmptyHasNoArea | MathLibrary/Geometry/Box.cs:7-9 | Box.Empty has surface area 0 |
| Boxes.MaxExtentAxis | MathLibrary/Geometry/Box.cs:21-26 | the result is an axis of largest extent, and every later axis is strictly smaller: ties go to the last axis, so X = Y > Z gives 1 and a Y = Z tie for the largest extent gives 2 |
| Boxes.Offset | MathLibrary/Geometry/Box.cs:28-33 | 0 when the box is flat or inverted on the axis; for a point between the faces of a non-flat axis, a value in [0, 1] |
| Boxes.OffsetMonotone | MathLibrary/Geometry/Box.cs:28-33 | moving the point forward along the axis never lowers its offset |
| Boxes.Combine | MathLibrary/Geometry/Box.cs:35 | the union encloses both boxes |
| Boxes.CombinePoint | MathLibrary/Geometry/Box.cs:36 | the union encloses the box and contains the point |
| Boxes.CombineIsLeast | MathLibrary/Geometry/Box.cs:35 | every box enclosing both arguments encloses their union, so the union is the least one |
| Boxes.CombinePointIsLeast | MathLibrary/Geometry/Box.cs:36 | every box enclosing the box and containing the point encloses their union |
| Boxes.CombineSemilattice | MathLibrary/Geometry/Box.cs:35 | Combine is commutative, associative and idempotent |
| Boxes.EmptyIsIdentity | MathLibrary/Geometry/Box.cs:7-9 | Box.Empty is a left and right identity of Combine for every box whose coordinates lie in the float range |
| Boxes.CenterInside | MathLibrary/Geometry/Box.cs:11 | a box that is not inverted contains its Center |
| Primitives.TriangleBounds | MathLibrary/Geometry/Triangle.cs:16-22 | the box contains all three vertices, each face is a vertex coordinate moved out by epsilon, and for a positive epsilon the box is strictly non-flat on every axis |
| Primitives.SphereBounds | MathLibrary/Geometry/Sphere.cs:9-13 | the box is centred on the sphere's center with extent 2 * radius on every axis, and contains the center when the radius is not negative |
| Primitives.AccessorsReturnConstructorArguments | MathLibrary/Geometry/Triangle.cs:8-25 | both constructors store their arguments; GetMaterial returns the material and GetObjectData the object itself |
| LinkedBvh.Interior | MathLibrary/BVH/BvhNode.cs:37-43 | the interior constructor keeps the box and both children, has no primitive list, is not a leaf, and its leaves are the left child's followed by the right child's |
| LinkedBvh.Leaf | MathLibrary/BVH/BvhNode.cs:46-52 | the leaf constructor keeps the box and the list, has no children, is a leaf, and its leaves are exactly the list |
| LinkedBvh.ShapedNodeCount | MathLibrary/BVH/SmoothBvhNode.cs:15-33 | a tree built only by the two constructors, with non-empty capped leaves, has an odd number of nodes, at most 2 * leaves - 1 |
| Raycast.SlabAxis | MathLibrary/Tracing/RaycastExtensions.cs:25-45 | one axis of the slab test returns early exactly when the ray is parallel to the slab (below 1e-6) and starts outside it; otherwise the interval only narrows, and a parallel axis leaves it unchanged |
| Raycast.SlabAxisSound | MathLibrary/Tracing/RaycastExtensions.cs:33-45 | on a non-parallel axis, every parameter left in the narrowed interval puts the ray inside the slab |
| Raycast.SlabAxisComplete | MathLibrary/Tracing/RaycastExtensions.cs:25-45 | conversely, a parameter of the incoming interval that puts the ray inside the slab survives the axis, unless the ray is parallel to the slab and starts outside it |
| Raycast.SlabInterval | MathLibrary/Tracing/RaycastExtensions.cs:21-91 | the interval after the three axes lies within [0, float.MaxValue] |
| Raycast.TryIntersectBox | MathLibrary/Tracing/RaycastExtensions.cs:15-105 | a hit reports the entry distance tmin of the three-axis interval, never negative; every miss reports distance 0 |
| Raycast.OriginInsideHitsAtZero | MathLibrary/Tracing/RaycastExtensions.cs:101-104 | a ray starting inside the box (boundary included) hits it at distance 0 in every direction |
| Raycast.ParallelOutsideMisses | MathLibrary/Tracing/RaycastExtensions.cs:25-31 | a ray parallel to a pair of faces and outside them misses the box with distance 0 |
| Raycast.HitDistanceInAxisIntervals | MathLibrary/Tracing/RaycastExtensions.cs:43-99 | on a hit, the reported distance lies in the interval of every axis as narrowed so far |
| Raycast.TryIntersectBoxComplete | MathLibrary/Tracing/RaycastExtensions.cs:14-105 | a ray that meets the box at a parameter in [0, float.MaxValue] hits it, at a distance no greater than that parameter, unless it is parallel (below 1e-6) to a pair of faces it starts outside of |
| Raycast.BoxHitPointInSlabs | MathLibrary/Tracing/RaycastExtensions.cs:15-105 | on a hit with a non-inverted box, the point at the reported distance lies between the faces of every axis the ray is not parallel to |
| Raycast.MollerTrumbore | MathLibrary/Tracing/RaycastExtensions.cs:121-157 | a near-zero determinant is a miss; a hit has u in [0, 1], v >= 0, u + v <= 1 and a parameter beyond the epsilon |
| Raycast.SmallerEpsilonKeepsHit | MathLibrary/Tracing/RaycastExtensions.cs:129-151 | every epsilon test is a lower bound on a magnitude, so a hit with a larger epsilon is the same hit with any smaller positive one |
| Raycast.HitPointOnTriangle | MathLibrary/Tracing/RaycastExtensions.cs:131-151 | a Moller-Trumbore hit is the point A + u (B - A) + v (C - A) of the triangle's plane at the reported parameter |
| Raycast.MollerTrumboreComplete | MathLibrary/Tracing/RaycastExtensions.cs:115-157 | conversely, a ray meeting the triangle at barycentrics inside it (u, v >= 0, u + v <= 1), at a parameter beyond epsilon and with a determinant clearing the parallel test, is hit, and the test reports exactly that parameter and those barycentrics |
| Raycast.TryIntersectTriangle | MathLibrary/Tracing/RaycastExtensions.cs:116-158 | the test hits exactly when Moller-Trumbore with 1e-6 does; a hit reports a distance above 1e-6, and every miss reports 0 |
| Raycast.MollerTrumboreHitExample | MathLibrary/Tracing/RaycastExtensions.cs:116-158 | a ray straight through the unit right triangle hits at t = 1 with u = v = 0.25 |
| Raycast.MollerTrumboreMissExample | MathLibrary/Tracing/RaycastExtensions.cs:136-137 | a ray passing beside the triangle fails the u test |
| ClosestHit.Scan | MathLibrary/Tracing/BvhTracer.cs:27-34 | the closest distance never grows; a changed result is a primitive of the list hit at exactly that distance, strictly below the old one; no hit in the list is closer |
| ClosestHit.ScanConcat | MathLibrary/Tracing/BvhTracer.cs:25-34 | scanning two lists in turn is scanning their concatenation |
| ClosestHit.FirstHitAt | MathLibrary/Tracing/SmoothBvhTracer.cs:26-34 | the first position hit at a given distance, with no earlier position hit there |
| ClosestHit.ScanPicksFirst | MathLibrary/Tracing/SmoothBvhTracer.cs:28-33 | ties go to the earliest primitive: a changed result is the first primitive of the list hit at the result distance |
| ClosestHit.ScanFromStart | MathLibrary/Tracing/SmoothBvhTracer.cs:12-33 | from float.MaxValue and no hit, the scan reports a primitive iff one is hit below float.MaxValue, and the reported distance is then the least hit distance |
| BvhTracer.ChildrenToPush | MathLibrary/Tracing/BvhTracer.cs:39-66 | exactly the children whose box is entered strictly before the closest distance are pushed; of two, the nearer goes last (popped first), and the right one on equal distances |
| BvhTracer.ReachesIsLeaf | MathLibrary/Tracing/BvhTracer.cs:25-35 | a triangle the walk can reach from a node lies in a leaf below that node |
| BvhTracer.Intersect | MathLibrary/Tracing/BvhTracer.cs:7-77 | a null root or a missed root box gives false with the default hit; a reported hit is a triangle of the tree hit at the reported distance; no triangle the walk cannot prune is hit any closer, and if there is one, the result is true |
| BvhTracer.EmptyStackCovers | MathLibrary/Tracing/BvhTracer.cs:21-76 | when the stack runs empty, every findable triangle is at or beyond the closest distance, and a triangle has been recorded whenever one is findable |
| BvhTracer.LeafStep | MathLibrary/Tracing/BvhTracer.cs:25-35 | scanning and popping a leaf keeps the walk's invariants and shrinks the stack |
| BvhTracer.InteriorStep | MathLibrary/Tracing/BvhTracer.cs:36-67 | popping an interior node and pushing its qualifying children keeps the walk's invariants and shrinks the stack, so the walk ends |
| BvhTracer.PushShrinks | MathLibrary/Tracing/BvhTracer.cs:46-66 | replacing the top node by at most two of its distinct children makes the stack strictly smaller |
| SmoothTracer.Intersect | MathLibrary/Tracing/SmoothBvhTracer.cs:7-44 | a null root gives false with the default hit; otherwise the result is the brute-force closest hit over the tree's leaf triangles, ties going to the leftmost |
| SmoothTracer.ScanLeaf | MathLibrary/Tracing/SmoothBvhTracer.cs:26-34 | the leaf loop is the closest-hit scan of the leaf, keeping the hit record in step with the distance |
| SmoothTracer.WalkIsBruteForce | MathLibrary/Tracing/SmoothBvhTracer.cs:43 | the scan of the leaves from the start state is the brute-force result: true iff some triangle is hit, with a least distance |
| SmoothTracer.PushBothChildren | MathLibrary/Tracing/SmoothBvhTracer.cs:36-41 | pushing right and then left keeps the primitives still to visit, in left-to-right order, and shrinks the stack |
| MedianBvh.BoundsFold | MathLibrary/BVH/BvhBuilder.cs:85-94 | the running min/max encloses its start value and contains every vertex of every triangle |
| MedianBvh.CalculateBounds | MathLibrary/BVH/BvhBuilder.cs:75-96 | the zero box for an empty list; otherwise a box containing every vertex |
| MedianBvh.BoundsFoldIsLeast | MathLibrary/BVH/BvhBuilder.cs:85-94 | any box enclosing the start value and containing every vertex encloses the fold |
| MedianBvh.CalculateBoundsIsLeast | MathLibrary/BVH/BvhBuilder.cs:82-95 | for a non-empty list the result is exactly the componentwise min/max of the vertices: it contains them and lies inside every finite box that does |
| MedianBvh.SplitAxis | MathLibrary/BVH/BvhBuilder.cs:31-34 | an axis of largest extent, every earlier axis strictly smaller: the first largest axis |
| MedianBvh.SplitAxisTieDiffersFromMaxExtent | MathLibrary/BVH/BvhBuilder.cs:32-34 | on an X = Y tie the builder splits on X while Box.MaxExtentAxis reports Y |
| MedianBvh.SplitByPlane | MathLibrary/BVH/BvhBuilder.cs:40-54 | left centroids lie before the plane, right ones at or after it, and together the two lists hold exactly the input |
| MedianBvh.SplitKeepsOrder | MathLibrary/BVH/BvhBuilder.cs:43-54 | each side is the input filtered by its test, in input order |
| MedianBvh.Children | MathLibrary/BVH/BvhBuilder.cs:37-63 | the child lists hold exactly the input, and for two or more triangles both are non-empty and shorter than the input |
| MedianBvh.BuildRecursive | MathLibrary/BVH/BvhBuilder.cs:19-70 | for a cap of at least 1: a leaf iff the list fits, a leaf holds the whole list, and every node's box is CalculateBounds of its list |
| MedianBvh.BuildRecursivePermutes | MathLibrary/BVH/BvhBuilder.cs:25-69 | the leaves together hold exactly the input triangles |
| MedianBvh.BuildRecursiveWellFormed | MathLibrary/BVH/BvhBuilder.cs:25-69 | the tree is built only by the two constructors, every leaf holds 1 to cap triangles, and every box contains every vertex below it |
| MedianBvh.Build | MathLibrary/BVH/BvhBuilder.cs:12-17 | an empty list throws ArgumentException; any other list gives a well-formed tree over exactly its triangles, with the cap clamped to at least 1 |
| MedianBvh.BuildRecursiveAsWritten | MathLibrary/BVH/BvhBuilder.cs:19-70 | the code as written for any cap, with fuel for the recursion depth: when it finishes, the leaves hold the input and the root is a leaf iff the list fits |
| MedianBvh.AsWrittenAgrees | MathLibrary/BVH/BvhBuilder.cs:19-70 | for a cap of at least 1 the code as written finishes within |list| levels and builds the same tree |
| MedianBvh.ZeroCapNeverFinishes | MathLibrary/BVH/BvhBuilder.cs:57-67 | for cap 0 and one triangle, the code as written recurses on the same list at every depth |
| SmoothBvh.BoundsFold | MathLibrary/BVH/SmoothBvhBuilder.cs:59-64 | the running min/max encloses its start value and contains every vertex |
| SmoothBvh.CalculateBounds | MathLibrary/BVH/SmoothBvhBuilder.cs:54-66 | Box.Empty for an empty list; otherwise a box containing every vertex |
| SmoothBvh.BoundsFoldAgrees | MathLibrary/BVH/SmoothBvhBuilder.cs:62-63 | the smooth fold, grouping the minima differently, equals the median builder's fold |
| SmoothBvh.BoundsMatchMedian | MathLibrary/BVH/SmoothBvhBuilder.cs:54-66 | on a non-empty list both builders compute the same box, so it is the least box containing the vertices |
| SmoothBvh.SplitAxis | MathLibrary/BVH/SmoothBvhBuilder.cs:23-26 | the smooth builder chooses the same axis as the median builder |
| SmoothBvh.Insert | MathLibrary/BVH/SmoothBvhBuilder.cs:32-33 | inserting into a list sorted by centroid key keeps it sorted and adds exactly the element |
| SmoothBvh.SortByKey | MathLibrary/BVH/SmoothBvhBuilder.cs:29-33 | the sorted copy is ordered by centroid along the axis and is a permutation of the input |
| SmoothBvh.Halves | MathLibrary/BVH/SmoothBvhBuilder.cs:35-45 | the first count/2 sorted triangles and the rest: together the input, and every left key at most every right key |
| SmoothBvh.BuildNode | MathLibrary/BVH/SmoothBvhBuilder.cs:15-51 | for a cap of at least 1: a leaf iff the list fits, a leaf holds exactly the list, every box is CalculateBounds of its list |
| SmoothBvh.BuildNodePermutes | MathLibrary/BVH/SmoothBvhBuilder.cs:17-51 | the leaves together hold exactly the input |
| SmoothBvh.BuildNodeWellFormed | MathLibrary/BVH/SmoothBvhBuilder.cs:17-51 | the tree is built only by the two constructors, leaves hold 1 to cap triangles, and boxes contain every vertex below them |
| SmoothBvh.Build | MathLibrary/BVH/SmoothBvhBuilder.cs:11-52 | null iff the list is empty; otherwise a well-formed tree over exactly the list, a single leaf when it fits the cap |
| SmoothBvh.BuildAsWritten | MathLibrary/BVH/SmoothBvhBuilder.cs:11-52 | the code as written for any cap, with fuel for the recursion depth: when it finishes, the result is null iff the list is empty |
| SmoothBvh.SmoothZeroCapNeverFinishes | MathLibrary/BVH/SmoothBvhBuilder.cs:35-48 | for cap 0 and one triangle, the code as written recurses on the same list at every depth |
| LinearBvh.ClampCap | MathLibrary/BVH/LinearBvhBuilder.cs:35 | the cap is at least 1: the given cap when positive, else 1 |
| LinearBvh.Truncate | MathLibrary/BVH/LinearBvhBuilder.cs:113 | the (int) cast truncates toward zero |
| LinearBvh.ClampInt | MathLibrary/BVH/LinearBvhBuilder.cs:114 | Math.Clamp returns the value inside [lo, hi] and the nearer bound outside it |
| LinearBvh.BucketIndex | MathLibrary/BVH/LinearBvhBuilder.cs:113-114 | every bucket index lies in [0, 11] |
| LinearBvh.BucketIndexMonotone | MathLibrary/BVH/LinearBvhBuilder.cs:113-114 | bucketing preserves the order of centroids along the axis |
| LinearBvh.BucketIndexSlice | MathLibrary/BVH/LinearBvhBuilder.cs:113-114 | a centroid inside a non-flat centroid box falls in the twelfth of the axis it lies in, the far face in the last bucket |
| LinearBvh.BoundsOf | MathLibrary/BVH/LinearBvhBuilder.cs:76-80 | the node's box encloses the box of every primitive in its range |
| LinearBvh.CentroidBounds | MathLibrary/BVH/LinearBvhBuilder.cs:90-94 | the centroid box contains every centroid in the range |
| LinearBvh.BoundsOfIsLeast | MathLibrary/BVH/LinearBvhBuilder.cs:76-80 | the node's box is the least box enclosing the range's boxes |
| LinearBvh.Fill | MathLibrary/BVH/LinearBvhBuilder.cs:111-117 | each bucket counts exactly the primitives assigned to it, and its box encloses theirs |
| LinearBvh.FillBuckets | MathLibrary/BVH/LinearBvhBuilder.cs:104-117 | bucket counts are the number of range primitives in each bucket, and every primitive's box is inside its bucket's box |
| LinearBvh.FillBucketsTotal | MathLibrary/BVH/LinearBvhBuilder.cs:111-117 | the twelve counts add up to the number of primitives in the range |
| LinearBvh.CostArea | MathLibrary/BVH/LinearBvhBuilder.cs:120-121 | the divisor is always positive, and is the node's area whenever that is positive |
| LinearBvh.SplitCost | MathLibrary/BVH/LinearBvhBuilder.cs:123-142 | every split costs at least the 0.1 traversal step, and exactly 0.1 when no primitive is bucketed |
| LinearBvh.SplitSidesCoverAll | MathLibrary/BVH/LinearBvhBuilder.cs:127-139 | the two sides of every candidate split together hold every bucketed primitive |
| LinearBvh.Costs | MathLibrary/BVH/LinearBvhBuilder.cs:119-142 | eleven candidate costs, the i-th being the cost of splitting after bucket i |
| LinearBvh.MinCostSplit | MathLibrary/BVH/LinearBvhBuilder.cs:144-153 | the chosen bucket has the least cost and every earlier bucket costs strictly more: ties go to the first minimum |
| LinearBvh.Partition | MathLibrary/BVH/LinearBvhBuilder.cs:200-212 | the returned index is in [start, end]; the predicate holds before it and fails from it to end; the range is permuted and nothing outside it moves |
| LinearBvh.ChooseSplit | MathLibrary/BVH/LinearBvhBuilder.cs:90-156 | no split iff the centroids are spread less than epsilon on the longest axis or no split costs less than the leaf; a split is the first cheapest bucket in [0, 10] |
| LinearBvh.CheapestSplit | MathLibrary/BVH/LinearBvhBuilder.cs:144-156 | the chosen bucket is the first of least cost, and its cost reaches the leaf cost exactly when no bucket split is cheaper than the leaf |
| LinearBvh.SplitRange | MathLibrary/BVH/LinearBvhBuilder.cs:158-168 | the range is permuted and the split point lies strictly inside it; before it every centroid is bucketed at or below the chosen bucket and from it on every one above, unless all fall on one side, when the point is the middle of the range |
| LinearBvh.SplitsByAfterChildren | MathLibrary/BVH/LinearBvhBuilder.cs:170-171 | building the two children, which reorders each side only within itself, keeps the bucket split of the range |
| LinearBvh.RecursiveBuild | MathLibrary/BVH/LinearBvhBuilder.cs:71-188 | the range is permuted in place, and the returned nodes are the depth-first layout of a tree over it rooted at the given index; the root holds the range's box and is a leaf exactly when the range fits the cap or the surface area heuristic declines to split, and an interior root splits the range by the first cheapest bucket along the longest centroid axis |
| LinearBvh.BuildChildren | MathLibrary/BVH/LinearBvhBuilder.cs:158-180 | the interior root holds the range's box, its left child directly follows it, the nodes are a valid subtree layout, and its right subtree starts where the range was split by the given bucket |
| LinearBvh.InteriorStep | MathLibrary/BVH/LinearBvhBuilder.cs:170-180 | an interior root in front of the left and right layouts over a permuted range is a subtree layout over that range |
| LinearBvh.LeafSubtree | MathLibrary/BVH/LinearBvhBuilder.cs:190-198 | a leaf storing start and count, with a box enclosing the range, is a subtree layout |
| LinearBvh.SubtreeNodeCount | MathLibrary/BVH/LinearBvhBuilder.cs:73-74 | a layout over n primitives has L leaves, 1 <= L <= n, and exactly 2L - 1 nodes |
| LinearBvh.SubtreeIndices | MathLibrary/BVH/LinearBvhBuilder.cs:173-197 | an interior node has count 0, its left child next to it and its right child after that within the layout; a leaf covers a non-empty part of the range |
| LinearBvh.SubtreeCovers | MathLibrary/BVH/LinearBvhBuilder.cs:84-188 | every primitive of the range belongs to some leaf |
| LinearBvh.SubtreeLeavesOrdered | MathLibrary/BVH/LinearBvhBuilder.cs:84-188 | leaves appear in the order of their ranges and no two ranges overlap |
| LinearBvh.InitialInfos | MathLibrary/BVH/LinearBvhBuilder.cs:45-55 | one record per scene object, in order, holding its original index, its box and the box's centre |
| LinearBvh.OriginalIndices | MathLibrary/BVH/LinearBvhBuilder.cs:62-66 | the ordered index array holds the original index of every record, in order |
| LinearBvh.OriginalIndicesPermuted | MathLibrary/BVH/LinearBvhBuilder.cs:62-66 | permuting the records permutes their original indices |
| LinearBvh.Build | MathLibrary/BVH/LinearBvhBuilder.cs:26-69 | an empty scene gives no nodes and no indices; otherwise the index array is a permutation of 0..N-1 and the nodes are the depth-first layout of a tree over all N primitives, rooted at 0, with the clamped cap; the root holds the scene's box and is a leaf exactly when the scene fits the cap or the surface area heuristic declines to split |
| GpuTraversal.NewStack | TestProject/RaytracingShader.cs:320 | a new stack is valid and empty |
| GpuTraversal.Push | TestProject/RaytracingShader.cs:536-576 | below 32 entries the value goes on top; on a full stack nothing changes and the value is dropped |
| GpuTraversal.Pop | TestProject/RaytracingShader.cs:577-617 | an empty stack gives -1 and stays as it is; otherwise the top value is returned and removed |
| GpuTraversal.PushThenPop | TestProject/RaytracingShader.cs:536-617 | below capacity, Pop undoes Push: it returns the pushed value and leaves the same contents |
| GpuTraversal.LastInFirstOut | TestProject/RaytracingShader.cs:536-617 | two pushes with room come back in reverse order, leaving the stack as it was |
| GpuTraversal.FullStackDropsPush | TestProject/RaytracingShader.cs:538 | on a full stack a push is lost: the next pop returns the old top |
| GpuTraversal.IntersectTriangle | TestProject/RaytracingShader.cs:377-399 | a triangle hit is strictly between 1e-7 and the current closest distance |
| GpuTraversal.ShaderAcceptsCpuHits | TestProject/RaytracingShader.cs:379-393 | every hit the CPU triangle test reports below the closest distance, the shader reports too, at the same distance |
| GpuTraversal.IntersectSphere | TestProject/RaytracingShader.cs:357-376 | a sphere hit is one of the two real roots and lies in [1e-4, closest) |
| GpuTraversal.RootsSolve | TestProject/RaytracingShader.cs:359-369 | with a true square root, both roots solve the ray-sphere quadratic |
| GpuTraversal.SphereHitOnSurface | TestProject/RaytracingShader.cs:357-376 | with a true square root, the hit point lies on the sphere |
| GpuTraversal.IntersectObject | TestProject/RaytracingShader.cs:341-345 | an object of a type other than 1 or 3 is never hit, and any hit is below the closest distance |
| GpuTraversal.TestAll | TestProject/RaytracingShader.cs:319-327 | testing objects in order from no hit: the distance stays at most float.MaxValue, is float.MaxValue iff no object was hit, and a hit object is one of those tested |
| GpuTraversal.LeafInOrder | TestProject/RaytracingShader.cs:327 | visiting a leaf on top of the stack extends the tested indices by its range, keeping the walk in array order |
| GpuTraversal.InteriorInOrder | TestProject/RaytracingShader.cs:328 | replacing an interior node by its right and then its left child keeps the walk in array order |
| GpuTraversal.ChildrenLighter | TestProject/RaytracingShader.cs:328 | popping an interior node and pushing its children lowers the stack's weight, so the loop ends |
| GpuTraversal.TestLeaf | TestProject/RaytracingShader.cs:327 | the leaf loop tests exactly the objects First .. First + Count - 1, in order |
| GpuTraversal.PushChildren | TestProject/RaytracingShader.cs:328 | pushing right then left below capacity: both go on with room for two, only the right one with room for one |
| GpuTraversal.InteriorWalkOk | TestProject/RaytracingShader.cs:328 | an interior node's pushes keep the loop state, and a dropped left child is recorded as an overflow |
| GpuTraversal.Visit | TestProject/RaytracingShader.cs:324-328 | one loop iteration after the pop keeps the loop state and makes the stack lighter |
| GpuTraversal.TraceRay | TestProject/RaytracingShader.cs:317-339 | the hit is the tests of the visited leaf objects in order, float.MaxValue iff nothing was hit; on a depth-first layout with no pruning and no overflow every leaf's objects are tested, in array order |
| Rng.StepInvertible | TestProject/RaytracingShader.cs:403 | the state update is a bijection on 32-bit words: the multiplicative inverse undoes it |
| Rng.StepInjective | TestProject/RaytracingShader.cs:403 | distinct states step to distinct states, so two streams never merge |
| Rng.ShiftAmount | TestProject/RaytracingShader.cs:404 | the data-dependent shift (state >> 28) + 4 lies in [4, 19] |
| Rng.RandomUInt | TestProject/RaytracingShader.cs:401-406 | the new state is the stepped state, which determines the old one, and the output depends only on the new state |
| Rng.RandomFloat | TestProject/RaytracingShader.cs:407 | the float lies in [0, 1] and is exactly 1 iff the output is uint.MaxValue |
| Rng.SeedDeterminesBatch | TestProject/RaytracingShader.cs:28 | the batch can be recovered from a pixel's seed |
| Rng.SeedsDistinctAcrossBatches | TestProject/RaytracingShader.cs:28 | a pixel never gets the same seed in two different batches |
| Rng.SeedsDistinctInBatch | TestProject/RaytracingShader.cs:28 | within one batch, pixels whose indices y * width + x differ modulo 2^32 get different seeds |
| Rng.NextBatchSeed | TestProject/RaytracingShader.cs:28 | the next batch starts a pixel 0x9E3779B9 further on, modulo 2^32 |
| PathControl.F0 | TestProject/RaytracingShader.cs:220 | the specular colour is 0.04 grey for a dielectric (Metallic 0) and the base colour for a metal (Metallic 1) |
| PathControl.ChooseLobe | TestProject/RaytracingShader.cs:146-250 | a transmissive material reflects or refracts, and an opaque one is specular or diffuse |
| PathControl.TotalInternalReflectionReflects | TestProject/RaytracingShader.cs:159-189 | under total internal reflection every draw below 1 reflects |
| PathControl.TotalInternalReflectionAtDrawOne | TestProject/RaytracingShader.cs:184 | a draw of exactly 1, which RandomFloat can return, refracts despite total internal reflection |
| PathControl.Scatter | TestProject/RaytracingShader.cs:135-256 | WasRefracted iff the refraction lobe was chosen; never for an opaque material; transmissive samples are white; a diffuse sample has the base colour |
| PathControl.BlackSampleIsOpaque | TestProject/RaytracingShader.cs:220-252 | a black sample comes only from an opaque surface: a specular sample below the surface or with black F0, or a diffuse sample off a black base colour |
| PathControl.UpdateMedium | TestProject/RaytracingShader.cs:86-106 | a refraction through a transmissive surface toggles the inside flag, a reflection keeps it, an opaque hit clears it; the medium material changes only while inside |
| PathControl.UpdateEstablishesMediumOk | TestProject/RaytracingShader.cs:86-106 | after any hit, a path that is inside has a transmissive medium material |
| PathControl.InAndOut | TestProject/RaytracingShader.cs:86-106 | refracting into a transmissive object and back out leaves the path outside |
| PathControl.Survival | TestProject/RaytracingShader.cs:67 | the survival probability is the largest channel of the throughput |
| PathControl.RouletteNormalizes | TestProject/RaytracingShader.cs:65-73 | a surviving path's throughput is rescaled so that its largest channel is exactly 1 |
| PathControl.AbsorbingColor | TestProject/RaytracingShader.cs:52 | every channel of the absorbing colour is positive, so its logarithm exists |
| PathControl.Absorb | TestProject/RaytracingShader.cs:50-55 | absorption changes the throughput only while inside an object |
| PathControl.Bounce | TestProject/RaytracingShader.cs:43-121 | one bounce ends on a miss iff the hit distance is float.MaxValue, on an emissive hit iff the emission is positive, by roulette only after bounce 4, on a black sample only for a black scatter colour; only an emissive end adds radiance |
| PathControl.RunPath | TestProject/RaytracingShader.cs:41-122 | the loop ends at the bounce limit or at the first bounce that breaks; every earlier bounce hit a non-emissive surface; a black end is opaque; while inside, the medium is transmissive |
| PathControl.TracePath | TestProject/RaytracingShader.cs:37-122 | a path runs at most maxBounces bounces, never ends by roulette in its first five, and gathers radiance only from the emissive surface that ends it |
| Converter.ConvertNodes | TestProject/BvhConverter.cs:9-29 | same length, and node i keeps node i's box, child indices, primitive count and first primitive |
| Converter.BuiltTreeConvertsWellFormed | TestProject/Program.cs:54-58 | the converted nodes of a linear build are an array the shader can walk: leaves name existing objects and interior nodes name two distinct later nodes |
| Converter.ConvertObject | TestProject/BvhConverter.cs:36-72 | the material is copied; type 1 iff a sphere, type 3 iff a triangle, and any other object keeps type 0 and zero geometry |
| Converter.ConvertObjectRoundTrip | TestProject/BvhConverter.cs:54-71 | spheres and triangles are read back exactly from the converted record, and only other objects read back as nothing |
| Converter.ConvertScene | TestProject/BvhConverter.cs:31-75 | succeeds iff every ordered index names a scene object and there are no more of them than objects; entry i then converts scene[orderedIndices[i]] and the rest stay default; a failure is the first failing iteration's exception |
| Converter.PermutationInRange | MathLibrary/BVH/LinearBvhBuilder.cs:62-66 | every entry of a permutation of 0..N-1 is a scene position |
| Converter.Upload | TestProject/Program.cs:54-59 | building and converting never fails; the node array can be walked; shader object i is scene object indices[i] of a permutation of the scene |
| Scheduling.TotalBatches | TestProject/Program.cs:80-81 | the least number of batches of batchSize samples that hold all samples |
| Scheduling.SamplesInBatch | TestProject/Program.cs:97-99 | every batch has between 1 and batchSize samples |
| Scheduling.FullBatchesBefore | TestProject/Program.cs:97-99 | every batch before the last is full |
| Scheduling.BatchesSumToTotal | TestProject/Program.cs:94-99 | the batches together give every pixel exactly totalSamplesPerPixel samples |
| Scheduling.NumTiles | TestProject/Program.cs:83-84 | the least number of tiles of tileSize pixels that cover the extent |
| Scheduling.TileExtentInRange | TestProject/Program.cs:108-109 | every tile is between 1 and tileSize pixels wide (and high) |
| Scheduling.TilesCover | TestProject/Program.cs:101-109 | every pixel lies in tile p / tileSize, which exists |
| Scheduling.TilesDisjoint | TestProject/Program.cs:101-109 | no pixel lies in two tiles |
| Scheduling.DispatchTiles | TestProject/Program.cs:101-128 | one batch dispatches numTilesX * numTilesY tiles |
| Scheduling.Render | TestProject/Program.cs:87-128 | completedWorkItems ends at totalBatches * numTilesX * numTilesY, and every pixel receives exactly totalSamplesPerPixel samples |
| Scheduling.ProgramConstants | TestProject/Program.cs:12-19 | with 1280 x 720 pixels, 2048 samples, batches of 128 and tiles of 256: 16 full batches, 5 x 3 tiles, 240 work items |
| SceneFactory.QuadFromCorners | MathLibrary/Geometry/SceneFactory.cs:8-15 | exactly two triangles, both with the given material |
| SceneFactory.QuadSharesDiagonal | MathLibrary/Geometry/SceneFactory.cs:10-14 | the triangles (p0, p1, p2) and (p0, p2, p3) share the diagonal p0-p2 |
| SceneFactory.QuadNormal | MathLibrary/Geometry/SceneFactory.cs:19-21 | a default normal becomes (0, 1, 0); any other normal is normalized |
| SceneFactory.CornersSymmetric | MathLibrary/Geometry/SceneFactory.cs:39-42 | opposite corners are symmetric about the center: p0 + p2 = p1 + p3 = 2 center |
| SceneFactory.SquareQuad | MathLibrary/Geometry/SceneFactory.cs:17-45 | the square overload returns exactly two triangles |
| SceneFactory.RectangleRight | MathLibrary/Geometry/SceneFactory.cs:57-75 | without a right vector, the right vector is chosen from the normal alone |
| SceneFactory.RightVectorChoice | MathLibrary/Geometry/SceneFactory.cs:57-75 | a near-vertical normal with no right vector gets (1, 0, 0); a given right vector, with its part along a unit normal removed and kept, is perpendicular to the normal |
| SceneFactory.RectangleQuad | MathLibrary/Geometry/SceneFactory.cs:47-88 | the rectangle overload returns exactly two triangles |
| SceneFactory.SquareIsRectangle | MathLibrary/Geometry/SceneFactory.cs:17-88 | the square overload is the rectangle overload with equal sides and no right vector |
| SceneFactory.SquareInPlane | MathLibrary/Geometry/SceneFactory.cs:28-44 | for a normal that is not near-vertical, every vertex of the square lies in the plane through the center perpendicular to the normal |
| GeometryGenerator.CellSharesDiagonal | TestProject/Renderer/GeometryGenerator.cs:43-50 | the two triangles of a cell share the vertices [i, j] and [i + 1, j + 1], each with the normal of its own grid point |
| GeometryGenerator.CellIsRadial | TestProject/Renderer/GeometryGenerator.cs:34-50 | every vertex normal of a cell points from the center to the vertex, normalized |
| GeometryGenerator.AppendRow | TestProject/Renderer/GeometryGenerator.cs:39-52 | appending one row of cells to the first rows gives the layout of one more row |
| GeometryGenerator.SphereRow | TestProject/Renderer/GeometryGenerator.cs:41-51 | one row holds the two triangles of every cell, i ascending, with radial normals |
| GeometryGenerator.GenerateSphere | TestProject/Renderer/GeometryGenerator.cs:9-54 | a segment count below -1 throws OverflowException; otherwise 2 * long * lat triangles, those of cell (i, j) at 2 (j long + i) and the next position, all with radial normals |
| GeometryGenerator.TransformUnitY | TestProject/Renderer/GeometryGenerator.cs:73 | the rotated Y axis is the rotation's image of the Y axis |
| GeometryGenerator.GeneratePlane | TestProject/Renderer/GeometryGenerator.cs:56-80 | exactly two triangles, the rotated Y axis as the normal at all six vertex slots, and the given material |
| GeometryGenerator.PlaneSymmetric | TestProject/Renderer/GeometryGenerator.cs:61-79 | the two triangles share the diagonal v1-v4, and opposite vertices are symmetric about the center |
| GeometryGenerator.PlaneOnFace | TestProject/Renderer/GeometryGenerator.cs:61-70 | when the rotation keeps the local X and Z axes out of a coordinate, the square lies in the plane of the center's value of that coordinate |
| GeometryGenerator.CornellBoxWith | TestProject/Renderer/GeometryGenerator.cs:82-101 | ten triangles: six with the wall material, then two red and two blue that differ from it only in albedo |
| GeometryGenerator.CornellBoxAsWritten | TestProject/Renderer/GeometryGenerator.cs:82-101 | the box as written, side walls turned about the Y axis, has ten triangles |
| GeometryGenerator.SideWallsAreHorizontal | TestProject/Renderer/GeometryGenerator.cs:94-98 | in the box as written, both side walls lie flat at height 0 with an upward normal |
| GeometryGenerator.CornellBox | TestProject/Renderer/GeometryGenerator.cs:82-101 | the box with the side walls turned about the Z axis has ten triangles |
| GeometryGenerator.CornellBoxWallsOnFaces | TestProject/Renderer/GeometryGenerator.cs:87-98 | each wall lies on its face of the cube [-half, half]^3 (floor, ceiling, back, left, right) and its normal points into the box |
| MathHelper.SignBits | MathLibrary/Core/MathHelper.cs:80 | i >> 31 is -1 exactly for a negative pattern and 0 otherwise |
| MathHelper.Magnitude | MathLibrary/Core/MathHelper.cs:82 | i & 0x7FFFFFFF clears the sign bit: the pattern itself when non-negative, the pattern plus 2^31 when negative |
| MathHelper.WrappingSub | MathLibrary/Core/MathHelper.cs:85 | the unchecked difference agrees with the true difference modulo 2^32, and equals it when it fits an int |
| MathHelper.CheckedAbs | MathLibrary/Core/MathHelper.cs:85 | Math.Abs throws OverflowException exactly for int.MinValue and otherwise returns the magnitude |
| MathHelper.UlpNeverThrows | MathLibrary/Core/MathHelper.cs:80-85 | the ULP comparison never throws, and for patterns of one sign it holds iff they are at most 4 apart |
| MathHelper.UlpOppositeSigns | MathLibrary/Core/MathHelper.cs:80-82 | with opposite sign bits the comparison holds only when both magnitudes are below 4 |
| MathHelper.UlpSignedZerosEqual | MathLibrary/Core/MathHelper.cs:80-82 | the patterns of +0 and -0 compare equal |
| MathHelper.UlpSymmetricReflexive | MathLibrary/Core/MathHelper.cs:73-86 | the ULP comparison is symmetric, and every pattern equals itself |
| MathHelper.Approximately | MathLibrary/Core/MathHelper.cs:25-36 | the dispatch throws ArgumentOutOfRangeException exactly for a method outside the five |
| MathHelper.DirectIsEquality | MathLibrary/Core/MathHelper.cs:15-48 | Direct is exact equality, and the default method is the fixed epsilon |
| MathHelper.ApproximatelySymmetricReflexive | MathLibrary/Core/MathHelper.cs:25-86 | every one of the five methods is symmetric and reflexive |
| MathHelper.ToleranceOrder | MathLibrary/Core/MathHelper.cs:42-67 | equal numbers pass the fixed epsilon, and whatever the fixed epsilon or the combined tolerance accepts, the relative epsilon accepts |

## Left out

- Floating point: rounding, NaN, infinities and signed zeros of IEEE single precision. Every value is an exact real.
- Square roots, sine, cosine, exp and log. Where a result depends on them, they are function parameters (`sqrt`, `normalize`, `invLength`, `transmittance`, the sphere's `surface`).
- Shading numerics: Schlick's Fresnel, GGX sampling, Reflect, Refract, the tangent frame, the camera ray and the hit position and normal after TraceRay. These are float formulas with no exact property.
- RandomInUnitSphere and RandomUnitVector. Their rejection loop has no termination bound.
- The accumulation-buffer write at the end of Execute (TestProject/RaytracingShader.cs:125-130). It is GPU I/O.
- GPU and program plumbing: buffer allocation, `device.For`, the clear and finalize shaders, the progress bar and image output. ImageRenderer.cs and Camera.cs are not part of this model.
- The vector, quaternion and matrix library under MathLibrary/Vector2, Vector3, Quaternion and Matrix4x4. The historical duplicate Box, Triangle, HitInfo and MeshTriangle variants, and SceneObjects.cs, are not part of this model either.
- The ComparisonMethod enumeration is not part of this model. Its five named members are taken from the switch in Approximately, and any other value is `Other`.
- MathHelper.Approximately: takes the comparison method as an argument instead of reading the settable DefaultComparisonMethod property. It takes the float-to-int reinterpretation of FloatIntUnion as a function `bitsOf`.
- Boxes.Offset: the axis is restricted to 0, 1, 2. The indexer's exception for any other axis is modelled once, in Vectors.Get.
- Rng.RandomFloat: the division by uint.MaxValue is exact. The single-precision rounding, which can turn outputs near uint.MaxValue into 1, is not modelled.
- SmoothBvh.SortByKey: Array.Sort is an unstable introspective sort. The model uses a stable insertion sort. Every property proved holds whatever order equal keys take.
- SmoothTracer.Intersect: the MeshTriangle overload of TryIntersect is not part of this model. It is the parameter `tryIntersect`.
- BvhTracer.Intersect: finds every triangle the walk cannot prune, not every triangle the ray hits. The 1e-6 parallel-slab guard can reject a box that contains a hit point, so unconditional completeness does not hold.
- GpuTraversal.TraceRay: the shader's IntersectBox is the parameter `boxTest`. The walk is shown to test every leaf only when no box is pruned and no push is dropped. The node array must be well formed, because an out-of-range index on the GPU is undefined behaviour rather than an exception.
- PathControl.Scatter: the Fresnel reflectance and whether the reflected GGX direction lies above the surface are inputs, not computed.
- PathControl.RunPath: the hit, draws and scattering values of each bounce come from a `world` function of the bounce number, not from tracing.
- GeometryGenerator.GenerateSphere: the radius and the trigonometric grid positions are abstracted into the `surface` function.
- GeometryGenerator.GeneratePlane: a quaternion is given by the images of the three axes. Over the reals, Vector3.Transform by a unit quaternion is exactly this linear map.
- SceneFactory.SquareQuad and SceneFactory.RectangleQuad: MathLibrary's guarded Vector3.Normalize (MathLibrary/Geometry/Vector3.cs:29-33) scales by the reciprocal length above epsilon and by 1 otherwise (`SceneFactory.NormalizeScales`); that factor is the parameter `invLength`, which is not computed.
- GpuTraversal.IntersectSphere: for a zero ray direction (a = 0) the shader divides 0 by 0 and stores a NaN distance; the model reports no hit.
- MedianBvh.BuildRecursiveAsWritten and SmoothBvh.BuildAsWritten: a fuel bound on the recursion depth stands in for the call stack. Running out of fuel is the model of a recursion that does not end.
- The median and smooth builders' caps: the corrected MedianBvh.Build and SmoothBvh.Build clamp the cap to at least 1, as LinearBvhBuilder does (see Findings).

## Findings

| source | as written | input that shows it | evidently intended | confidence | as-written member | corrected member |
|---|---|---|---|---|---|---|
| MathLibrary/BVH/BvhBuilder.cs:25-67 | A cap of 0 or less is used unclamped. A one-triangle list is never a leaf. Its plane split is always one-sided, and halving at count/2 = 0 hands the same list to the right child. | `Build([t], 0)` for any triangle t | clamp the cap to at least 1, as LinearBvhBuilder.cs:35 does, so that the recursion ends | high, not executed | MedianBvh.ZeroCapNeverFinishes | MedianBvh.Build |
| MathLibrary/BVH/SmoothBvhBuilder.cs:17-48 | A cap of 0 or less is used unclamped. For a one-triangle span, mid = 0 gives an empty left half and the same span again on the right. | `Build([m], 0)` for any mesh triangle m | clamp the cap to at least 1 | high, not executed | SmoothBvh.SmoothZeroCapNeverFinishes | SmoothBvh.Build |
| TestProject/Renderer/GeometryGenerator.cs:95,98 | The side walls are turned a quarter turn about the Y axis. That keeps each square horizontal at height 0, halfway between floor and ceiling, with an upward normal. | `GenerateCornellBox(2, m)`: all four side-wall triangles have every vertex at y = 0 | turn the side walls about the Z axis, so that they stand on x = -half and x = +half facing into the box | high, not executed | GeometryGenerator.SideWallsAreHorizontal | GeometryGenerator.CornellBoxWallsOnFaces |
