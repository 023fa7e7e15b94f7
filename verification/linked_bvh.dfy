/** The linked tree nodes of BVH/BvhNode.cs and BVH/SmoothBvhNode.cs. Both classes have the
    same shape (a box, two optional children, an optional primitive list) and differ only in
    the primitive type, so one generic datatype serves both: `Node<Tri>` is BvhNode and
    `Node<MeshTriangle>` is SmoothBvhNode. A `None` child or primitive list is a null
    reference. */
module LinkedBvh {
  import opened Wrappers
  import opened Vectors
  import opened Boxes
  import opened Primitives

  datatype Node<P> = Node(box: Box, left: Option<Node<P>>, right: Option<Node<P>>, primitives: Option<seq<P>>)

  /** A node is a leaf when it has neither child. */
  predicate IsLeaf<P>(n: Node<P>) {
    n.left.None? && n.right.None?
  }

  /** The interior-node constructor: both children stored, no primitive list. */
  function Interior<P>(box: Box, left: Node<P>, right: Node<P>): (n: Node<P>)
    ensures n.box == box && n.left == Some(left) && n.right == Some(right) && n.primitives.None?
    ensures !IsLeaf(n)
    ensures Leaves(n) == Leaves(left) + Leaves(right)
  {
    Node(box, Some(left), Some(right), None)
  }

  /** The leaf constructor: no children, the given primitive list. */
  function Leaf<P>(box: Box, primitives: seq<P>): (n: Node<P>)
    ensures n.box == box && n.left.None? && n.right.None? && n.primitives == Some(primitives)
    ensures IsLeaf(n)
    ensures Leaves(n) == primitives
  {
    Node(box, None, None, Some(primitives))
  }

  /** The primitives of the leaves below `n`, left subtree before right subtree. */
  function Leaves<P>(n: Node<P>): seq<P>
    decreases n
  {
    if IsLeaf(n) then
      (if n.primitives.Some? then n.primitives.value else [])
    else
      (if n.left.Some? then Leaves(n.left.value) else [])
      + (if n.right.Some? then Leaves(n.right.value) else [])
  }

  /** The number of nodes in the tree below (and including) `n`. */
  function NodeCount<P>(n: Node<P>): (r: nat)
    ensures r >= 1
    decreases n
  {
    1 + (if n.left.Some? then NodeCount(n.left.value) else 0)
      + (if n.right.Some? then NodeCount(n.right.value) else 0)
  }

  /** The number of nodes in the trees on a stack of nodes (top last); the tracers' walks
      make it smaller at every pop. */
  function StackSize<P>(s: seq<Node<P>>): nat
    decreases |s|
  {
    if |s| == 0 then 0 else StackSize(s[..|s| - 1]) + NodeCount(s[|s| - 1])
  }

  lemma StackSizePush<P>(s: seq<Node<P>>, x: Node<P>)
    ensures StackSize(s + [x]) == StackSize(s) + NodeCount(x)
  {
    assert (s + [x])[..|s|] == s;
  }

  /** The shape both builders produce and both tracers rely on: every interior node has two
      children and no primitive list, and every leaf has a primitive list. */
  predicate Shaped<P>(n: Node<P>)
    decreases n
  {
    if IsLeaf(n) then n.primitives.Some?
    else
      && n.left.Some? && n.right.Some? && n.primitives.None?
      && Shaped(n.left.value) && Shaped(n.right.value)
  }

  /** Every node on a stack of nodes is shaped. */
  ghost predicate AllShaped<P>(s: seq<Node<P>>) {
    forall k :: 0 <= k < |s| ==> Shaped(s[k])
  }

  /** Every leaf holds between 1 and `cap` primitives. */
  predicate LeavesWithin<P>(n: Node<P>, cap: int)
    decreases n
  {
    if IsLeaf(n) then n.primitives.Some? && 1 <= |n.primitives.value| <= cap
    else
      && (n.left.Some? ==> LeavesWithin(n.left.value, cap))
      && (n.right.Some? ==> LeavesWithin(n.right.value, cap))
  }

  /** The box contains the three vertices of the triangle. */
  predicate ContainsTri(b: Box, t: Tri) {
    ContainsPoint(b, t.a) && ContainsPoint(b, t.b) && ContainsPoint(b, t.c)
  }

  /** Every node's box contains every vertex of every primitive below it; `geometry` gives
      a primitive's triangle. */
  predicate BoxesCover<P>(n: Node<P>, geometry: P -> Tri)
    decreases n
  {
    && (forall k :: 0 <= k < |Leaves(n)| ==> ContainsTri(n.box, geometry(Leaves(n)[k])))
    && (n.left.Some? ==> BoxesCover(n.left.value, geometry))
    && (n.right.Some? ==> BoxesCover(n.right.value, geometry))
  }

  /** In a shaped tree there is one more leaf than interior node, so the node count is odd
      and bounded by the number of primitives. */
  lemma {:induction false} ShapedNodeCount<P>(n: Node<P>, cap: int)
    requires Shaped(n) && LeavesWithin(n, cap)
    ensures NodeCount(n) % 2 == 1
    ensures NodeCount(n) <= 2 * |Leaves(n)| - 1
    decreases n
  {
    if !IsLeaf(n) {
      ShapedNodeCount(n.left.value, cap);
      ShapedNodeCount(n.right.value, cap);
    }
  }
}
