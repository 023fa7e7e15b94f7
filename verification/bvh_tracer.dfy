/** Tracing/BvhTracer.cs: the nearest-hit walk over a linked median tree. An explicit stack
    holds the nodes still to visit; a leaf's triangles go through the closest-hit scan, and
    an interior node pushes each child whose box the ray enters strictly before the current
    closest distance, the nearer child last so that it is visited first. */
module BvhTracer {
  import opened Wrappers
  import opened Vectors
  import opened Boxes
  import opened Primitives
  import opened Raycast
  import opened LinkedBvh
  import opened ClosestHit

  datatype HitInfo = HitInfo(hitTriangle: Tri, distance: real)

  /** default(HitInfo): the all-zero triangle at distance 0. */
  const DefaultHit := HitInfo(Tri(Zero, Zero, Zero), 0.0)

  /** The ray-triangle test as a function of the triangle. */
  function TriangleTest(ray: Ray): Tri -> TestResult {
    (t: Tri) => TryIntersectTriangle(ray, t)
  }

  /** The children of an interior node to push, in push order: those whose box is hit at
      an entry distance strictly below `closest`; when both qualify the nearer one comes
      last (so it is popped first), and on equal distances the right one does. */
  function ChildrenToPush(ray: Ray, left: Node<Tri>, right: Node<Tri>, closest: real): (r: seq<Node<Tri>>)
    ensures |r| <= 2
    ensures forall k :: 0 <= k < |r| ==> (r[k] == left || r[k] == right)
    ensures forall k :: 0 <= k < |r| ==>
      TryIntersectBox(ray, r[k].box).hit && TryIntersectBox(ray, r[k].box).distance < closest
    ensures TryIntersectBox(ray, left.box).hit && TryIntersectBox(ray, left.box).distance < closest ==> left in r
    ensures TryIntersectBox(ray, right.box).hit && TryIntersectBox(ray, right.box).distance < closest ==> right in r
    ensures |r| == 2 ==> r[0] != r[1] || left == right
    ensures |r| == 2 ==> TryIntersectBox(ray, r[1].box).distance <= TryIntersectBox(ray, r[0].box).distance
    ensures |r| == 2 && TryIntersectBox(ray, left.box).distance == TryIntersectBox(ray, right.box).distance ==> r[1] == right
  {
    var bl := TryIntersectBox(ray, left.box);
    var br := TryIntersectBox(ray, right.box);
    var hitLeft := bl.hit && bl.distance < closest;
    var hitRight := br.hit && br.distance < closest;
    if hitLeft && hitRight then
      (if bl.distance < br.distance then [right, left] else [left, right])
    else if hitLeft then [left]
    else if hitRight then [right]
    else []
  }

  /** Triangle `t` lies in a leaf below `n` that the walk cannot prune before reaching it:
      every box on the way, `n`'s included, is entered no later than distance `d`. */
  predicate Reaches(ray: Ray, n: Node<Tri>, t: Tri, d: real)
    decreases n
  {
    var b := TryIntersectBox(ray, n.box);
    && b.hit && b.distance <= d
    && if IsLeaf(n) then n.primitives.Some? && t in n.primitives.value
       else (n.left.Some? && Reaches(ray, n.left.value, t, d)) || (n.right.Some? && Reaches(ray, n.right.value, t, d))
  }

  /** Some node on the stack reaches `t`. */
  predicate StackReaches(ray: Ray, s: seq<Node<Tri>>, t: Tri, d: real)
    decreases |s|
  {
    |s| > 0 && (Reaches(ray, s[|s| - 1], t, d) || StackReaches(ray, s[..|s| - 1], t, d))
  }

  /** A triangle the walk must not miss: hit below float.MaxValue and reachable. */
  predicate Findable(ray: Ray, root: Node<Tri>, t: Tri) {
    var h := TryIntersectTriangle(ray, t);
    h.hit && h.distance < FloatMax && Reaches(ray, root, t, h.distance)
  }

  /** Every primitive below a node on the stack is a primitive of the tree. */
  ghost predicate WithinTree(s: seq<Node<Tri>>, root: Node<Tri>) {
    forall k, t :: 0 <= k < |s| && t in Leaves(s[k]) ==> t in Leaves(root)
  }

  lemma {:induction false} ReachesIsLeaf(ray: Ray, n: Node<Tri>, t: Tri, d: real)
    requires Reaches(ray, n, t, d)
    ensures t in Leaves(n)
    decreases n
  {
    if !IsLeaf(n) {
      if n.left.Some? && Reaches(ray, n.left.value, t, d) {
        ReachesIsLeaf(ray, n.left.value, t, d);
      } else {
        ReachesIsLeaf(ray, n.right.value, t, d);
      }
    }
  }

  /** The distance at which the ray test reports triangle `t`. */
  function Dist(ray: Ray, t: Tri): real {
    TryIntersectTriangle(ray, t).distance
  }

  /** The stack holds shaped subtrees of the tree. */
  ghost predicate StackOk(s: seq<Node<Tri>>, tree: Node<Tri>) {
    (forall k :: 0 <= k < |s| ==> Shaped(s[k])) && WithinTree(s, tree)
  }

  /** The current best is a triangle of the tree hit at exactly the closest distance, and
      without one the closest distance is still float.MaxValue. */
  ghost predicate Sound(ray: Ray, tree: Node<Tri>, c: Closest<Tri>) {
    && (c.best.Some? ==> c.best.value in Leaves(tree) && TryIntersectTriangle(ray, c.best.value) == TestResult(true, c.distance))
    && (c.best.None? ==> c.distance == FloatMax)
  }

  /** No findable triangle is lost: it is no closer than the current distance, or a node on
      the stack still reaches it. */
  ghost predicate Covers(ray: Ray, tree: Node<Tri>, s: seq<Node<Tri>>, c: Closest<Tri>) {
    forall t :: Findable(ray, tree, t) ==> c.distance <= Dist(ray, t) || StackReaches(ray, s, t, Dist(ray, t))
  }

  /** Intersect. A missing root, or a root box the ray misses, gives false and the default
      hit. Otherwise a reported hit is a triangle of the tree that the ray hits at the
      reported distance, and no triangle the walk can reach is hit any closer. */
  method Intersect(root: Option<Node<Tri>>, ray: Ray) returns (hit: bool, hitInfo: HitInfo)
    requires root.Some? ==> Shaped(root.value)
    ensures root.None? || !TryIntersectBox(ray, root.value.box).hit ==> !hit
    ensures !hit ==> hitInfo == DefaultHit
    ensures hit ==> root.Some? && hitInfo.hitTriangle in Leaves(root.value)
    ensures hit ==> TryIntersectTriangle(ray, hitInfo.hitTriangle) == TestResult(true, hitInfo.distance)
    ensures root.Some? ==> forall t :: Findable(ray, root.value, t) ==>
      hit && hitInfo.distance <= TryIntersectTriangle(ray, t).distance
  {
    hitInfo := DefaultHit;
    if root.None? || !TryIntersectBox(ray, root.value.box).hit {
      hit := false;
      return;
    }
    var tree := root.value;
    var test := TriangleTest(ray);
    var c: Closest<Tri> := Start();
    var stack := [tree];
    StartCovers(ray, tree);
    while |stack| > 0
      invariant StackOk(stack, tree)
      invariant Sound(ray, tree, c)
      invariant Covers(ray, tree, stack, c)
      decreases StackSize(stack)
    {
      var node := stack[|stack| - 1];
      var rest := stack[..|stack| - 1];
      if IsLeaf(node) {
        LeafStep(ray, tree, stack, c);
        c := Scan(test, node.primitives.value, c);
        stack := rest;
      } else {
        var pushes := ChildrenToPush(ray, node.left.value, node.right.value, c.distance);
        InteriorStep(ray, tree, stack, c);
        stack := rest + pushes;
      }
    }
    EmptyStackCovers(ray, tree, c);
    if c.best.Some? {
      hit := true;
      hitInfo := HitInfo(c.best.value, c.distance);
    } else {
      hit := false;
    }
  }

  lemma StartCovers(ray: Ray, tree: Node<Tri>)
    ensures Covers(ray, tree, [tree], Start())
  {
    forall t | Findable(ray, tree, t)
      ensures StackReaches(ray, [tree], t, Dist(ray, t))
    {
      assert [tree][..0] == [];
    }
  }

  /** With the stack empty, every findable triangle is at or beyond the closest distance,
      and so the walk has found a triangle whenever there is a findable one. */
  lemma EmptyStackCovers(ray: Ray, tree: Node<Tri>, c: Closest<Tri>)
    requires Sound(ray, tree, c) && Covers(ray, tree, [], c)
    ensures forall t :: Findable(ray, tree, t) ==> c.best.Some? && c.distance <= Dist(ray, t)
  {
  }

  /** Scanning and popping a leaf keeps the walk's invariants and shrinks the stack. */
  lemma LeafStep(ray: Ray, tree: Node<Tri>, stack: seq<Node<Tri>>, c: Closest<Tri>)
    requires |stack| > 0 && IsLeaf(stack[|stack| - 1])
    requires StackOk(stack, tree) && Sound(ray, tree, c) && Covers(ray, tree, stack, c)
    ensures stack[|stack| - 1].primitives.Some?
    ensures var c' := Scan(TriangleTest(ray), stack[|stack| - 1].primitives.value, c);
      && StackOk(stack[..|stack| - 1], tree) && Sound(ray, tree, c') && Covers(ray, tree, stack[..|stack| - 1], c')
    ensures StackSize(stack[..|stack| - 1]) < StackSize(stack)
  {
    var node := stack[|stack| - 1];
    var rest := stack[..|stack| - 1];
    assert Shaped(node);
    var prims := node.primitives.value;
    var c' := Scan(TriangleTest(ray), prims, c);
    if c' != c {
      var b := c'.best.value;
      assert b in Leaves(node);
      assert b in Leaves(tree) by {
        assert WithinTree(stack, tree);
        assert b in Leaves(stack[|stack| - 1]);
      }
    }
    assert StackOk(rest, tree) by {
      forall k | 0 <= k < |rest|
        ensures Shaped(rest[k])
      {
        assert rest[k] == stack[k];
      }
      forall k, t | 0 <= k < |rest| && t in Leaves(rest[k])
        ensures t in Leaves(tree)
      {
        assert rest[k] == stack[k];
      }
    }
    forall t | Findable(ray, tree, t)
      ensures c'.distance <= Dist(ray, t) || StackReaches(ray, rest, t, Dist(ray, t))
    {
      LeafStepOne(ray, stack, c, t);
    }
  }

  lemma LeafStepOne(ray: Ray, stack: seq<Node<Tri>>, c: Closest<Tri>, t: Tri)
    requires |stack| > 0 && IsLeaf(stack[|stack| - 1]) && stack[|stack| - 1].primitives.Some?
    requires TryIntersectTriangle(ray, t).hit
    requires c.distance <= Dist(ray, t) || StackReaches(ray, stack, t, Dist(ray, t))
    ensures Scan(TriangleTest(ray), stack[|stack| - 1].primitives.value, c).distance <= Dist(ray, t)
      || StackReaches(ray, stack[..|stack| - 1], t, Dist(ray, t))
  {
    var node := stack[|stack| - 1];
    var prims := node.primitives.value;
    var d := Dist(ray, t);
    if c.distance > d && !StackReaches(ray, stack[..|stack| - 1], t, d) {
      assert Reaches(ray, node, t, d);
      assert t in prims;
      var k :| 0 <= k < |prims| && prims[k] == t;
      assert TriangleTest(ray)(prims[k]) == TryIntersectTriangle(ray, t);
    }
  }

  /** Popping an interior node and pushing its qualifying children keeps the walk's
      invariants and shrinks the stack. */
  lemma InteriorStep(ray: Ray, tree: Node<Tri>, stack: seq<Node<Tri>>, c: Closest<Tri>)
    requires |stack| > 0 && !IsLeaf(stack[|stack| - 1])
    requires StackOk(stack, tree) && Sound(ray, tree, c) && Covers(ray, tree, stack, c)
    ensures stack[|stack| - 1].left.Some? && stack[|stack| - 1].right.Some?
    ensures var pushes := ChildrenToPush(ray, stack[|stack| - 1].left.value, stack[|stack| - 1].right.value, c.distance);
      && StackOk(stack[..|stack| - 1] + pushes, tree) && Covers(ray, tree, stack[..|stack| - 1] + pushes, c)
      && StackSize(stack[..|stack| - 1] + pushes) < StackSize(stack)
  {
    var node := stack[|stack| - 1];
    assert Shaped(node);
    var pushes := ChildrenToPush(ray, node.left.value, node.right.value, c.distance);
    InteriorStackOk(tree, stack, pushes);
    forall t | Findable(ray, tree, t)
      ensures c.distance <= Dist(ray, t) || StackReaches(ray, stack[..|stack| - 1] + pushes, t, Dist(ray, t))
    {
      InteriorStepOne(ray, stack, c, t);
    }
    PushShrinks(stack, pushes);
  }

  lemma InteriorStackOk(tree: Node<Tri>, stack: seq<Node<Tri>>, pushes: seq<Node<Tri>>)
    requires |stack| > 0 && StackOk(stack, tree)
    requires Shaped(stack[|stack| - 1]) && !IsLeaf(stack[|stack| - 1])
    requires forall k :: 0 <= k < |pushes| ==>
      (Some(pushes[k]) == stack[|stack| - 1].left || Some(pushes[k]) == stack[|stack| - 1].right)
    ensures StackOk(stack[..|stack| - 1] + pushes, tree)
  {
    var node := stack[|stack| - 1];
    var rest := stack[..|stack| - 1];
    var s' := rest + pushes;
    assert Leaves(node) == Leaves(node.left.value) + Leaves(node.right.value);
    forall k | 0 <= k < |s'|
      ensures Shaped(s'[k]) && forall t :: t in Leaves(s'[k]) ==> t in Leaves(tree)
    {
      if k < |rest| {
        assert s'[k] == stack[k];
      } else {
        assert s'[k] == pushes[k - |rest|];
      }
    }
  }

  lemma InteriorStepOne(ray: Ray, stack: seq<Node<Tri>>, c: Closest<Tri>, t: Tri)
    requires |stack| > 0 && Shaped(stack[|stack| - 1]) && !IsLeaf(stack[|stack| - 1])
    requires c.distance <= Dist(ray, t) || StackReaches(ray, stack, t, Dist(ray, t))
    ensures var node := stack[|stack| - 1];
      var pushes := ChildrenToPush(ray, node.left.value, node.right.value, c.distance);
      c.distance <= Dist(ray, t) || StackReaches(ray, stack[..|stack| - 1] + pushes, t, Dist(ray, t))
  {
    var node := stack[|stack| - 1];
    var rest := stack[..|stack| - 1];
    var pushes := ChildrenToPush(ray, node.left.value, node.right.value, c.distance);
    var d := Dist(ray, t);
    if c.distance > d {
      if StackReaches(ray, rest, t, d) {
        StackReachesGrows(ray, rest, pushes, t, d);
      } else {
        assert Reaches(ray, node, t, d);
        var child := if Reaches(ray, node.left.value, t, d) then node.left.value else node.right.value;
        assert Reaches(ray, child, t, d);
        assert child in pushes;
        StackReachesMember(ray, rest + pushes, child, t, d);
      }
    }
  }

  /** Replacing the top node by some of its children makes the stack smaller. */
  lemma PushShrinks(stack: seq<Node<Tri>>, pushes: seq<Node<Tri>>)
    requires |stack| > 0 && |pushes| <= 2
    requires forall k :: 0 <= k < |pushes| ==>
      (stack[|stack| - 1].left == Some(pushes[k]) || stack[|stack| - 1].right == Some(pushes[k]))
    requires |pushes| == 2 ==> pushes[0] != pushes[1] || stack[|stack| - 1].left == stack[|stack| - 1].right
    ensures StackSize(stack[..|stack| - 1] + pushes) < StackSize(stack)
  {
    var rest := stack[..|stack| - 1];
    var node := stack[|stack| - 1];
    if |pushes| == 0 {
      assert rest + pushes == rest;
    } else if |pushes| == 1 {
      StackSizePush(rest, pushes[0]);
    } else {
      var p0, p1 := pushes[0], pushes[1];
      assert pushes == [p0, p1];
      assert rest + [p0, p1] == rest + [p0] + [p1];
      StackSizePush(rest, p0);
      StackSizePush(rest + [p0], p1);
      TwoChildrenSmaller(node, p0, p1);
    }
  }

  /** Two children of a node, distinct unless both child slots hold the same subtree,
      count fewer nodes than the node itself. */
  lemma TwoChildrenSmaller(node: Node<Tri>, p0: Node<Tri>, p1: Node<Tri>)
    requires node.left == Some(p0) || node.right == Some(p0)
    requires node.left == Some(p1) || node.right == Some(p1)
    requires p0 != p1 || node.left == node.right
    ensures NodeCount(p0) + NodeCount(p1) < NodeCount(node)
  {
    if p0 == p1 {
      assert node.left == node.right == Some(p0);
    } else if node.left == Some(p0) {
      assert node.right == Some(p1);
    } else {
      assert node.left == Some(p1) && node.right == Some(p0);
    }
  }

  lemma {:induction false} StackReachesGrows(ray: Ray, s: seq<Node<Tri>>, extra: seq<Node<Tri>>, t: Tri, d: real)
    requires StackReaches(ray, s, t, d)
    ensures StackReaches(ray, s + extra, t, d)
    decreases |extra|
  {
    if |extra| > 0 {
      var init := s + extra[..|extra| - 1];
      assert extra == extra[..|extra| - 1] + [extra[|extra| - 1]];
      assert s + extra == init + [extra[|extra| - 1]];
      StackReachesGrows(ray, s, extra[..|extra| - 1], t, d);
      assert (s + extra)[..|s + extra| - 1] == init;
    } else {
      assert s + extra == s;
    }
  }

  lemma {:induction false} StackReachesMember(ray: Ray, s: seq<Node<Tri>>, n: Node<Tri>, t: Tri, d: real)
    requires n in s && Reaches(ray, n, t, d)
    ensures StackReaches(ray, s, t, d)
    decreases |s|
  {
    if s[|s| - 1] != n {
      assert n in s[..|s| - 1] by {
        var k :| 0 <= k < |s| && s[k] == n;
        assert k < |s| - 1;
        assert s[..|s| - 1][k] == n;
      }
      StackReachesMember(ray, s[..|s| - 1], n, t, d);
    }
  }
}
