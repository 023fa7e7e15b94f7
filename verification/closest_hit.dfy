/** The closest-hit scan shared by both tracers in Tracing/BvhTracer.cs and
    Tracing/SmoothBvhTracer.cs: the primitives are tested one after another, and a hit
    replaces the current best only when its distance is strictly below the current closest
    distance. `test` is the ray-primitive test of the tracer. */
module ClosestHit {
  import opened Wrappers
  import opened Boxes
  import opened Raycast

  /** The closest distance so far and the primitive it belongs to, if any. */
  datatype Closest<P> = Closest(distance: real, best: Option<P>)

  /** Before any test: float.MaxValue and no primitive. */
  function Start<P>(): Closest<P> {
    Closest(FloatMax, None)
  }

  /** One test: a hit strictly closer than the current closest distance replaces it. */
  function Step<P>(test: P -> TestResult, p: P, c: Closest<P>): Closest<P> {
    var h := test(p);
    if h.hit && h.distance < c.distance then Closest(h.distance, Some(p)) else c
  }

  /** The primitives tested in order. The closest distance only ever decreases, a changed
      result belongs to a primitive of the list hit at exactly that distance, and no hit
      in the list is closer than the result. */
  function Scan<P(==)>(test: P -> TestResult, ps: seq<P>, c: Closest<P>): (r: Closest<P>)
    ensures r.distance <= c.distance
    ensures r == c || (r.best.Some? && r.best.value in ps && test(r.best.value) == TestResult(true, r.distance) && r.distance < c.distance)
    ensures forall k :: 0 <= k < |ps| && test(ps[k]).hit ==> r.distance <= test(ps[k]).distance
    decreases |ps|
  {
    if |ps| == 0 then c
    else
      var r := Scan(test, ps[1..], Step(test, ps[0], c));
      assert forall k :: 1 <= k < |ps| ==> ps[k] == ps[1..][k - 1];
      r
  }

  /** Scanning two lists one after the other is scanning their concatenation. */
  lemma {:induction false} ScanConcat<P>(test: P -> TestResult, a: seq<P>, b: seq<P>, c: Closest<P>)
    ensures Scan(test, a + b, c) == Scan(test, b, Scan(test, a, c))
    decreases |a|
  {
    if |a| == 0 {
      assert a + b == b;
    } else {
      assert (a + b)[0] == a[0];
      assert (a + b)[1..] == a[1..] + b;
      ScanConcat(test, a[1..], b, Step(test, a[0], c));
    }
  }

  /** The position of the first primitive hit at exactly distance `d` (|ps| if none). */
  function FirstHitAt<P>(test: P -> TestResult, ps: seq<P>, d: real): (k: nat)
    ensures k <= |ps|
    ensures k < |ps| ==> test(ps[k]) == TestResult(true, d)
    ensures forall j :: 0 <= j < k ==> test(ps[j]) != TestResult(true, d)
    decreases |ps|
  {
    if |ps| == 0 then 0
    else if test(ps[0]) == TestResult(true, d) then 0
    else 1 + FirstHitAt(test, ps[1..], d)
  }

  /** Ties go to the earliest primitive: a changed result holds the first primitive of the
      list that is hit at the result distance. */
  lemma {:induction false} ScanPicksFirst<P>(test: P -> TestResult, ps: seq<P>, c: Closest<P>)
    ensures var r := Scan(test, ps, c);
      r != c ==> FirstHitAt(test, ps, r.distance) < |ps| && r.best == Some(ps[FirstHitAt(test, ps, r.distance)])
    decreases |ps|
  {
    if |ps| > 0 {
      var c1 := Step(test, ps[0], c);
      var r := Scan(test, ps, c);
      assert r == Scan(test, ps[1..], c1);
      ScanPicksFirst(test, ps[1..], c1);
      if r != c {
        if r == c1 {
          assert test(ps[0]) == TestResult(true, r.distance);
        } else {
          assert r.distance < c1.distance;
          assert test(ps[0]) != TestResult(true, r.distance);
          assert FirstHitAt(test, ps, r.distance) == 1 + FirstHitAt(test, ps[1..], r.distance);
        }
      }
    }
  }

  /** From the start state the scan is brute force over the list: it reports a primitive
      exactly when some primitive is hit below float.MaxValue, and the reported distance is
      the least hit distance. */
  lemma ScanFromStart<P>(test: P -> TestResult, ps: seq<P>)
    ensures var r := Scan(test, ps, Start());
      && (r.best.Some? <==> exists k :: 0 <= k < |ps| && test(ps[k]).hit && test(ps[k]).distance < FloatMax)
      && (r.best.Some? ==> r.best.value in ps && test(r.best.value) == TestResult(true, r.distance))
      && (r.best.None? ==> r.distance == FloatMax)
      && (forall k :: 0 <= k < |ps| && test(ps[k]).hit ==> r.distance <= test(ps[k]).distance)
  {
    var r := Scan(test, ps, Start());
    if r.best.Some? {
      var k :| 0 <= k < |ps| && ps[k] == r.best.value;
      assert test(ps[k]).hit && test(ps[k]).distance < FloatMax;
    }
  }
}
