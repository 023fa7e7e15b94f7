/** The shader's random numbers (TestProject/RaytracingShader.cs): a PCG-style generator
    whose whole state is one unsigned 32-bit word, the uniform float derived from it, and the
    per-pixel seed of each batch. C#'s unchecked int and uint arithmetic wraps modulo 2^32;
    the model keeps words as integers in [0, 2^32) and reduces explicitly, and goes to bv32
    only for the shifts and exclusive-ors of the output function. */
module Rng {

  const Modulus: int := 0x1_0000_0000

  /** An unsigned 32-bit word. */
  type Word = n: int | 0 <= n < 0x1_0000_0000

  /** The LCG multiplier and increment of the state step. */
  const Multiplier: int := 747796405
  const Increment: int := 2891336453

  /** The multiplier of the output permutation. */
  const OutputMultiplier: bv32 := 277803737

  /** The inverse of Multiplier modulo 2^32 (the multiplier is odd, so one exists):
      Multiplier * MultiplierInverse == 1 + 596402259 * 2^32. */
  const MultiplierInverse: int := 3425435293

  /** The golden-ratio increment that separates the seeds of successive batches. */
  const BatchStride: int := 0x9E3779B9

  /** The inverse of BatchStride modulo 2^32:
      BatchStride * BatchStrideInverse == 1 + 210485888 * 2^32. */
  const BatchStrideInverse: int := 340573321

  /** Adding a multiple of 2^32 does not change a residue. */
  lemma {:induction false} ModAddMultiple(x: int, q: int)
    ensures (x + q * Modulus) % Modulus == x % Modulus
  {
    var r := x % Modulus;
    assert x == (x / Modulus) * Modulus + r;
    assert x + q * Modulus == (x / Modulus + q) * Modulus + r;
  }

  /** Reducing a factor before multiplying by a constant changes nothing modulo 2^32. */
  lemma {:induction false} ModMul(a: int, c: int)
    ensures (a % Modulus) * c % Modulus == a * c % Modulus
  {
    var q := a / Modulus;
    assert a == q * Modulus + a % Modulus;
    assert a * c == (a % Modulus) * c + (q * c) * Modulus;
    ModAddMultiple((a % Modulus) * c, q * c);
  }

  /** Undoes a state step. */
  function PreviousState(state: Word): Word {
    ((state - Increment) % Modulus) * MultiplierInverse % Modulus
  }

  /** The state update `state = state * 747796405u + 2891336453u`, modulo 2^32. */
  function NextState(state: Word): Word {
    (state * Multiplier + Increment) % Modulus
  }

  /** The step is a bijection on 32-bit words: PreviousState undoes it. */
  lemma {:induction false} StepInvertible(state: Word)
    ensures PreviousState(NextState(state)) == state
  {
    var n := NextState(state);
    var p := state * Multiplier;
    ModAddMultiple(p + Increment, 0);
    assert (n - Increment) % Modulus == p % Modulus by {
      assert n == (p + Increment) % Modulus;
      var k := (p + Increment) / Modulus;
      assert n - Increment == p + (-k) * Modulus;
      ModAddMultiple(p, -k);
    }
    ModMul(p, MultiplierInverse);
    assert p * MultiplierInverse == state + (state * 596402259) * Modulus;
    ModAddMultiple(state, state * 596402259);
  }

  /** Distinct states step to distinct states, so no two streams merge. */
  lemma StepInjective(a: Word, b: Word)
    requires a != b
    ensures NextState(a) != NextState(b)
  {
    StepInvertible(a);
    StepInvertible(b);
  }

  /** The data-dependent shift `(state >> 28) + 4` of the output function (the top four bits
      of the state, plus four). */
  function ShiftAmount(state: Word): (r: int)
    ensures 4 <= r <= 19
  {
    state / 0x1000_0000 + 4
  }

  /** The output of a freshly stepped state: a xorshift by ShiftAmount, a multiply, and a
      final xorshift by 22. */
  function Output(state: Word): Word {
    var s := state as bv32;
    var word := ((s >> ShiftAmount(state)) ^ s) * OutputMultiplier;
    ((word >> 22) ^ word) as int
  }

  /** RandomUInt(ref state): the stepped state, and an output that depends on nothing but
      that stepped state. */
  function RandomUInt(state: Word): (r: (Word, Word))
    ensures r.0 == NextState(state) && PreviousState(r.0) == state
    ensures r.1 == Output(r.0)
  {
    StepInvertible(state);
    var next := NextState(state);
    (next, Output(next))
  }

  /** uint.MaxValue as a float. */
  const UIntMax: real := 4294967295.0

  /** RandomFloat(ref state): the output divided by uint.MaxValue, so it lies in [0, 1] and is
      1 exactly for the output uint.MaxValue. (Single-precision rounding is not modelled.) */
  function RandomFloat(state: Word): (r: (Word, real))
    ensures r.0 == RandomUInt(state).0
    ensures 0.0 <= r.1 <= 1.0
    ensures r.1 == 1.0 <==> RandomUInt(state).1 == 0xFFFF_FFFF
  {
    var u := RandomUInt(state);
    (u.0, u.1 as real / UIntMax)
  }

  /** `(uint)(y * width + x)`: the row-major pixel index as the shader computes it, in int32
      arithmetic, reinterpreted as an unsigned word. */
  function PixelWord(x: int, y: int, width: int): Word {
    (y * width + x) % Modulus
  }

  /** The seed of pixel (x, y) in batch `batch`: `PixelWord + batch * 0x9E3779B9`, mod 2^32. */
  function Seed(x: int, y: int, width: int, batch: Word): Word {
    (PixelWord(x, y, width) + batch * BatchStride) % Modulus
  }

  /** Recovers the batch number from a pixel's seed. */
  function BatchOf(seed: Word, pixel: Word): Word {
    ((seed - pixel) % Modulus) * BatchStrideInverse % Modulus
  }

  /** Within one batch the seed is determined by the pixel index and the batch by the seed:
      one pixel gets a different seed in each of the 2^32 batches. */
  lemma {:induction false} SeedDeterminesBatch(x: int, y: int, width: int, batch: Word)
    ensures BatchOf(Seed(x, y, width, batch), PixelWord(x, y, width)) == batch
  {
    var p := PixelWord(x, y, width);
    var b := batch * BatchStride;
    var s := Seed(x, y, width, batch);
    assert (s - p) % Modulus == b % Modulus by {
      var k := (p + b) / Modulus;
      assert s - p == b + (-k) * Modulus;
      ModAddMultiple(b, -k);
    }
    ModMul(b, BatchStrideInverse);
    assert b * BatchStrideInverse == batch + (batch * 210485888) * Modulus;
    ModAddMultiple(batch, batch * 210485888);
  }

  /** Two different batches never give a pixel the same seed. */
  lemma SeedsDistinctAcrossBatches(x: int, y: int, width: int, b1: Word, b2: Word)
    requires b1 != b2
    ensures Seed(x, y, width, b1) != Seed(x, y, width, b2)
  {
    SeedDeterminesBatch(x, y, width, b1);
    SeedDeterminesBatch(x, y, width, b2);
  }

  /** Within one batch, pixels whose indices differ as words get different seeds. */
  lemma SeedsDistinctInBatch(x1: int, y1: int, x2: int, y2: int, width: int, batch: Word)
    requires PixelWord(x1, y1, width) != PixelWord(x2, y2, width)
    ensures Seed(x1, y1, width, batch) != Seed(x2, y2, width, batch)
  {
  }

  /** The same pixel in the next batch starts from a seed 0x9E3779B9 further on. */
  lemma {:induction false} NextBatchSeed(x: int, y: int, width: int, batch: Word)
    requires batch + 1 < Modulus
    ensures Seed(x, y, width, batch + 1) == (Seed(x, y, width, batch) + BatchStride) % Modulus
  {
    var t := PixelWord(x, y, width) + batch * BatchStride;
    var k := t / Modulus;
    assert Seed(x, y, width, batch) == t + (-k) * Modulus;
    ModAddMultiple(t + BatchStride, -k);
  }
}
