/** The approximate comparison of MathLibrary/Core/MathHelper.cs: five ways to decide that two
    single-precision numbers are equal, chosen by a comparison method. Numbers are reals (no
    NaN or infinities, no rounding); the ULP method works on the 32-bit pattern of each
    number, which the model takes as a function `bitsOf` from the number to a signed 32-bit
    integer (the FloatIntUnion reinterpretation). */
module MathHelper {
  import opened Wrappers
  import opened Vectors

  const Epsilon: real := 0.000001
  const RelativeTolerance: real := 0.00001
  const AbsoluteTolerance: real := 0.00000001
  const MaxUlp: int := 4

  /** C#'s `int`. */
  type Int32 = n: int | -0x8000_0000 <= n < 0x8000_0000

  const IntMinValue: Int32 := -0x8000_0000

  /** The comparison methods the dispatch names; any other value of the enumeration is
      `Other`. */
  datatype ComparisonMethod = Direct | FixedEpsilon | RelativeEpsilon | CombinedTolerance | Ulp | Other(value: int)

  const DefaultComparisonMethod := FixedEpsilon

  /** Method 1: exact equality. */
  predicate CompareDirectly(a: real, b: real) {
    a == b
  }

  /** Method 2: the difference is below Epsilon. */
  predicate CompareUsingFixedEpsilon(a: real, b: real) {
    Abs(a - b) < Epsilon
  }

  /** Method 3: the fixed epsilon, or a difference of at most RelativeTolerance times the
      larger magnitude. */
  predicate CompareUsingRelativeEpsilon(a: real, b: real) {
    CompareUsingFixedEpsilon(a, b) || Abs(a - b) <= RelativeTolerance * RealMax(Abs(a), Abs(b))
  }

  /** Method 4: a difference of at most the larger of AbsoluteTolerance and RelativeTolerance
      times the larger magnitude. */
  predicate CompareUsingCombinedTolerance(a: real, b: real) {
    Abs(a - b) <= RealMax(AbsoluteTolerance, RelativeTolerance * RealMax(Abs(a), Abs(b)))
  }

  // ---------------------------------------------------------------------------------------
  // Method 5: units in the last place, on the bit patterns

  /** `i >> 31` on an int: the sign bit spread over the word, -1 for a negative pattern. */
  function SignBits(i: Int32): (r: int)
    ensures r == -1 <==> i < 0
    ensures r == 0 <==> i >= 0
  {
    if i < 0 then -1 else 0
  }

  /** `i & 0x7FFFFFFF`: the pattern without its sign bit, the magnitude of the number. */
  function Magnitude(i: Int32): (r: int)
    ensures 0 <= r < 0x8000_0000
    ensures i >= 0 ==> r == i
    ensures i < 0 ==> r == i + 0x8000_0000
  {
    i % 0x8000_0000
  }

  /** Unchecked int subtraction: the difference wrapped into the 32-bit range. */
  function WrappingSub(a: Int32, b: Int32): (r: Int32)
    ensures (r - (a - b)) % 0x1_0000_0000 == 0
    ensures -0x8000_0000 <= a - b < 0x8000_0000 ==> r == a - b
  {
    (a - b + 0x8000_0000) % 0x1_0000_0000 - 0x8000_0000
  }

  /** Math.Abs on an int: OverflowException for int.MinValue, whose magnitude is not an int. */
  function CheckedAbs(i: Int32): (r: Result<Int32>)
    ensures r.Failure? <==> i == IntMinValue
    ensures r.Failure? ==> r.error == OverflowException
    ensures r.Success? ==> r.value >= 0 && (r.value == i || r.value == -i)
  {
    if i == IntMinValue then Failure(OverflowException) else Success(if i < 0 then -i else i)
  }

  /** CompareUsingUlp on the two bit patterns: with different sign bits, equal only when both
      magnitudes are below MaxUlp (both zeros, or nearly); otherwise equal when the patterns
      are at most MaxUlp apart, the difference taken with wrap-around and its absolute value
      with Math.Abs. */
  function CompareUsingUlp(a: Int32, b: Int32): Result<bool> {
    if SignBits(a) != SignBits(b) then
      Success(Magnitude(a) < MaxUlp && Magnitude(b) < MaxUlp)
    else
      match CheckedAbs(WrappingSub(a, b))
      case Success(d) => Success(d <= MaxUlp)
      case Failure(e) => Failure(e)
  }

  /** With equal sign bits the subtraction stays in range, so Math.Abs never throws: the ULP
      comparison always succeeds, and for patterns of one sign it holds exactly when they
      are at most MaxUlp apart. */
  lemma UlpNeverThrows(a: Int32, b: Int32)
    ensures CompareUsingUlp(a, b).Success?
    ensures (a < 0 <==> b < 0) ==> (CompareUsingUlp(a, b).value <==> -MaxUlp <= a - b <= MaxUlp)
  {
    if SignBits(a) == SignBits(b) {
      assert -0x8000_0000 < a - b < 0x8000_0000;
      assert WrappingSub(a, b) == a - b;
    }
  }

  /** With opposite sign bits the comparison holds only for two near-zero magnitudes. */
  lemma UlpOppositeSigns(a: Int32, b: Int32)
    requires (a < 0) != (b < 0)
    ensures CompareUsingUlp(a, b) == Success(Magnitude(a) < MaxUlp && Magnitude(b) < MaxUlp)
  {
  }

  /** The patterns of +0 (all bits clear) and -0 (only the sign bit set) compare equal. */
  lemma UlpSignedZerosEqual()
    ensures CompareUsingUlp(0, IntMinValue) == Success(true)
    ensures CompareUsingUlp(IntMinValue, 0) == Success(true)
  {
  }

  /** The ULP comparison does not depend on the order of its arguments, and every pattern is
      equal to itself. */
  lemma UlpSymmetricReflexive(a: Int32, b: Int32)
    ensures CompareUsingUlp(a, b) == CompareUsingUlp(b, a)
    ensures CompareUsingUlp(a, a) == Success(true)
  {
    UlpNeverThrows(a, b);
    UlpNeverThrows(b, a);
    UlpNeverThrows(a, a);
  }

  // ---------------------------------------------------------------------------------------
  // Dispatch

  /** Approximately(a, b) under the given comparison method; an undeclared method throws
      ArgumentOutOfRangeException. */
  function Approximately(how: ComparisonMethod, a: real, b: real, bitsOf: real -> Int32): (r: Result<bool>)
    ensures r.Failure? <==> how.Other?
    ensures r.Failure? ==> r.error == ArgumentOutOfRangeException
  {
    match how
    case Direct => Success(CompareDirectly(a, b))
    case FixedEpsilon => Success(CompareUsingFixedEpsilon(a, b))
    case RelativeEpsilon => Success(CompareUsingRelativeEpsilon(a, b))
    case CombinedTolerance => Success(CompareUsingCombinedTolerance(a, b))
    case Ulp => UlpNeverThrows(bitsOf(a), bitsOf(b)); CompareUsingUlp(bitsOf(a), bitsOf(b))
    case Other(_) => Failure(ArgumentOutOfRangeException)
  }

  /** Direct is exact equality; the default method is the fixed epsilon. */
  lemma DirectIsEquality(a: real, b: real, bitsOf: real -> Int32)
    ensures Approximately(Direct, a, b, bitsOf) == Success(true) <==> a == b
    ensures Approximately(DefaultComparisonMethod, a, b, bitsOf) == Success(Abs(a - b) < Epsilon)
  {
  }

  /** Every declared method is symmetric and reflexive. */
  lemma {:induction false} ApproximatelySymmetricReflexive(how: ComparisonMethod, a: real, b: real, bitsOf: real -> Int32)
    requires !how.Other?
    ensures Approximately(how, a, b, bitsOf) == Approximately(how, b, a, bitsOf)
    ensures Approximately(how, a, a, bitsOf) == Success(true)
  {
    if how == Ulp {
      UlpSymmetricReflexive(bitsOf(a), bitsOf(b));
      UlpSymmetricReflexive(bitsOf(a), bitsOf(a));
    }
  }

  /** The methods over values are ordered by strictness: equal numbers are within the fixed
      epsilon, and whatever the fixed epsilon or the combined tolerance accepts, the relative
      epsilon accepts too. */
  lemma ToleranceOrder(a: real, b: real)
    ensures CompareDirectly(a, b) ==> CompareUsingFixedEpsilon(a, b)
    ensures CompareUsingFixedEpsilon(a, b) ==> CompareUsingRelativeEpsilon(a, b)
    ensures CompareUsingCombinedTolerance(a, b) ==> CompareUsingRelativeEpsilon(a, b)
  {
  }
}
