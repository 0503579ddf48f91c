/**
 * `IntegerArithmetic`: the arithmetic strategy for `Integer` dimensions.
 * Every operation is Java `int` arithmetic, so results wrap around at 32 bits.
 */
module IntegerArithmetic {
  import opened Wrappers
  import opened JavaLang

  /** `add`: the sum, wrapped to 32 bits. */
  function Add(a: Int32, b: Int32): (r: Int32)
    ensures (r - (a + b)) % TWO_POW_32 == 0
    ensures INT_MIN <= a + b <= INT_MAX ==> r == a + b
  {
    Wrap32(a + b)
  }

  /** `subtract`: the difference, wrapped to 32 bits. */
  function Subtract(a: Int32, b: Int32): (r: Int32)
    ensures (r - (a - b)) % TWO_POW_32 == 0
    ensures INT_MIN <= a - b <= INT_MAX ==> r == a - b
  {
    Wrap32(a - b)
  }

  /** `multiply`: the product, wrapped to 32 bits. */
  function Multiply(a: Int32, b: Int32): (r: Int32)
    ensures (r - a * b) % TWO_POW_32 == 0
    ensures INT_MIN <= a * b <= INT_MAX ==> r == a * b
  {
    Wrap32(a * b)
  }

  /**
   * `divide`: the quotient rounded toward zero; a zero divisor throws
   * `ArithmeticException`, and the one overflowing case, `MIN_VALUE / -1`,
   * wraps back to `MIN_VALUE`.
   */
  function Divide(a: Int32, b: Int32): (r: Result<Int32>)
    ensures r.Err? <==> b == 0
    ensures r.Err? ==> r.error == ArithmeticError
    ensures b != 0 && !(a == INT_MIN && b == -1) ==> r.value == TruncDiv(a, b)
    ensures a == INT_MIN && b == -1 ==> r.value == INT_MIN
  {
    if b == 0 then Err(ArithmeticError) else Ok(Wrap32(TruncDiv(a, b)))
  }

  /** `halveValue`: `v >> 1`, an arithmetic shift, which rounds toward negative infinity. */
  function HalveValue(v: Int32): (r: Int32)
    ensures 2 * r <= v < 2 * r + 2
  {
    v / 2
  }

  /** `doubleValue`: `v << 1`, twice the value wrapped to 32 bits. */
  function DoubleValue(v: Int32): (r: Int32)
    ensures (r - 2 * v) % TWO_POW_32 == 0
    ensures INT_MIN <= 2 * v <= INT_MAX ==> r == 2 * v
  {
    Wrap32(2 * v)
  }

  /** Halving undoes doubling whenever the doubled value fits in an `int`. */
  lemma HalveUndoesDouble(v: Int32)
    requires INT_MIN <= 2 * v <= INT_MAX
    ensures HalveValue(DoubleValue(v)) == v
  {
  }

  /**
   * Halving is not division by two: for a negative odd value the shift
   * rounds down while `divide` rounds toward zero, one higher.
   */
  lemma HalveDiffersFromDivide(v: Int32)
    ensures Divide(v, 2).Ok?
    ensures v < 0 && v % 2 == 1 ==> Divide(v, 2).value == HalveValue(v) + 1
    ensures !(v < 0 && v % 2 == 1) ==> Divide(v, 2).value == HalveValue(v)
  {
  }
}

/**
 * `StringArithmetic`: the arithmetic strategy for `String` dimensions.
 * Only comparison, concatenation, halving and doubling are supported.
 */
module StringArithmetic {
  import opened Wrappers
  import opened JavaLang

  /** `compare`: `String.compareTo`, which is zero exactly for equal strings. */
  function Compare(a: JString, b: JString): (c: int)
    ensures c == 0 <==> a == b
    ensures c == -CompareTo(b, a)
  {
    CompareToAntisymmetric(a, b);
    CompareTo(a, b)
  }

  /** `compare` meets the `Comparator` contract, so string ranges split soundly. */
  lemma CompareIsComparator()
    ensures IsComparator(Compare)
  {
    CompareToIsComparator();
    assert forall a, b :: Compare(a, b) == CompareTo(a, b);
  }

  /** `add`: concatenation. */
  function Add(a: JString, b: JString): (r: JString)
    ensures |r| == |a| + |b| && r[..|a|] == a && r[|a|..] == b
  {
    a + b
  }

  /** `halveValue`: the first half of the string, rounded down. */
  function HalveValue(s: JString): (r: JString)
    ensures |r| == |s| / 2
    ensures r <= s
  {
    s[..|s| / 2]
  }

  /** `doubleValue`: the string followed by itself. */
  function DoubleValue(s: JString): (r: JString)
    ensures |r| == 2 * |s|
    ensures r[..|s|] == s && r[|s|..] == s
  {
    s + s
  }

  /** Halving undoes doubling. */
  lemma HalveUndoesDouble(s: JString)
    ensures HalveValue(DoubleValue(s)) == s
  {
  }

  // The operations strings do not support: each throws
  // `UnsupportedOperationException` whatever its arguments.

  function Subtract(a: JString, b: JString): Result<JString> { Err(UnsupportedOperation) }
  function Multiply(a: JString, b: JString): Result<JString> { Err(UnsupportedOperation) }
  function Divide(a: JString, b: JString): Result<JString> { Err(UnsupportedOperation) }
  function MidPoint(a: JString, b: JString): Result<JString> { Err(UnsupportedOperation) }
  /** The scale is a Java `double`; only its presence matters here. */
  function ScaleByMultiplier(s: JString, scale: real): Result<JString> { Err(UnsupportedOperation) }
  function ScaleByDivisor(s: JString, scale: real): Result<JString> { Err(UnsupportedOperation) }
  function Quantize(s: JString, smallestStep: JString): Result<JString> { Err(UnsupportedOperation) }

  /** None of the unsupported operations ever produces a value. */
  lemma UnsupportedOperationsFail(a: JString, b: JString, scale: real)
    ensures Subtract(a, b).Err? && Multiply(a, b).Err? && Divide(a, b).Err? && MidPoint(a, b).Err?
    ensures ScaleByMultiplier(a, scale).Err? && ScaleByDivisor(a, scale).Err? && Quantize(a, b).Err?
    ensures Subtract(a, b).error == UnsupportedOperation && Quantize(a, b).error == UnsupportedOperation
  {
  }
}
