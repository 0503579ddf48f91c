/**
 * The part of the Java language the library relies on: 32-bit `int`
 * arithmetic, the `Comparator` contract and strings as UTF-16 code units.
 */
module JavaLang {

  const INT_MIN: int := -0x8000_0000
  const INT_MAX: int := 0x7fff_ffff
  const TWO_POW_32: int := 0x1_0000_0000

  /** A Java `int`. */
  type Int32 = x: int | -0x8000_0000 <= x <= 0x7fff_ffff

  function Abs(x: int): nat { if x < 0 then -x else x }

  function Sign(x: int): int { if x < 0 then -1 else if x == 0 then 0 else 1 }

  /** Two's-complement wrap-around of an exact result to 32 bits. */
  function Wrap32(x: int): (r: Int32)
    ensures (r - x) % TWO_POW_32 == 0
    ensures INT_MIN <= x <= INT_MAX ==> r == x
  {
    (x - INT_MIN) % TWO_POW_32 + INT_MIN
  }

  /** Java `a / b` before wrap-around: the exact quotient rounded toward zero. */
  function TruncDiv(a: int, b: int): (q: int)
    requires b != 0
    ensures Abs(q) == Abs(a) / Abs(b)
    ensures q != 0 ==> ((q < 0) <==> ((a < 0) != (b < 0)))
  {
    var d := Abs(a) / Abs(b);
    QuotientOfNaturals(Abs(a), Abs(b));
    if (a < 0) == (b < 0) then d else -d
  }

  /** Java `a % b`: what is left after the quotient rounded toward zero; it has the sign of `a`. */
  function TruncRem(a: int, b: int): (r: int)
    requires b != 0
    ensures Abs(r) < Abs(b)
    ensures a >= 0 ==> 0 <= r
    ensures a <= 0 ==> r <= 0
  {
    var q := TruncDiv(a, b);
    RemainderOfTruncation(a, b, q);
    a - q * b
  }

  /** `a - TruncDiv(a, b) * b` is smaller than `b` in magnitude and has the sign of `a`. */
  lemma RemainderOfTruncation(a: int, b: int, q: int)
    requires b != 0 && q == TruncDiv(a, b)
    ensures Abs(a - q * b) < Abs(b)
    ensures a >= 0 ==> 0 <= a - q * b
    ensures a <= 0 ==> a - q * b <= 0
  {
    var A: int := Abs(a);
    var B: int := Abs(b);
    var d := A / B;
    var rem := A % B;
    assert A == d * B + rem && 0 <= rem < B;
    if b > 0 {
      assert B == b;
      if a >= 0 {
        assert q == d;
        assert a - q * b == rem;
      } else {
        assert q == -d;
        assert q * b == -(d * B);
        assert a - q * b == -rem;
      }
    } else {
      assert B == -b;
      if a >= 0 {
        assert q == -d;
        assert q * b == d * B;
        assert a - q * b == rem;
      } else {
        assert q == d;
        assert q * b == -(d * B);
        assert a - q * b == -rem;
      }
    }
  }

  /** The quotient of a natural number by a positive one is natural. */
  lemma QuotientOfNaturals(x: int, y: int)
    requires x >= 0 && y > 0
    ensures x / y >= 0
  {
  }

  /**
   * The contract every `java.util.Comparator` must meet: the sign of
   * `cmp(x, y)` is the opposite of that of `cmp(y, x)`, `>` is transitive,
   * and values comparing equal compare alike with every third value.
   */
  ghost predicate IsComparator<T(!new)>(cmp: (T, T) -> int)
  {
    (forall x, y :: Sign(cmp(x, y)) == -Sign(cmp(y, x)))
    && (forall x, y, z :: cmp(x, y) > 0 && cmp(y, z) > 0 ==> cmp(x, z) > 0)
    && (forall x, y, z :: cmp(x, y) == 0 ==> Sign(cmp(x, z)) == Sign(cmp(y, z)))
  }

  lemma ComparatorLeLe<T(!new)>(cmp: (T, T) -> int, a: T, b: T, c: T)
    requires IsComparator(cmp)
    requires cmp(a, b) <= 0 && cmp(b, c) <= 0
    ensures cmp(a, c) <= 0
  {
    if cmp(a, b) == 0 {
      assert Sign(cmp(a, c)) == Sign(cmp(b, c));
    } else if cmp(b, c) == 0 {
      assert Sign(cmp(b, a)) == Sign(cmp(c, a));
      assert Sign(cmp(a, c)) == -Sign(cmp(c, a));
    } else {
      assert cmp(c, b) > 0 && cmp(b, a) > 0;
      assert Sign(cmp(a, c)) == -Sign(cmp(c, a));
    }
  }

  lemma ComparatorLtLe<T(!new)>(cmp: (T, T) -> int, a: T, b: T, c: T)
    requires IsComparator(cmp)
    requires (cmp(a, b) < 0 && cmp(b, c) <= 0) || (cmp(a, b) <= 0 && cmp(b, c) < 0)
    ensures cmp(a, c) < 0
  {
    ComparatorLeLe(cmp, a, b, c);
    if cmp(a, c) == 0 {
      assert Sign(cmp(a, b)) == Sign(cmp(c, b));
      assert Sign(cmp(b, c)) == -Sign(cmp(c, b));
    }
  }

  // ---------------------------------------------------------------------
  // Strings

  /** A UTF-16 code unit, the element of a Java `String`. */
  type CodeUnit = x: int | 0 <= x < 0x1_0000

  /** A Java `String`: a sequence of UTF-16 code units (surrogates included). */
  type JString = seq<CodeUnit>

  /** The UTF-16 encoding of Dafny text, as Java stores a string literal. */
  function Utf16(s: string): (u: JString)
    ensures |u| >= |s|
  {
    if s == [] then []
    else
      var c := s[0] as int;
      assert c <= 0x10_FFFF;
      (if c < 0x1_0000 then [c]
       else [0xD800 + (c - 0x1_0000) / 0x400, 0xDC00 + (c - 0x1_0000) % 0x400])
      + Utf16(s[1..])
  }

  /**
   * `String.compareTo`: the difference of the first pair of code units that
   * differ, or else the difference of the lengths.
   */
  function CompareTo(a: JString, b: JString): (c: int)
    ensures c == 0 <==> a == b
  {
    if a == [] || b == [] then |a| - |b|
    else if a[0] != b[0] then a[0] - b[0]
    else
      assert a == [a[0]] + a[1..] && b == [b[0]] + b[1..];
      CompareTo(a[1..], b[1..])
  }

  lemma {:induction false} CompareToAntisymmetric(a: JString, b: JString)
    ensures CompareTo(a, b) == -CompareTo(b, a)
  {
    if a != [] && b != [] && a[0] == b[0] {
      CompareToAntisymmetric(a[1..], b[1..]);
    }
  }

  lemma {:induction false} CompareToTransitive(a: JString, b: JString, c: JString)
    requires CompareTo(a, b) > 0 && CompareTo(b, c) > 0
    ensures CompareTo(a, c) > 0
  {
    if a != [] && b != [] && c != [] && a[0] == b[0] && b[0] == c[0] {
      CompareToTransitive(a[1..], b[1..], c[1..]);
    }
  }

  /** `String::compareTo` meets the `Comparator` contract. */
  lemma CompareToIsComparator()
    ensures IsComparator(CompareTo)
  {
    forall x, y ensures Sign(CompareTo(x, y)) == -Sign(CompareTo(y, x)) {
      CompareToAntisymmetric(x, y);
    }
    forall x, y, z | CompareTo(x, y) > 0 && CompareTo(y, z) > 0 ensures CompareTo(x, z) > 0 {
      CompareToTransitive(x, y, z);
    }
  }

  /** `String.join(sep, parts)`. */
  function Join(parts: seq<JString>, sep: JString): (s: JString)
  {
    if |parts| == 0 then []
    else if |parts| == 1 then parts[0]
    else Join(parts[..|parts| - 1], sep) + sep + parts[|parts| - 1]
  }

  // ---------------------------------------------------------------------
  // Decimal rendering of integers

  const ZERO_UNIT: CodeUnit := 0x30
  const MINUS_UNIT: CodeUnit := 0x2D

  predicate IsDigit(u: CodeUnit) { ZERO_UNIT <= u < ZERO_UNIT + 10 }

  /** The decimal digits of a natural number, as `Integer.toString` writes them. */
  function NatToString(n: nat): (s: JString)
    ensures |s| >= 1
    ensures forall i :: 0 <= i < |s| ==> IsDigit(s[i])
  {
    if n < 10 then [ZERO_UNIT + n] else NatToString(n / 10) + [ZERO_UNIT + n % 10]
  }

  /** The value of a string of decimal digits. */
  function DigitsValue(s: JString): nat
    requires forall i :: 0 <= i < |s| ==> IsDigit(s[i])
  {
    if s == [] then 0
    else
      assert IsDigit(s[|s| - 1]);
      DigitsValue(s[..|s| - 1]) * 10 + (s[|s| - 1] - ZERO_UNIT)
  }

  lemma {:induction false} NatToStringRoundTrip(n: nat)
    ensures DigitsValue(NatToString(n)) == n
  {
    if n >= 10 {
      NatToStringRoundTrip(n / 10);
      var s := NatToString(n);
      assert s[..|s| - 1] == NatToString(n / 10);
    }
  }

  /** `Integer.toString(i)`: an optional minus sign followed by the digits of |i|. */
  function IntToString(i: int): (s: JString)
    ensures |s| >= 1
    ensures s[0] == MINUS_UNIT <==> i < 0
  {
    if i < 0 then [MINUS_UNIT] + NatToString(-i) else NatToString(i)
  }

  /** Distinct integers are rendered differently, so the rendering names an index uniquely. */
  lemma IntToStringInjective(i: int, j: int)
    requires IntToString(i) == IntToString(j)
    ensures i == j
  {
    if i < 0 {
      assert NatToString(-i) == IntToString(i)[1..] == NatToString(-j);
      NatToStringRoundTrip(-i);
      NatToStringRoundTrip(-j);
    } else {
      NatToStringRoundTrip(i);
      NatToStringRoundTrip(j);
    }
  }

  // ---------------------------------------------------------------------
  // Splitting a comma-joined list

  const COMMA_UNIT: CodeUnit := 0x2C

  /** The separator `", "` that `Arrays.toString` puts between elements. */
  const COMMA_SPACE: JString := [COMMA_UNIT, 0x20]

  predicate CommaFree(s: JString)
  {
    forall i :: 0 <= i < |s| ==> s[i] != COMMA_UNIT
  }

  /** A decimal rendering holds digits and perhaps a minus sign, never a comma. */
  lemma IntToStringCommaFree(i: int)
    ensures CommaFree(IntToString(i))
  {
  }

  /** A joined list of non-empty parts ends with its last part, so it is not empty. */
  lemma JoinEndsWithLast(parts: seq<JString>, sep: JString)
    requires |parts| >= 1
    ensures |Join(parts, sep)| >= |parts[|parts| - 1]|
  {
  }

  /** Where a separator was put, the text holds a comma and then a space. */
  lemma SeparatorAt(x: JString, p: JString)
    ensures (x + COMMA_SPACE + p)[|x|] == COMMA_UNIT && (x + COMMA_SPACE + p)[|x| + 1] == 0x20
  {
  }

  /**
   * The last `", "` of a text splits it in one way only: when the parts after
   * it are comma-free, the two sides agree.
   */
  lemma LastSeparatorSplit(x: JString, p: JString, y: JString, q: JString)
    requires CommaFree(p) && CommaFree(q)
    requires x + COMMA_SPACE + p == y + COMMA_SPACE + q
    ensures x == y && p == q
  {
    var s := x + COMMA_SPACE + p;
    SeparatorAt(x, p);
    SeparatorAt(y, q);
    assert x == s[..|x|] == y;
    assert p == s[|x| + 2..] == q;
  }

  /** Two or more parts joined with `", "` hold a comma. */
  lemma JoinHasSeparator(parts: seq<JString>)
    requires |parts| >= 2
    ensures !CommaFree(Join(parts, COMMA_SPACE))
  {
    var n := |parts| - 1;
    var front := Join(parts[..n], COMMA_SPACE);
    assert Join(parts, COMMA_SPACE) == front + COMMA_SPACE + parts[n];
    SeparatorAt(front, parts[n]);
  }

  /**
   * Joining non-empty comma-free parts with `", "` loses nothing: the same
   * text comes only from the same parts.
   */
  lemma {:induction false} JoinCommaSpaceInjective(ps: seq<JString>, qs: seq<JString>)
    requires forall i :: 0 <= i < |ps| ==> |ps[i]| >= 1 && CommaFree(ps[i])
    requires forall i :: 0 <= i < |qs| ==> |qs[i]| >= 1 && CommaFree(qs[i])
    requires Join(ps, COMMA_SPACE) == Join(qs, COMMA_SPACE)
    ensures ps == qs
  {
    if |ps| == 0 || |qs| == 0 {
      if |ps| > 0 { JoinEndsWithLast(ps, COMMA_SPACE); }
      if |qs| > 0 { JoinEndsWithLast(qs, COMMA_SPACE); }
    } else if |ps| == 1 && |qs| == 1 {
    } else if |ps| == 1 {
      JoinHasSeparator(qs);
    } else if |qs| == 1 {
      JoinHasSeparator(ps);
    } else {
      var m, n := |ps| - 1, |qs| - 1;
      LastSeparatorSplit(Join(ps[..m], COMMA_SPACE), ps[m], Join(qs[..n], COMMA_SPACE), qs[n]);
      JoinCommaSpaceInjective(ps[..m], qs[..n]);
      assert ps == ps[..m] + [ps[m]] && qs == qs[..n] + [qs[n]];
    }
  }
}
