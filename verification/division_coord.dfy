/** `DivisionCoord`: an immutable coordinate of 32-bit division indices. */
module DivisionCoords {
  import opened Wrappers
  import opened JavaLang
  import Dimensions

  datatype DivisionCoord = DivisionCoord(values: seq<Int32>)

  /** `getValue(int)`: the value at the index; outside the array it throws. */
  function GetValue(c: DivisionCoord, dimensionIndex: int): (r: Result<Int32>)
    ensures r.Ok? <==> 0 <= dimensionIndex < |c.values|
    ensures r.Ok? ==> r.value == c.values[dimensionIndex]
    ensures r.Err? ==> r.error == IndexOutOfBounds
  {
    if 0 <= dimensionIndex < |c.values| then Ok(c.values[dimensionIndex]) else Err(IndexOutOfBounds)
  }

  /** `getValue(Dimension)`: the value at the dimension's index. */
  function GetValueOf<T(==)>(c: DivisionCoord, d: Dimensions.Dimension<T>): (r: Result<Int32>)
    ensures r == GetValue(c, d.dimensionIndex)
  {
    GetValue(c, d.dimensionIndex)
  }

  /**
   * `withNextValue`: a new coordinate one longer, holding the receiver's
   * values followed by `v` (the receiver, a value, is untouched).
   */
  function WithNextValue(c: DivisionCoord, v: Int32): (r: DivisionCoord)
    ensures |r.values| == |c.values| + 1
    ensures r.values[..|c.values|] == c.values && r.values[|c.values|] == v
  {
    DivisionCoord(c.values + [v])
  }

  /** `Arrays.equals` on the value arrays: same length and same entries. */
  function ArraysEquals(a: seq<Int32>, b: seq<Int32>): (r: bool)
    ensures r <==> |a| == |b| && forall i :: 0 <= i < |a| ==> a[i] == b[i]
  {
    if |a| != |b| then false
    else if |a| == 0 then true
    else a[0] == b[0] && ArraysEquals(a[1..], b[1..])
  }

  /** `equals`: two coordinates are equal iff their value arrays are. */
  function Equals(a: DivisionCoord, b: DivisionCoord): (r: bool)
    ensures r <==> a == b
  {
    ArraysEquals(a.values, b.values)
  }

  /** `Arrays.hashCode` continued from `h`: `h = 31 * h + v` per value, in 32 bits. */
  function HashFrom(h: Int32, values: seq<Int32>): Int32
    decreases |values|
  {
    if values == [] then h else HashFrom(Wrap32(31 * h + values[0]), values[1..])
  }

  /** `hashCode`: `Arrays.hashCode(values)`, which starts from 1. */
  function HashCode(c: DivisionCoord): Int32
  {
    HashFrom(1, c.values)
  }

  /** Equal coordinates have equal hash codes. */
  lemma EqualsImpliesSameHash(a: DivisionCoord, b: DivisionCoord)
    requires Equals(a, b)
    ensures HashCode(a) == HashCode(b)
  {
  }

  /** Appending a value folds it into the hash: `31 * hash + v`, wrapped. */
  lemma {:induction false} HashFromAppend(h: Int32, values: seq<Int32>, v: Int32)
    ensures HashFrom(h, values + [v]) == Wrap32(31 * HashFrom(h, values) + v)
    decreases |values|
  {
    if values != [] {
      assert (values + [v])[1..] == values[1..] + [v];
      HashFromAppend(Wrap32(31 * h + values[0]), values[1..], v);
    }
  }

  /** The hash code of `withNextValue(v)` extends the receiver's hash code. */
  lemma HashOfNextValue(c: DivisionCoord, v: Int32)
    ensures HashCode(WithNextValue(c, v)) == Wrap32(31 * HashCode(c) + v)
  {
    HashFromAppend(1, c.values, v);
  }

  /** The empty coordinate hashes to 1 and `<[a]>` to `31 + a`. */
  lemma SmallHashCodes(a: Int32)
    ensures HashCode(DivisionCoord([])) == 1
    ensures HashCode(DivisionCoord([a])) == Wrap32(31 + a)
  {
    HashOfNextValue(DivisionCoord([]), a);
  }

  /** `toString`: `"<" + Arrays.toString(values) + ">"`, e.g. `<[1, -2]>`. */
  function ToString(c: DivisionCoord): (s: JString)
    ensures |s| >= 4 && s[..2] == [0x3C, 0x5B] && s[|s| - 2..] == [0x5D, 0x3E]
  {
    [0x3C, 0x5B] + Join(Rendered(c), COMMA_SPACE) + [0x5D, 0x3E]
  }

  /** The decimal renderings of the values, in order. */
  function Rendered(c: DivisionCoord): (parts: seq<JString>)
    ensures |parts| == |c.values|
    ensures forall i :: 0 <= i < |parts| ==> parts[i] == IntToString(c.values[i])
  {
    seq(|c.values|, i requires 0 <= i < |c.values| => IntToString(c.values[i]))
  }

  /** The text names the coordinate: different coordinates are rendered differently. */
  lemma ToStringInjective(a: DivisionCoord, b: DivisionCoord)
    requires ToString(a) == ToString(b)
    ensures a == b
  {
    var s := ToString(a);
    assert Join(Rendered(a), COMMA_SPACE) == s[2..|s| - 2] == Join(Rendered(b), COMMA_SPACE);
    forall i | 0 <= i < |a.values| ensures |Rendered(a)[i]| >= 1 && CommaFree(Rendered(a)[i]) {
      IntToStringCommaFree(a.values[i]);
    }
    forall i | 0 <= i < |b.values| ensures |Rendered(b)[i]| >= 1 && CommaFree(Rendered(b)[i]) {
      IntToStringCommaFree(b.values[i]);
    }
    JoinCommaSpaceInjective(Rendered(a), Rendered(b));
    forall i | 0 <= i < |a.values| ensures a.values[i] == b.values[i] {
      IntToStringInjective(a.values[i], b.values[i]);
    }
  }
}
