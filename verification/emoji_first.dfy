/**
 * `EmojiFirstComparator`: strings whose first UTF-16 code unit is a
 * surrogate (an emoji or any other supplementary-plane character) sort
 * before all other non-empty strings; otherwise `String.compareTo` decides.
 */
module EmojiFirst {
  import opened Wrappers
  import J = JavaLang

  /** `Character.isSurrogate`: a high or low surrogate code unit. */
  predicate IsSurrogate(u: J.CodeUnit)
  {
    0xD800 <= u <= 0xDFFF
  }

  predicate StartsWithEmoji(s: J.JString)
  {
    |s| > 0 && IsSurrogate(s[0])
  }

  /**
   * The static `compareTo`. It is zero exactly on equal strings, so it is
   * reflexive and consistent with equals.
   */
  function CompareTo(o1: J.JString, o2: J.JString): (c: int)
    ensures c == 0 <==> o1 == o2
  {
    if |o1| == 0 || |o2| == 0 then J.CompareTo(o1, o2)
    else if StartsWithEmoji(o1) then
      if StartsWithEmoji(o2) then J.CompareTo(o1, o2) else -1
    else
      if StartsWithEmoji(o2) then 1 else J.CompareTo(o1, o2)
  }

  /**
   * The instance `compare`, on possibly-null arguments: a null argument
   * throws, otherwise it is the static `compareTo`.
   */
  function Compare(o1: Option<J.JString>, o2: Option<J.JString>): (r: Result<int>)
    ensures r.Err? <==> o1.None? || o2.None?
    ensures r.Err? ==> r.error == NullPointer
    ensures r.Ok? ==> r.value == CompareTo(o1.value, o2.value)
  {
    if o1.None? || o2.None? then Err(NullPointer) else Ok(CompareTo(o1.value, o2.value))
  }

  /** The group a string sorts in: empty, emoji-first, or anything else. */
  function Rank(s: J.JString): (k: nat)
    ensures k <= 2
  {
    if s == [] then 0 else if StartsWithEmoji(s) then 1 else 2
  }

  /**
   * The order is lexicographic on (group, string): a smaller group sorts
   * first, and inside a group `String.compareTo` decides.
   */
  lemma OrderIsRankThenString(a: J.JString, b: J.JString)
    ensures J.Sign(CompareTo(a, b)) ==
      if Rank(a) != Rank(b) then J.Sign(Rank(a) - Rank(b)) else J.Sign(J.CompareTo(a, b))
  {
    if a == [] && b != [] {
      assert J.CompareTo(a, b) == -|b|;
    } else if a != [] && b == [] {
      assert J.CompareTo(a, b) == |a|;
    }
  }

  /** `signum(compare(x, y)) == -signum(compare(y, x))`. */
  lemma Antisymmetric(a: J.JString, b: J.JString)
    ensures J.Sign(CompareTo(a, b)) == -J.Sign(CompareTo(b, a))
  {
    OrderIsRankThenString(a, b);
    OrderIsRankThenString(b, a);
    J.CompareToAntisymmetric(a, b);
  }

  /** `compare(x, y) > 0 && compare(y, z) > 0` implies `compare(x, z) > 0`. */
  lemma Transitive(a: J.JString, b: J.JString, c: J.JString)
    requires CompareTo(a, b) > 0 && CompareTo(b, c) > 0
    ensures CompareTo(a, c) > 0
  {
    OrderIsRankThenString(a, b);
    OrderIsRankThenString(b, c);
    OrderIsRankThenString(a, c);
    if Rank(a) == Rank(b) == Rank(c) {
      J.CompareToTransitive(a, b, c);
    }
  }

  /** The comparator meets the full `java.util.Comparator` contract. */
  lemma IsComparator()
    ensures J.IsComparator(CompareTo)
  {
    forall x, y ensures J.Sign(CompareTo(x, y)) == -J.Sign(CompareTo(y, x)) {
      Antisymmetric(x, y);
    }
    forall x, y, z | CompareTo(x, y) > 0 && CompareTo(y, z) > 0 ensures CompareTo(x, z) > 0 {
      Transitive(x, y, z);
    }
  }
}
