/**
 * The range algebra of the hyper-cube index: a closed family of range
 * shapes, membership decided by a comparator, inversion, splitting at a
 * value and the range builders of the range calculator.
 */
module Ranges {
  import opened Wrappers
  import opened JavaLang

  /** The seventeen permitted implementations of the sealed `Range` interface. */
  datatype Range<T> =
    | NotRange(innerRange: Range<T>)
    | AndRange(range: Range<T>, other: Range<T>)
    | OrRange(range: Range<T>, other: Range<T>)
    | UnBoundedRange
    | NeverInRange
    | SingleValueRange(value: T)
    | NotSingleValueRange(value: T)
    | MultiValueRange(values: set<T>)
    | NotMultiValueRange(values: set<T>)
    | MinInclusiveRange(min: T)
    | MinExclusiveRange(min: T)
    | MaxInclusiveRange(max: T)
    | MaxExclusiveRange(max: T)
    | MinInclusiveMaxInclusiveRange(min: T, max: T)
    | MinInclusiveMaxExclusiveRange(min: T, max: T)
    | MinExclusiveMaxInclusiveRange(min: T, max: T)
    | MinExclusiveMaxExclusiveRange(min: T, max: T)

  /** The two halves produced by splitting a range. */
  datatype RangeSplit<T> = RangeSplit(lower: Range<T>, higher: Range<T>)

  /** Which half (or both) receives the split value itself. */
  datatype RangeSplitInclusion = Lower | Higher | Both

  // ---------------------------------------------------------------------
  // Membership

  /**
   * `RangeCalculator.isInRange`: whether `v` lies in `r`, where `cmp` is the
   * compare of the calculator's arithmetic. Multi-value ranges use set
   * membership (object equality), not the comparator.
   */
  function IsInRange<T(==)>(v: T, r: Range<T>, cmp: (T, T) -> int): bool
  {
    match r
    case NotRange(inner) => !IsInRange(v, inner, cmp)
    case OrRange(a, b) => IsInRange(v, a, cmp) || IsInRange(v, b, cmp)
    case AndRange(a, b) => IsInRange(v, a, cmp) && IsInRange(v, b, cmp)
    case UnBoundedRange => true
    case NeverInRange => false
    case SingleValueRange(x) => cmp(x, v) == 0
    case NotSingleValueRange(x) => cmp(x, v) != 0
    case MultiValueRange(xs) => v in xs
    case NotMultiValueRange(xs) => v !in xs
    case MinInclusiveRange(lo) => cmp(lo, v) <= 0
    case MinExclusiveRange(lo) => cmp(lo, v) < 0
    case MaxInclusiveRange(hi) => cmp(v, hi) <= 0
    case MaxExclusiveRange(hi) => cmp(v, hi) < 0
    case MinInclusiveMaxInclusiveRange(lo, hi) => cmp(lo, v) <= 0 && cmp(v, hi) <= 0
    case MinInclusiveMaxExclusiveRange(lo, hi) => cmp(lo, v) <= 0 && cmp(v, hi) < 0
    case MinExclusiveMaxInclusiveRange(lo, hi) => cmp(lo, v) < 0 && cmp(v, hi) <= 0
    case MinExclusiveMaxExclusiveRange(lo, hi) => cmp(lo, v) < 0 && cmp(v, hi) < 0
  }

  /**
   * Membership of every leaf shape, stated through the comparator's order
   * (`x <= v` read as `cmp(x, v) <= 0`) rather than through the calculator.
   */
  lemma MembershipOfShapes<T(!new)>(v: T, x: T, y: T, xs: set<T>, cmp: (T, T) -> int)
    requires IsComparator(cmp)
    ensures IsInRange(v, UnBoundedRange, cmp) && !IsInRange(v, NeverInRange, cmp)
    ensures IsInRange(v, SingleValueRange(x), cmp) <==> cmp(v, x) == 0
    ensures IsInRange(v, NotSingleValueRange(x), cmp) <==> cmp(v, x) != 0
    ensures IsInRange(v, MultiValueRange(xs), cmp) <==> v in xs
    ensures IsInRange(v, NotMultiValueRange(xs), cmp) <==> v !in xs
    ensures IsInRange(v, MinInclusiveRange(x), cmp) <==> cmp(v, x) >= 0
    ensures IsInRange(v, MinExclusiveRange(x), cmp) <==> cmp(v, x) > 0
    ensures IsInRange(v, MaxInclusiveRange(y), cmp) <==> cmp(v, y) <= 0
    ensures IsInRange(v, MaxExclusiveRange(y), cmp) <==> cmp(v, y) < 0
  {
    assert Sign(cmp(x, v)) == -Sign(cmp(v, x));
  }

  /** Membership of the two-bound shapes, stated through the comparator's order. */
  lemma MembershipOfIntervals<T(!new)>(v: T, x: T, y: T, cmp: (T, T) -> int)
    requires IsComparator(cmp)
    ensures IsInRange(v, MinInclusiveMaxInclusiveRange(x, y), cmp) <==> cmp(v, x) >= 0 && cmp(v, y) <= 0
    ensures IsInRange(v, MinInclusiveMaxExclusiveRange(x, y), cmp) <==> cmp(v, x) >= 0 && cmp(v, y) < 0
    ensures IsInRange(v, MinExclusiveMaxInclusiveRange(x, y), cmp) <==> cmp(v, x) > 0 && cmp(v, y) <= 0
    ensures IsInRange(v, MinExclusiveMaxExclusiveRange(x, y), cmp) <==> cmp(v, x) > 0 && cmp(v, y) < 0
  {
    assert Sign(cmp(x, v)) == -Sign(cmp(v, x));
  }

  /** Integer ranges under the natural order, as `Integer::compare` gives them. */
  function IntCompare(a: int, b: int): int { if a < b then -1 else if a == b then 0 else 1 }

  /** With `Integer::compare`, 0 is in [0, 1) but 1 is not, and both are in [0, 1]. */
  lemma HalfOpenIntegerRange()
    ensures IsInRange(0, MinInclusiveMaxExclusiveRange(0, 1), IntCompare)
    ensures !IsInRange(1, MinInclusiveMaxExclusiveRange(0, 1), IntCompare)
    ensures IsInRange(1, MinInclusiveMaxInclusiveRange(0, 1), IntCompare)
    ensures !IsInRange(0, MinExclusiveMaxInclusiveRange(0, 1), IntCompare)
  {
  }

  // ---------------------------------------------------------------------
  // Inversion

  /** The variants whose record declares an `inverse()` body. */
  predicate HasDeclaredInverse<T>(r: Range<T>)
  {
    !(r.MinInclusiveRange? || r.MinExclusiveMaxInclusiveRange? ||
      r.MinExclusiveMaxExclusiveRange? || r.UnBoundedRange?)
  }

  /** `Range.inverse()`, for each variant that declares one. */
  function Inverse<T>(r: Range<T>): (inv: Range<T>)
    requires HasDeclaredInverse(r)
    ensures r.NotRange? ==> inv == r.innerRange
    ensures r.SingleValueRange? ==> inv == NotSingleValueRange(r.value)
    ensures r.NotSingleValueRange? ==> inv == SingleValueRange(r.value)
    ensures r.MultiValueRange? ==> inv == NotMultiValueRange(r.values)
    ensures r.NotMultiValueRange? ==> inv == MultiValueRange(r.values)
  {
    match r
    case NotRange(inner) => inner
    case AndRange(_, _) => NotRange(r)
    case OrRange(_, _) => NotRange(r)
    case NeverInRange => UnBoundedRange
    case SingleValueRange(x) => NotSingleValueRange(x)
    case NotSingleValueRange(x) => SingleValueRange(x)
    case MultiValueRange(xs) => NotMultiValueRange(xs)
    case NotMultiValueRange(xs) => MultiValueRange(xs)
    case MaxInclusiveRange(x) => MinExclusiveRange(x)
    case MaxExclusiveRange(x) => MinInclusiveRange(x)
    case MinExclusiveRange(x) => MaxInclusiveRange(x)
    case MinInclusiveMaxInclusiveRange(_, _) => NotRange(r)
    case MinInclusiveMaxExclusiveRange(_, _) => NotRange(r)
  }

  /** A value is in the inverse of a range exactly when it is not in the range. */
  lemma InverseComplementsMembership<T(!new)>(v: T, r: Range<T>, cmp: (T, T) -> int)
    requires HasDeclaredInverse(r)
    requires IsComparator(cmp)
    ensures IsInRange(v, Inverse(r), cmp) <==> !IsInRange(v, r, cmp)
  {
    match r
    case MaxInclusiveRange(x) =>
      assert Sign(cmp(x, v)) == -Sign(cmp(v, x));
    case MaxExclusiveRange(x) =>
      assert Sign(cmp(x, v)) == -Sign(cmp(v, x));
    case MinExclusiveRange(x) =>
      assert Sign(cmp(x, v)) == -Sign(cmp(v, x));
    case _ =>
  }

  /** Inverting twice gives a range with the same members as the original. */
  lemma InverseTwicePreservesMembership<T(!new)>(v: T, r: Range<T>, cmp: (T, T) -> int)
    requires HasDeclaredInverse(r) && HasDeclaredInverse(Inverse(r))
    requires IsComparator(cmp)
    ensures IsInRange(v, Inverse(Inverse(r)), cmp) <==> IsInRange(v, r, cmp)
  {
    InverseComplementsMembership(v, r, cmp);
    InverseComplementsMembership(v, Inverse(r), cmp);
  }

  /** Not-wrapping and inverting cancel out, and the half-bounded shapes pair up. */
  lemma InversePairs<T>(r: Range<T>, x: T)
    ensures Inverse(NotRange(r)) == r
    ensures Inverse(Inverse(MaxInclusiveRange(x))) == MaxInclusiveRange(x)
    ensures Inverse(Inverse(MinExclusiveRange(x))) == MinExclusiveRange(x)
    ensures Inverse(MaxExclusiveRange(x)) == MinInclusiveRange(x)
    ensures Inverse<T>(NeverInRange) == UnBoundedRange
    ensures (r.AndRange? || r.OrRange? || r.MinInclusiveMaxInclusiveRange? || r.MinInclusiveMaxExclusiveRange?)
              ==> Inverse(r) == NotRange(r)
  {
  }

  // ---------------------------------------------------------------------
  // Splitting

  /** The variants `splitRange` accepts: the half-bounded and bounded ones. */
  predicate IsSplittable<T>(r: Range<T>)
  {
    r.MinInclusiveRange? || r.MinExclusiveRange? || r.MaxInclusiveRange? || r.MaxExclusiveRange? ||
    r.MinInclusiveMaxInclusiveRange? || r.MinInclusiveMaxExclusiveRange? ||
    r.MinExclusiveMaxInclusiveRange? || r.MinExclusiveMaxExclusiveRange?
  }

  /** `RangeCalculator.splitRange`: the halves of `r` below and above `s`. */
  function SplitRange<T>(r: Range<T>, s: T, inclusion: RangeSplitInclusion): (res: Result<RangeSplit<T>>)
    ensures res.Ok? <==> IsSplittable(r)
    ensures res.Err? ==> res.error == UnsupportedOperation
  {
    match r
    case MinInclusiveRange(lo) =>
      Ok(match inclusion
        case Lower => RangeSplit(MinInclusiveMaxInclusiveRange(lo, s), MinExclusiveRange(s))
        case Higher => RangeSplit(MinInclusiveMaxExclusiveRange(lo, s), MinInclusiveRange(s))
        case Both => RangeSplit(MinInclusiveMaxInclusiveRange(lo, s), MinInclusiveRange(s)))
    case MinExclusiveRange(lo) =>
      Ok(match inclusion
        case Lower => RangeSplit(MinExclusiveMaxInclusiveRange(lo, s), MinExclusiveRange(s))
        case Higher => RangeSplit(MinExclusiveMaxExclusiveRange(lo, s), MinInclusiveRange(s))
        case Both => RangeSplit(MinExclusiveMaxInclusiveRange(lo, s), MinInclusiveRange(s)))
    case MaxInclusiveRange(hi) =>
      Ok(match inclusion
        case Lower => RangeSplit(MaxInclusiveRange(s), MinExclusiveMaxInclusiveRange(s, hi))
        case Higher => RangeSplit(MaxExclusiveRange(s), MinInclusiveMaxInclusiveRange(s, hi))
        case Both => RangeSplit(MaxInclusiveRange(s), MinInclusiveMaxInclusiveRange(s, hi)))
    case MaxExclusiveRange(hi) =>
      Ok(match inclusion
        case Lower => RangeSplit(MaxInclusiveRange(s), MinExclusiveMaxExclusiveRange(s, hi))
        case Higher => RangeSplit(MaxExclusiveRange(s), MinInclusiveMaxExclusiveRange(s, hi))
        case Both => RangeSplit(MaxInclusiveRange(s), MinInclusiveMaxExclusiveRange(s, hi)))
    case MinInclusiveMaxInclusiveRange(lo, hi) =>
      Ok(match inclusion
        case Lower => RangeSplit(MinInclusiveMaxInclusiveRange(lo, s), MinExclusiveMaxInclusiveRange(s, hi))
        case Higher => RangeSplit(MinInclusiveMaxExclusiveRange(lo, s), MinInclusiveMaxInclusiveRange(s, hi))
        case Both => RangeSplit(MinInclusiveMaxInclusiveRange(lo, s), MinInclusiveMaxInclusiveRange(s, hi)))
    case MinInclusiveMaxExclusiveRange(lo, hi) =>
      Ok(match inclusion
        case Lower => RangeSplit(MinInclusiveMaxInclusiveRange(lo, s), MinExclusiveMaxExclusiveRange(s, hi))
        case Higher => RangeSplit(MinInclusiveMaxExclusiveRange(lo, s), MinInclusiveMaxExclusiveRange(s, hi))
        case Both => RangeSplit(MinInclusiveMaxInclusiveRange(lo, s), MinInclusiveMaxExclusiveRange(s, hi)))
    case MinExclusiveMaxInclusiveRange(lo, hi) =>
      Ok(match inclusion
        case Lower => RangeSplit(MinExclusiveMaxInclusiveRange(lo, s), MinExclusiveMaxInclusiveRange(s, hi))
        case Higher => RangeSplit(MinExclusiveMaxExclusiveRange(lo, s), MinInclusiveMaxInclusiveRange(s, hi))
        case Both => RangeSplit(MinExclusiveMaxInclusiveRange(lo, s), MinInclusiveMaxInclusiveRange(s, hi)))
    case MinExclusiveMaxExclusiveRange(lo, hi) =>
      Ok(match inclusion
        case Lower => RangeSplit(MinExclusiveMaxInclusiveRange(lo, s), MinExclusiveMaxExclusiveRange(s, hi))
        case Higher => RangeSplit(MinExclusiveMaxExclusiveRange(lo, s), MinInclusiveMaxExclusiveRange(s, hi))
        case Both => RangeSplit(MinExclusiveMaxInclusiveRange(lo, s), MinInclusiveMaxExclusiveRange(s, hi)))
    case _ => Err(UnsupportedOperation)
  }

  predicate HasMin<T>(r: Range<T>)
  {
    r.MinInclusiveRange? || r.MinExclusiveRange? || r.MinInclusiveMaxInclusiveRange? ||
    r.MinInclusiveMaxExclusiveRange? || r.MinExclusiveMaxInclusiveRange? || r.MinExclusiveMaxExclusiveRange?
  }

  predicate HasMax<T>(r: Range<T>)
  {
    r.MaxInclusiveRange? || r.MaxExclusiveRange? || r.MinInclusiveMaxInclusiveRange? ||
    r.MinInclusiveMaxExclusiveRange? || r.MinExclusiveMaxInclusiveRange? || r.MinExclusiveMaxExclusiveRange?
  }

  /** Whether a value comparing as `c` against the split value belongs in the lower half. */
  predicate BelongsLower(c: int, inclusion: RangeSplitInclusion)
  {
    if inclusion == Higher then c < 0 else c <= 0
  }

  /** Whether a value comparing as `c` against the split value belongs in the higher half. */
  predicate BelongsHigher(c: int, inclusion: RangeSplitInclusion)
  {
    if inclusion == Lower then c > 0 else c >= 0
  }

  /** The lower-bound condition of a splittable range (true when it has none). */
  predicate AboveMin<T>(v: T, r: Range<T>, cmp: (T, T) -> int)
  {
    match r
    case MinInclusiveRange(lo) => cmp(lo, v) <= 0
    case MinInclusiveMaxInclusiveRange(lo, _) => cmp(lo, v) <= 0
    case MinInclusiveMaxExclusiveRange(lo, _) => cmp(lo, v) <= 0
    case MinExclusiveRange(lo) => cmp(lo, v) < 0
    case MinExclusiveMaxInclusiveRange(lo, _) => cmp(lo, v) < 0
    case MinExclusiveMaxExclusiveRange(lo, _) => cmp(lo, v) < 0
    case _ => true
  }

  /** The upper-bound condition of a splittable range (true when it has none). */
  predicate BelowMax<T>(v: T, r: Range<T>, cmp: (T, T) -> int)
  {
    match r
    case MaxInclusiveRange(hi) => cmp(v, hi) <= 0
    case MinInclusiveMaxInclusiveRange(_, hi) => cmp(v, hi) <= 0
    case MinExclusiveMaxInclusiveRange(_, hi) => cmp(v, hi) <= 0
    case MaxExclusiveRange(hi) => cmp(v, hi) < 0
    case MinInclusiveMaxExclusiveRange(_, hi) => cmp(v, hi) < 0
    case MinExclusiveMaxExclusiveRange(_, hi) => cmp(v, hi) < 0
    case _ => true
  }

  /** Membership of a splittable range is its two bound conditions. */
  lemma BoundedMembership<T>(r: Range<T>, v: T, cmp: (T, T) -> int)
    requires IsSplittable(r)
    ensures IsInRange(v, r, cmp) <==> AboveMin(v, r, cmp) && BelowMax(v, r, cmp)
  {
  }

  /** A value at or above one that meets the lower bound meets it too. */
  lemma LowerBoundCarries<T(!new)>(r: Range<T>, s: T, v: T, cmp: (T, T) -> int)
    requires IsComparator(cmp)
    requires AboveMin(s, r, cmp) && cmp(v, s) >= 0
    ensures AboveMin(v, r, cmp)
  {
    assert Sign(cmp(s, v)) == -Sign(cmp(v, s));
    match r
    case MinInclusiveRange(lo) => ComparatorLeLe(cmp, lo, s, v);
    case MinInclusiveMaxInclusiveRange(lo, _) => ComparatorLeLe(cmp, lo, s, v);
    case MinInclusiveMaxExclusiveRange(lo, _) => ComparatorLeLe(cmp, lo, s, v);
    case MinExclusiveRange(lo) => ComparatorLtLe(cmp, lo, s, v);
    case MinExclusiveMaxInclusiveRange(lo, _) => ComparatorLtLe(cmp, lo, s, v);
    case MinExclusiveMaxExclusiveRange(lo, _) => ComparatorLtLe(cmp, lo, s, v);
    case _ =>
  }

  /** A value at or below one that meets the upper bound meets it too. */
  lemma UpperBoundCarries<T(!new)>(r: Range<T>, s: T, v: T, cmp: (T, T) -> int)
    requires IsComparator(cmp)
    requires BelowMax(s, r, cmp) && cmp(v, s) <= 0
    ensures BelowMax(v, r, cmp)
  {
    match r
    case MaxInclusiveRange(hi) => ComparatorLeLe(cmp, v, s, hi);
    case MinInclusiveMaxInclusiveRange(_, hi) => ComparatorLeLe(cmp, v, s, hi);
    case MinExclusiveMaxInclusiveRange(_, hi) => ComparatorLeLe(cmp, v, s, hi);
    case MaxExclusiveRange(hi) => ComparatorLtLe(cmp, v, s, hi);
    case MinInclusiveMaxExclusiveRange(_, hi) => ComparatorLtLe(cmp, v, s, hi);
    case MinExclusiveMaxExclusiveRange(_, hi) => ComparatorLtLe(cmp, v, s, hi);
    case _ =>
  }

  /** The case analysis of a split, given the order facts it needs about `v`. */
  lemma SplitHalvesFromBounds<T>(r: Range<T>, s: T, inclusion: RangeSplitInclusion, v: T, cmp: (T, T) -> int)
    requires IsSplittable(r) && IsInRange(s, r, cmp)
    requires Sign(cmp(s, v)) == -Sign(cmp(v, s))
    requires cmp(v, s) >= 0 ==> AboveMin(v, r, cmp)
    requires cmp(v, s) <= 0 ==> BelowMax(v, r, cmp)
    ensures var halves := SplitRange(r, s, inclusion).value;
      (IsInRange(v, halves.lower, cmp) <==> IsInRange(v, r, cmp) && BelongsLower(cmp(v, s), inclusion)) &&
      (IsInRange(v, halves.higher, cmp) <==> IsInRange(v, r, cmp) && BelongsHigher(cmp(v, s), inclusion))
  {
    var halves := SplitRange(r, s, inclusion).value;
    BoundedMembership(r, v, cmp);
    BoundedMembership(halves.lower, v, cmp);
    BoundedMembership(halves.higher, v, cmp);
  }

  /**
   * Splitting a range at a value inside it: the lower half holds exactly the
   * range's values below the split value, the higher half exactly those
   * above it, and the split value goes where the inclusion says.
   */
  lemma SplitRangeHalves<T(!new)>(r: Range<T>, s: T, inclusion: RangeSplitInclusion, v: T, cmp: (T, T) -> int)
    requires IsComparator(cmp)
    requires IsSplittable(r) && IsInRange(s, r, cmp)
    ensures var halves := SplitRange(r, s, inclusion).value;
      (IsInRange(v, halves.lower, cmp) <==> IsInRange(v, r, cmp) && BelongsLower(cmp(v, s), inclusion)) &&
      (IsInRange(v, halves.higher, cmp) <==> IsInRange(v, r, cmp) && BelongsHigher(cmp(v, s), inclusion))
  {
    BoundedMembership(r, s, cmp);
    if cmp(v, s) >= 0 { LowerBoundCarries(r, s, v, cmp); }
    if cmp(v, s) <= 0 { UpperBoundCarries(r, s, v, cmp); }
    SplitHalvesFromBounds(r, s, inclusion, v, cmp);
  }

  /**
   * With `Lower` or `Higher` the halves are disjoint and together make up
   * the range; with `Both` the split value is in both halves and every
   * other value of the range is in exactly one.
   */
  lemma SplitRangePartitions<T(!new)>(r: Range<T>, s: T, inclusion: RangeSplitInclusion, v: T, cmp: (T, T) -> int)
    requires IsComparator(cmp)
    requires IsSplittable(r) && IsInRange(s, r, cmp)
    ensures var halves := SplitRange(r, s, inclusion).value;
      var inLower, inHigher := IsInRange(v, halves.lower, cmp), IsInRange(v, halves.higher, cmp);
      (IsInRange(v, r, cmp) <==> inLower || inHigher) &&
      (inclusion != Both ==> !(inLower && inHigher)) &&
      (inclusion == Both ==> (inLower && inHigher <==> cmp(v, s) == 0 && IsInRange(v, r, cmp))) &&
      (inclusion == Lower && cmp(s, s) == 0 ==> IsInRange(s, halves.lower, cmp) && !IsInRange(s, halves.higher, cmp)) &&
      (inclusion == Higher && cmp(s, s) == 0 ==> !IsInRange(s, halves.lower, cmp) && IsInRange(s, halves.higher, cmp))
  {
    SplitRangeHalves(r, s, inclusion, v, cmp);
    SplitRangeHalves(r, s, inclusion, s, cmp);
  }

  // ---------------------------------------------------------------------
  // Builders (the calculator is its comparator `cmp`)

  function CreateRangeLessThanOrEqualTo<T(!new)>(cmp: (T, T) -> int, x: T): (r: Range<T>)
    ensures forall v :: IsInRange(v, r, cmp) <==> cmp(v, x) <= 0
  {
    MaxInclusiveRange(x)
  }

  function CreateRangeLessThan<T(!new)>(cmp: (T, T) -> int, x: T): (r: Range<T>)
    ensures forall v :: IsInRange(v, r, cmp) <==> cmp(v, x) < 0
  {
    MaxExclusiveRange(x)
  }

  function CreateRangeEqualTo<T(!new)>(cmp: (T, T) -> int, x: T): (r: Range<T>)
    ensures forall v :: IsInRange(v, r, cmp) <==> cmp(x, v) == 0
  {
    SingleValueRange(x)
  }

  function CreateRangeGreaterThan<T(!new)>(cmp: (T, T) -> int, x: T): (r: Range<T>)
    ensures forall v :: IsInRange(v, r, cmp) <==> cmp(x, v) < 0
  {
    MinExclusiveRange(x)
  }

  function CreateRangeGreaterThanOrEqualTo<T(!new)>(cmp: (T, T) -> int, x: T): (r: Range<T>)
    ensures forall v :: IsInRange(v, r, cmp) <==> cmp(x, v) <= 0
  {
    MinInclusiveRange(x)
  }

  function CreateBoundedRangeLessThanOrEqualTo<T(!new)>(cmp: (T, T) -> int, x: T, bounds: Range<T>): (r: Range<T>)
    ensures forall v :: IsInRange(v, r, cmp) <==> cmp(v, x) <= 0 && IsInRange(v, bounds, cmp)
  {
    AndRange(MaxInclusiveRange(x), bounds)
  }

  function CreateBoundedRangeLessThan<T(!new)>(cmp: (T, T) -> int, x: T, bounds: Range<T>): (r: Range<T>)
    ensures forall v :: IsInRange(v, r, cmp) <==> cmp(v, x) < 0 && IsInRange(v, bounds, cmp)
  {
    AndRange(MaxExclusiveRange(x), bounds)
  }

  function CreateBoundedRangeEqualTo<T(!new)>(cmp: (T, T) -> int, x: T, bounds: Range<T>): (r: Range<T>)
    ensures forall v :: IsInRange(v, r, cmp) <==> cmp(x, v) == 0 && IsInRange(v, bounds, cmp)
  {
    AndRange(SingleValueRange(x), bounds)
  }

  function CreateBoundedRangeGreaterThan<T(!new)>(cmp: (T, T) -> int, x: T, bounds: Range<T>): (r: Range<T>)
    ensures forall v :: IsInRange(v, r, cmp) <==> cmp(x, v) < 0 && IsInRange(v, bounds, cmp)
  {
    AndRange(MinExclusiveRange(x), bounds)
  }

  function CreateBoundedRangeGreaterThanOrEqualTo<T(!new)>(cmp: (T, T) -> int, x: T, bounds: Range<T>): (r: Range<T>)
    ensures forall v :: IsInRange(v, r, cmp) <==> cmp(x, v) <= 0 && IsInRange(v, bounds, cmp)
  {
    AndRange(MinInclusiveRange(x), bounds)
  }

  function CreateBoundedRangeBetween<T(!new)>(cmp: (T, T) -> int, lo: T, hi: T, bounds: Range<T>): (r: Range<T>)
    ensures forall v :: IsInRange(v, r, cmp) <==>
      cmp(lo, v) <= 0 && cmp(v, hi) <= 0 && IsInRange(v, bounds, cmp)
  {
    AndRange(MinInclusiveMaxInclusiveRange(lo, hi), bounds)
  }

  // ---------------------------------------------------------------------
  // Rendering

  /**
   * `toString` of a range. `show` renders a unit value, `order` is the
   * iteration order of a value set, and `recordString` is the default record
   * rendering used by the variants that do not override `toString`.
   */
  function ToString<T>(r: Range<T>, show: T -> JString, order: set<T> -> seq<T>,
                       recordString: Range<T> -> JString): (s: JString)
  {
    match r
    case NotRange(inner) => Utf16("NOT ") + ToString(inner, show, order, recordString)
    case AndRange(a, b) =>
      ToString(a, show, order, recordString) + Utf16(" && ") + ToString(b, show, order, recordString)
    case NeverInRange => Utf16("NEVER")
    case MaxInclusiveRange(x) => Utf16("<=") + show(x)
    case MaxExclusiveRange(x) => Utf16("<") + show(x)
    case MultiValueRange(xs) =>
      if xs == {} then Utf16("[]")
      else Utf16("[") + Join(seq(|order(xs)|, i requires 0 <= i < |order(xs)| => show(order(xs)[i])), Utf16(",")) + Utf16("]")
    case _ => recordString(r)
  }

  /** The overridden renderings of the ranges without parts, with their fixed text. */
  lemma RenderedForms<T>(x: T, show: T -> JString, order: set<T> -> seq<T>, recordString: Range<T> -> JString)
    ensures ToString(MaxInclusiveRange(x), show, order, recordString) == [0x3C, 0x3D] + show(x)
    ensures ToString(MaxExclusiveRange(x), show, order, recordString) == [0x3C] + show(x)
    ensures ToString<T>(NeverInRange, show, order, recordString) == [0x4E, 0x45, 0x56, 0x45, 0x52]
    ensures ToString(MultiValueRange({}), show, order, recordString) == [0x5B, 0x5D]
  {
  }

  /** The overridden renderings of the combined ranges, with the fixed text each one adds around its parts. */
  lemma RenderedCombinations<T>(a: Range<T>, b: Range<T>, show: T -> JString, order: set<T> -> seq<T>,
                                recordString: Range<T> -> JString)
    ensures ToString(NotRange(a), show, order, recordString) == [0x4E, 0x4F, 0x54, 0x20] + ToString(a, show, order, recordString)
    ensures ToString(AndRange(a, b), show, order, recordString) ==
      ToString(a, show, order, recordString) + [0x20, 0x26, 0x26, 0x20] + ToString(b, show, order, recordString)
    ensures ToString(OrRange(a, b), show, order, recordString) == recordString(OrRange(a, b))
  {
  }
}
