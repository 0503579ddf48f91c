/** A named, indexed dimension of a hyper-cube, with its range and comparator. */
module Dimensions {
  import opened JavaLang
  import R = Ranges

  /**
   * A `Dimension`: all fields are fixed at construction and its getters
   * return them unchanged. The dimension's arithmetic and range calculator
   * are represented by the one thing the calculator uses, `compare`.
   */
  datatype Dimension<!T(==)> = Dimension(name: JString, dimensionIndex: nat, range: R.Range<T>, compare: (T, T) -> int)

  /** `isInRange`: membership of `v` in the dimension's own range under its calculator. */
  function IsInRange<T(==)>(d: Dimension<T>, v: T): bool
  {
    R.IsInRange(v, d.range, d.compare)
  }

  /**
   * `rangeBetween(lo, hi)`: the dimension's range narrowed to `[lo, hi]`;
   * a value is in it iff it lies between the bounds and in the dimension.
   */
  function RangeBetween<T(!new)>(d: Dimension<T>, lo: T, hi: T): (r: R.Range<T>)
    ensures forall v :: R.IsInRange(v, r, d.compare) <==>
      d.compare(lo, v) <= 0 && d.compare(v, hi) <= 0 && IsInRange(d, v)
  {
    R.CreateBoundedRangeBetween(d.compare, lo, hi, d.range)
  }

  /** An integer dimension over [0, 1] holds 0 and 1 but not -1 or 2. */
  lemma UnitIntegerDimension(name: JString, index: nat)
    ensures var d := Dimension(name, index, R.MinInclusiveMaxInclusiveRange(0, 1), R.IntCompare);
      !IsInRange(d, -1) && IsInRange(d, 0) && IsInRange(d, 1) && !IsInRange(d, 2)
  {
  }
}
