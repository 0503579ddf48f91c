/**
 * `number_suffix_format`, the label formatter of the performance plots:
 * each value is labelled with a unit symbol (k, M, G, ... or K, M, G, ...)
 * chosen from the magnitude of the value, or a fixed symbol, followed by a
 * suffix. The magnitude of a value is the number of powers of the base,
 * from base^1 to base^9, that do not exceed it, as `bisect_right` finds it.
 * The powers are float64 values (`base ** exponents` over a float array),
 * so the two SI powers past 2 ** 53 are rounded.
 *
 * Values are integers here, compared exactly with the float64 powers, and
 * the formatting of the scaled value (a floating point division and a
 * format string) is a parameter.
 */
module NumberSuffixFormat {
  import opened Wrappers
  import JavaLang

  /** The symbols of a unit system, by magnitude: SI symbols for "si", binary ones otherwise. */
  function SymbolsFor(units: string): (symbols: seq<string>)
    ensures |symbols| == 9 && symbols[0] == ""
    ensures symbols[1] == (if units == "si" then "k" else "K")
  {
    if units == "si" then ["", "k", "M", "G", "T", "P", "E", "Z", "Y"]
    else ["", "K", "M", "G", "T", "P", "E", "Z", "Y"]
  }

  /** The base of a unit system: 1000 for "si", 1024 otherwise. */
  function BaseFor(units: string): (base: int)
    ensures base == 1000 || base == 1024
    ensures base == 1000 <==> units == "si"
  {
    if units == "si" then 1000 else 1024
  }

  /** `base ** exponent`. */
  function Pow(base: int, exponent: nat): int
  {
    if exponent == 0 then 1 else base * Pow(base, exponent - 1)
  }

  /** A power of a base of at least 2 is positive and grows strictly with the exponent. */
  lemma {:induction false} PowGrows(base: int, e: nat, f: nat)
    requires base >= 2 && e < f
    ensures 0 < Pow(base, e) < Pow(base, f)
    decreases f
  {
    PowPositive(base, f - 1);
    if e < f - 1 {
      PowGrows(base, e, f - 1);
    }
  }

  /** A power of a base of at least 2 is positive. */
  lemma {:induction false} PowPositive(base: int, e: nat)
    requires base >= 2
    ensures Pow(base, e) > 0
  {
    if e > 0 {
      PowPositive(base, e - 1);
    }
  }

  /** `2 ** e`. */
  function Pow2(e: nat): (p: int)
    ensures p > 0
  {
    PowPositive(2, e);
    Pow(2, e)
  }

  /** Exponents add: `base ** (a + b)` is `base ** a * base ** b`. */
  lemma {:induction false} PowAdd(base: int, a: nat, b: nat)
    ensures Pow(base, a + b) == Pow(base, a) * Pow(base, b)
    decreases b
  {
    if b > 0 {
      PowAdd(base, a, b - 1);
      calc {
        Pow(base, a + b);
        base * Pow(base, a + b - 1);
        base * (Pow(base, a) * Pow(base, b - 1));
        Pow(base, a) * (base * Pow(base, b - 1));
        Pow(base, a) * Pow(base, b);
      }
    }
  }

  /** The powers of 5, 1000 and 1024 the thresholds are made of. */
  lemma DecimalPowers()
    ensures Pow(5, 3) == 125 && Pow(5, 6) == 15_625 && Pow(5, 9) == 1_953_125 && Pow(5, 12) == 244_140_625
    ensures Pow(5, 15) == 30_517_578_125 && Pow(5, 18) == 3_814_697_265_625 && Pow(5, 21) == 476_837_158_203_125
    ensures Pow(1000, 1) == 1_000 && Pow(1000, 2) == 1_000_000 && Pow(1000, 3) == 1_000_000_000
    ensures Pow(1000, 4) == 1_000_000_000_000 && Pow(1000, 5) == 1_000_000_000_000_000
    ensures Pow(1000, 6) == 1_000_000_000_000_000_000 && Pow(1000, 7) == 1_000_000_000_000_000_000_000
    ensures Pow(1000, 8) == 1_000_000_000_000_000_000_000_000 && Pow(1000, 9) == 1_000_000_000_000_000_000_000_000_000
    ensures Pow(1024, 1) == 0x400 && Pow(1024, 2) == 0x10_0000 && Pow(1024, 3) == 0x4000_0000
    ensures Pow(1024, 4) == 0x100_0000_0000 && Pow(1024, 5) == 0x4_0000_0000_0000 && Pow(1024, 6) == 0x1000_0000_0000_0000
    ensures Pow(1024, 7) == 0x40_0000_0000_0000_0000 && Pow(1024, 8) == 0x1_0000_0000_0000_0000_0000
    ensures Pow(1024, 9) == 0x400_0000_0000_0000_0000_0000
  {
    assert Pow(5, 3) == 125;
    PowAdd(5, 3, 3);
    PowAdd(5, 6, 3);
    PowAdd(5, 9, 3);
    PowAdd(5, 12, 3);
    PowAdd(5, 15, 3);
    PowAdd(5, 18, 3);
    assert Pow(1000, 1) == 1_000 && Pow(1024, 1) == 0x400;
    PowAdd(1000, 1, 1);
    PowAdd(1000, 2, 1);
    PowAdd(1000, 3, 1);
    PowAdd(1000, 4, 1);
    PowAdd(1000, 5, 1);
    PowAdd(1000, 6, 1);
    PowAdd(1000, 7, 1);
    PowAdd(1000, 8, 1);
    PowAdd(1024, 1, 1);
    PowAdd(1024, 2, 1);
    PowAdd(1024, 3, 1);
    PowAdd(1024, 4, 1);
    PowAdd(1024, 5, 1);
    PowAdd(1024, 6, 1);
    PowAdd(1024, 7, 1);
    PowAdd(1024, 8, 1);
  }

  /** The powers of two the thresholds' exponents and significands take. */
  lemma BinaryPowers()
    ensures Pow2(0) == 0x1 && Pow2(3) == 0x8 && Pow2(6) == 0x40 && Pow2(8) == 0x100 && Pow2(9) == 0x200
    ensures Pow2(10) == 0x400 && Pow2(12) == 0x1000 && Pow2(15) == 0x8000 && Pow2(18) == 0x4_0000
    ensures Pow2(20) == 0x10_0000 && Pow2(21) == 0x20_0000 && Pow2(27) == 0x800_0000 && Pow2(28) == 0x1000_0000
    ensures Pow2(30) == 0x4000_0000 && Pow2(37) == 0x20_0000_0000 && Pow2(38) == 0x40_0000_0000
    ensures Pow2(40) == 0x100_0000_0000 && Pow2(50) == 0x4_0000_0000_0000
  {
    assert Pow(2, 0) == 0x1 && Pow(2, 3) == 0x8 && Pow(2, 6) == 0x40 && Pow(2, 8) == 0x100 && Pow(2, 9) == 0x200;
    PowAdd(2, 9, 1);
    PowAdd(2, 6, 6);
    PowAdd(2, 9, 6);
    PowAdd(2, 9, 9);
    PowAdd(2, 10, 10);
    PowAdd(2, 18, 3);
    PowAdd(2, 18, 9);
    PowAdd(2, 20, 8);
    PowAdd(2, 20, 10);
    PowAdd(2, 27, 10);
    PowAdd(2, 28, 10);
    PowAdd(2, 30, 10);
    PowAdd(2, 40, 10);
  }

  /** `2 ** 52` and `2 ** 53`, the bounds of a full float64 significand. */
  const TWO_POW_52 := 0x10_0000_0000_0000
  const TWO_POW_53 := 0x20_0000_0000_0000

  /** `d` is the float64 value with significand `m` (a whole number below `2 ** 53`) and exponent `e`. */
  predicate IsFloat64(d: int, m: int, e: nat)
  {
    0 <= m < TWO_POW_53 && d == m * Pow2(e)
  }

  /**
   * `d` is the float64 value nearest `x`: either `x` itself, or a float64
   * value with a full 53-bit significand at exponent `e` that lies less
   * than half a unit of `2 ** e` away from `x`.
   */
  predicate NearestFloat64(x: int, d: int, m: int, e: nat)
  {
    IsFloat64(d, m, e) && (d == x || (TWO_POW_52 <= m && 2 * JavaLang.Abs(d - x) < Pow2(e)))
  }

  /**
   * `float(base) ** k`, the `k`-th threshold: `base ** k` rounded to
   * float64. Every power of 1024 is a power of two and `1000 ** k` is
   * `5 ** 3k * 2 ** 3k`, exact while `5 ** 3k` is below `2 ** 53`, that is
   * for `k` up to 7; `1000 ** 8` and `1000 ** 9` are rounded.
   */
  function Threshold(base: int, k: nat): (t: int)
  {
    if base == 1000 && k == 8 then 999_999_999_999_999_983_222_784
    else if base == 1000 && k == 9 then 1_000_000_000_000_000_013_287_555_072
    else Pow(base, k)
  }

  /** The exponent of the float64 value `Threshold(base, k)`. */
  function ThresholdExponent(base: int, k: nat): nat
  {
    if base == 1024 then (if 10 * k > 52 then 10 * k - 52 else 0)
    else if k == 8 then 27
    else if k == 9 then 37
    else 3 * k
  }

  /** The significand of the float64 value `Threshold(base, k)`: `5 ** 3k` or a power of two, unless rounded. */
  function ThresholdSignificand(base: int, k: nat): int
  {
    if base == 1024 then (if 10 * k > 52 then TWO_POW_52 else Pow2(10 * k))
    else if k == 8 then 7_450_580_596_923_828
    else if k == 9 then 7_275_957_614_183_426
    else Pow(5, 3 * k)
  }

  /** Each threshold of both unit systems is the float64 value nearest the exact power. */
  lemma ThresholdsNearest(base: int, k: nat)
    requires (base == 1000 || base == 1024) && 1 <= k <= 9
    ensures NearestFloat64(Pow(base, k), Threshold(base, k), ThresholdSignificand(base, k), ThresholdExponent(base, k))
    ensures base == 1024 || k <= 7 <==> Threshold(base, k) == Pow(base, k)
  {
    if base == 1000 {
      SiThresholdNearest(k);
    } else {
      BinaryThresholdNearest(k);
    }
  }

  /** `1000 ** k` is `5 ** 3k * 2 ** 3k`: exact up to `k = 7`, rounded at 8 and 9. */
  lemma SiThresholdNearest(k: nat)
    requires 1 <= k <= 9
    ensures NearestFloat64(Pow(1000, k), Threshold(1000, k), ThresholdSignificand(1000, k), ThresholdExponent(1000, k))
    ensures k <= 7 <==> Threshold(1000, k) == Pow(1000, k)
  {
    if k <= 7 {
      SiThresholdExact(k);
    } else {
      SiThresholdRounded(k);
    }
  }

  /** Up to `1000 ** 7`, `5 ** 3k` fits a float64 significand and the threshold is exact. */
  lemma SiThresholdExact(k: nat)
    requires 1 <= k <= 7
    ensures NearestFloat64(Pow(1000, k), Threshold(1000, k), ThresholdSignificand(1000, k), ThresholdExponent(1000, k))
    ensures Threshold(1000, k) == Pow(1000, k)
  {
    DecimalPowers();
    BinaryPowers();
    if k == 1 {
      assert Pow(1000, 1) == Pow(5, 3) * Pow2(3);
    } else if k == 2 {
      assert Pow(1000, 2) == Pow(5, 6) * Pow2(6);
    } else if k == 3 {
      assert Pow(1000, 3) == Pow(5, 9) * Pow2(9);
    } else if k == 4 {
      assert Pow(1000, 4) == Pow(5, 12) * Pow2(12);
    } else if k == 5 {
      assert Pow(1000, 5) == Pow(5, 15) * Pow2(15);
    } else if k == 6 {
      assert Pow(1000, 6) == Pow(5, 18) * Pow2(18);
    } else {
      assert Pow(1000, 7) == Pow(5, 21) * Pow2(21);
    }
  }

  /** `1000 ** 8` and `1000 ** 9` need more than 53 bits and are rounded to the nearest float64 value. */
  lemma SiThresholdRounded(k: nat)
    requires 8 <= k <= 9
    ensures NearestFloat64(Pow(1000, k), Threshold(1000, k), ThresholdSignificand(1000, k), ThresholdExponent(1000, k))
    ensures Threshold(1000, k) != Pow(1000, k)
  {
    DecimalPowers();
    BinaryPowers();
  }

  /** `1024 ** k` is `2 ** 10k`, a whole power of two. */
  lemma BinaryThresholdNearest(k: nat)
    requires 1 <= k <= 9
    ensures NearestFloat64(Pow(1024, k), Threshold(1024, k), ThresholdSignificand(1024, k), ThresholdExponent(1024, k))
    ensures Threshold(1024, k) == Pow(1024, k)
  {
    DecimalPowers();
    BinaryPowers();
    if k == 1 {
      assert Pow(1024, 1) == Pow2(10);
    } else if k == 2 {
      assert Pow(1024, 2) == Pow2(20);
    } else if k == 3 {
      assert Pow(1024, 3) == Pow2(30);
    } else if k == 4 {
      assert Pow(1024, 4) == Pow2(40);
    } else if k == 5 {
      assert Pow(1024, 5) == Pow2(50);
    } else if k == 6 {
      assert Pow(1024, 6) == TWO_POW_52 * Pow2(8);
    } else if k == 7 {
      assert Pow(1024, 7) == TWO_POW_52 * Pow2(18);
    } else if k == 8 {
      assert Pow(1024, 8) == TWO_POW_52 * Pow2(28);
    } else {
      assert Pow(1024, 9) == TWO_POW_52 * Pow2(38);
    }
  }

  /** For either unit system the thresholds are positive and strictly increase. */
  lemma ThresholdsGrow(base: int, i: nat, j: nat)
    requires (base == 1000 || base == 1024) && i < j <= 9
    ensures 0 < Threshold(base, i) < Threshold(base, j)
  {
    PowPositive(base, i);
    PowGrows(base, i, j);
    if base == 1000 && j >= 8 {
      if i < 7 {
        PowGrows(base, i, 7);
      }
      assert Pow(1000, 7) == 1_000_000_000_000_000_000_000;
    }
  }

  /** The thresholds `float(base) ** [1, 2, ..., n]`. */
  function Powers(base: int, n: nat): (powers: seq<int>)
    ensures |powers| == n
    ensures forall i :: 0 <= i < n ==> powers[i] == Threshold(base, i + 1)
  {
    seq(n, i requires 0 <= i < n => Threshold(base, i + 1))
  }

  /** Non-decreasing, as `bisect_right` requires of its list. */
  predicate Sorted(a: seq<int>)
  {
    forall i, j :: 0 <= i < j < |a| ==> a[i] <= a[j]
  }

  /** All positive and strictly increasing. */
  predicate PositiveIncreasing(a: seq<int>)
  {
    forall i, j :: 0 <= i < j < |a| ==> 0 < a[i] && a[i] < a[j]
  }

  /** For either unit system the nine thresholds strictly increase and are all positive. */
  lemma PowersIncrease(base: int, n: nat)
    requires (base == 1000 || base == 1024) && n <= 9
    ensures PositiveIncreasing(Powers(base, n))
    ensures Sorted(Powers(base, n))
  {
    ListedThresholdsIncrease(base, Powers(base, n));
  }

  /** Any list of consecutive thresholds from the first is positive and strictly increasing. */
  lemma ListedThresholdsIncrease(base: int, p: seq<int>)
    requires (base == 1000 || base == 1024) && |p| <= 9
    requires forall i :: 0 <= i < |p| ==> p[i] == Threshold(base, i + 1)
    ensures PositiveIncreasing(p) && Sorted(p)
  {
    forall i, j | 0 <= i < j < |p|
      ensures 0 < p[i] && p[i] < p[j]
    {
      ThresholdsGrow(base, i + 1, j + 1);
    }
  }

  /**
   * `bisect_right(a, x)` on a sorted list: the position after every entry
   * not above `x`, that is, the first entry above `x` (or the length).
   */
  function BisectRight(a: seq<int>, x: int): (r: nat)
    ensures r <= |a|
    ensures Sorted(a) ==> forall i :: 0 <= i < r ==> a[i] <= x
    ensures r < |a| ==> a[r] > x
  {
    if a == [] || a[0] > x then 0
    else 1 + BisectRight(a[1..], x)
  }

  /** The number of entries of `a` that are not above `x`. */
  function CountAtMost(a: seq<int>, x: int): (c: nat)
    ensures c <= |a|
  {
    if a == [] then 0
    else (if a[0] <= x then 1 else 0) + CountAtMost(a[1..], x)
  }

  /** With every entry above `x`, none is counted. */
  lemma {:induction false} CountNone(a: seq<int>, x: int)
    requires forall i :: 0 <= i < |a| ==> a[i] > x
    ensures CountAtMost(a, x) == 0
  {
    if a != [] {
      CountNone(a[1..], x);
    }
  }

  /** On a sorted list the bisection point is the number of entries not above `x`. */
  lemma {:induction false} BisectCounts(a: seq<int>, x: int)
    requires Sorted(a)
    ensures BisectRight(a, x) == CountAtMost(a, x)
  {
    if a != [] {
      if a[0] > x {
        CountNone(a, x);
      } else {
        BisectCounts(a[1..], x);
      }
    }
  }

  /** The bisection point does not decrease as the value grows. */
  lemma {:induction false} BisectMonotone(a: seq<int>, x: int, y: int)
    requires x <= y
    ensures BisectRight(a, x) <= BisectRight(a, y)
  {
    if a != [] && a[0] <= x {
      BisectMonotone(a[1..], x, y);
    }
  }

  /**
   * A formatter as the constructor leaves it: its arguments, the base and
   * symbols of its unit system and the thresholds `base ** 1 .. base ** 9`.
   */
  datatype Formatter = Formatter(symbol: string, units: string, fmt: string, suffix: string,
                                 base: int, allSymbols: seq<string>, powers: seq<int>)

  /** What the constructor guarantees of the formatters it returns. */
  predicate Valid(f: Formatter)
  {
    f.base == BaseFor(f.units) && f.allSymbols == SymbolsFor(f.units) &&
    f.powers == Powers(f.base, |f.allSymbols|) &&
    (f.symbol == "auto" || f.symbol in f.allSymbols)
  }

  /**
   * `number_suffix_format(symbol, units, fmt, suffix)`: a symbol that is
   * neither "auto" nor a symbol of the unit system raises `ValueError`.
   */
  function Create(symbol: string, units: string, fmt: string, suffix: string): (r: Result<Formatter>)
    ensures r.Err? <==> symbol != "auto" && symbol !in SymbolsFor(units)
    ensures r.Err? ==> r.error == ValueError
    ensures r.Ok? ==> Valid(r.value)
    ensures r.Ok? ==> r.value.symbol == symbol && r.value.units == units && r.value.fmt == fmt && r.value.suffix == suffix
  {
    var base := BaseFor(units);
    var allSymbols := SymbolsFor(units);
    var powers := Powers(base, |allSymbols|);
    if symbol !in ["auto"] + allSymbols then Err(ValueError)
    else Ok(Formatter(symbol, units, fmt, suffix, base, allSymbols, powers))
  }

  /** The default formatter: automatic symbols, SI units, `{:.0f} ` and no suffix. */
  lemma DefaultFormatter()
    ensures Create("auto", "si", "{:.0f} ", "").Ok?
    ensures Create("auto", "si", "{:.0f} ", "").value.base == 1000
  {
  }

  /** `match([symbol], symbols)`: the position of the first occurrence. */
  function IndexOf(symbols: seq<string>, symbol: string): (k: nat)
    requires symbol in symbols
    ensures k < |symbols| && symbols[k] == symbol
    ensures forall j :: 0 <= j < k ==> symbols[j] != symbol
  {
    if symbols[0] == symbol then 0 else 1 + IndexOf(symbols[1..], symbol)
  }

  /**
   * The magnitude index of each value: in automatic mode the bisection
   * point of the value among the thresholds, otherwise the position of the
   * fixed symbol.
   */
  function Magnitude(f: Formatter, x: int): (p: nat)
    requires Valid(f)
    ensures f.symbol != "auto" ==> p < |f.allSymbols| && f.allSymbols[p] == f.symbol
    ensures f.symbol == "auto" ==> p <= |f.powers| && (p < |f.powers| ==> x < f.powers[p])
  {
    if f.symbol == "auto" then BisectRight(f.powers, x) else IndexOf(f.allSymbols, f.symbol)
  }

  /**
   * `__call__(x)`: one label per value, in order: the value divided by
   * `float(base) ** power` rendered by the format string (`render(value,
   * divisor)`), then the symbol, then the suffix. In automatic mode a value
   * whose magnitude is past the symbol list raises `IndexError`.
   */
  function Labels(f: Formatter, xs: seq<int>, render: (int, int) -> string): (r: Result<seq<string>>)
    requires Valid(f)
    ensures r.Err? ==> r.error == IndexError
    ensures r.Ok? ==> |r.value| == |xs|
  {
    if exists i :: 0 <= i < |xs| && Magnitude(f, xs[i]) >= |f.allSymbols| then Err(IndexError)
    else
      Ok(seq(|xs|, i requires 0 <= i < |xs| =>
        var p := Magnitude(f, xs[i]);
        render(xs[i], Threshold(f.base, p)) + f.allSymbols[p] + f.suffix))
  }

  /** The symbol a label carries: the one at its magnitude, which is the fixed symbol when there is one. */
  function SymbolOf(f: Formatter, x: int): (s: string)
    requires Valid(f) && Magnitude(f, x) < |f.allSymbols|
    ensures f.symbol != "auto" ==> s == f.symbol
  {
    f.allSymbols[Magnitude(f, x)]
  }

  /**
   * In automatic mode a value gets magnitude `k` exactly when it lies in
   * `[float(base) ** k, float(base) ** (k + 1))`; values below the base
   * (every value not above zero included) get magnitude 0 and the empty
   * symbol.
   */
  lemma AutoMagnitude(f: Formatter, x: int, k: nat)
    requires Valid(f) && f.symbol == "auto" && k < 9
    requires (k == 0 || Threshold(f.base, k) <= x) && x < Threshold(f.base, k + 1)
    ensures Magnitude(f, x) == k
    ensures SymbolOf(f, x) == f.allSymbols[k]
  {
    PowersIncrease(f.base, 9);
    assert Sorted(f.powers);
    var r := BisectRight(f.powers, x);
    assert |f.powers| == 9;
    if r < k {
      assert f.powers[r] == Threshold(f.base, r + 1) && f.powers[r] > x;
      if r + 1 < k {
        ThresholdsGrow(f.base, r + 1, k);
      }
    }
    assert f.powers[k] == Threshold(f.base, k + 1);
  }

  /** With SI units the values 1000, 1000000 and 400000 get the symbols k, M and k. */
  lemma ExampleSymbolsSi()
    ensures var f := Create("auto", "si", "{:.0f} ", "B").value;
      SymbolOf(f, 1000) == "k" && SymbolOf(f, 1000000) == "M" && SymbolOf(f, 400000) == "k"
  {
    var f := Create("auto", "si", "{:.0f} ", "B").value;
    assert f.base == 1000 && f.allSymbols == SymbolsFor("si");
    assert Pow(1000, 1) == 1000 && Pow(1000, 2) == 1000000 && Pow(1000, 3) == 1000000000;
    AutoMagnitude(f, 1000, 1);
    AutoMagnitude(f, 1000000, 2);
    AutoMagnitude(f, 400000, 1);
  }

  /** With binary units the same values get no symbol, K and K. */
  lemma ExampleSymbolsBinary()
    ensures var f := Create("auto", "binary", "{:.0f} ", "iB").value;
      SymbolOf(f, 1000) == "" && SymbolOf(f, 1000000) == "K" && SymbolOf(f, 400000) == "K"
  {
    var f := Create("auto", "binary", "{:.0f} ", "iB").value;
    assert f.base == 1024 && f.allSymbols == SymbolsFor("binary");
    assert Pow(1024, 1) == 1024 && Pow(1024, 2) == 1048576;
    AutoMagnitude(f, 1000, 0);
    AutoMagnitude(f, 1000000, 1);
    AutoMagnitude(f, 400000, 1);
  }

  /**
   * Past `2 ** 53` the rounded SI thresholds decide: `10 ** 24 - 1` already
   * gets magnitude 8 ("Y"), since `float(1000) ** 8` is below `10 ** 24`,
   * and `10 ** 27` still gets "Y" rather than an `IndexError`, since
   * `float(1000) ** 9` is above it.
   */
  lemma ExampleSymbolsRounded(f: Formatter)
    requires Valid(f) && f.symbol == "auto" && f.units == "si"
    ensures Magnitude(f, 1_000_000_000_000_000_000_000_000 - 1) == 8
    ensures Magnitude(f, 1_000_000_000_000_000_000_000_000_000) == 8
    ensures SymbolOf(f, 1_000_000_000_000_000_000_000_000_000) == "Y"
  {
    AutoMagnitude(f, 1_000_000_000_000_000_000_000_000 - 1, 8);
    AutoMagnitude(f, 1_000_000_000_000_000_000_000_000_000, 8);
  }

  /** In automatic mode the magnitude never decreases as the value grows; non-positive values get magnitude 0. */
  lemma AutoMagnitudeMonotone(f: Formatter, x: int, y: int)
    requires Valid(f) && f.symbol == "auto" && x <= y
    ensures Magnitude(f, x) <= Magnitude(f, y)
    ensures x <= 0 ==> Magnitude(f, x) == 0
  {
    BisectMonotone(f.powers, x, y);
    if x <= 0 {
      PowPositive(f.base, 1);
    }
  }

  /**
   * The call fails exactly in automatic mode when some value reaches
   * `float(base) ** 9`: its magnitude is 9, past the nine symbols.
   */
  lemma LabelsFail(f: Formatter, xs: seq<int>, render: (int, int) -> string)
    requires Valid(f)
    ensures Labels(f, xs, render).Err? <==>
      f.symbol == "auto" && exists i :: 0 <= i < |xs| && xs[i] >= Threshold(f.base, 9)
  {
    PowersIncrease(f.base, 9);
    if f.symbol == "auto" {
      forall i | 0 <= i < |xs|
        ensures Magnitude(f, xs[i]) >= |f.allSymbols| <==> xs[i] >= Threshold(f.base, 9)
      {
        var r := BisectRight(f.powers, xs[i]);
        if xs[i] >= Threshold(f.base, 9) {
          assert forall j :: 0 <= j < 9 ==> f.powers[j] <= xs[i];
          BisectCounts(f.powers, xs[i]);
          AllCounted(f.powers, xs[i]);
        } else {
          assert f.powers[8] > xs[i];
        }
      }
    }
  }

  /** With no entry above `x`, all entries are counted. */
  lemma {:induction false} AllCounted(a: seq<int>, x: int)
    requires forall i :: 0 <= i < |a| ==> a[i] <= x
    ensures CountAtMost(a, x) == |a|
  {
    if a != [] {
      AllCounted(a[1..], x);
    }
  }

  /** Each label ends with its value's symbol followed by the suffix. */
  lemma LabelsEndWith(f: Formatter, xs: seq<int>, render: (int, int) -> string, i: int)
    requires Valid(f) && Labels(f, xs, render).Ok? && 0 <= i < |xs|
    ensures Magnitude(f, xs[i]) < |f.allSymbols|
    ensures var text := Labels(f, xs, render).value[i];
      var tail := SymbolOf(f, xs[i]) + f.suffix;
      |tail| <= |text| && text[|text| - |tail|..] == tail
  {
    var p := Magnitude(f, xs[i]);
    var text := Labels(f, xs, render).value[i];
    var head := render(xs[i], Threshold(f.base, p));
    assert text == head + (f.allSymbols[p] + f.suffix);
  }
}
