/**
 * The SELECT algorithm of Floyd and Rivest (Algorithm 489, Communications
 * of the ACM 18(3), 1975) as the KD tree uses it: it rearranges a segment
 * `X[L..R]` of an array of point numbers, comparing points by one
 * coordinate, so that the entry at `K` splits the segment into entries not
 * greater before it and not less after it. Only entries of the segment are
 * exchanged.
 */
module KdSelect {
  import opened JavaLang

  /** Segments longer than this are first narrowed by selecting in a sample. */
  const THRESHOLD := 600

  /**
   * The sampling step's sub-segment `[LL, RR]` of `[L, R]` around `K`. The
   * sample size `S` and the deviation `SD` are floating-point estimates
   * computed from `N = R - L + 1` and `I = K - L + 1`; they are supplied by
   * `sampleSize` and `sampleDeviation`. The products `I * S` and
   * `(N - I) * S` are taken without 32-bit wrap-around here; the Java code
   * wraps them (`SampleBoundsAsWritten`).
   */
  function SampleBounds(L: int, R: int, K: int, sampleSize: int -> int, sampleDeviation: (int, int) -> int)
    : (b: (int, int))
    requires L <= R
    ensures L <= b.0 && b.1 <= R
  {
    var N := R - L + 1;
    var I := K - L + 1;
    var S := sampleSize(N);
    var SD := sampleDeviation(N, I);
    var LL := K - TruncDiv(I * S, N) + SD;
    var RR := K + TruncDiv((N - I) * S, N) + SD;
    (if L < LL then LL else L, if RR < R then RR else R)
  }

  /**
   * The sampled sub-segment contains `K` whenever the sample size is not
   * negative and the deviation does not move either bound past `K`.
   */
  lemma SampleBoundsBracket(L: int, R: int, K: int, sampleSize: int -> int, sampleDeviation: (int, int) -> int)
    requires L <= K <= R
    requires 0 <= sampleSize(R - L + 1)
    requires -((R - K) * sampleSize(R - L + 1) / (R - L + 1)) <= sampleDeviation(R - L + 1, K - L + 1)
    requires sampleDeviation(R - L + 1, K - L + 1) <= (K - L + 1) * sampleSize(R - L + 1) / (R - L + 1)
    ensures SampleBounds(L, R, K, sampleSize, sampleDeviation).0 <= K <= SampleBounds(L, R, K, sampleSize, sampleDeviation).1
  {
    var N, I, S := R - L + 1, K - L + 1, sampleSize(R - L + 1);
    assert 0 <= I * S && 0 <= (N - I) * S;
    assert TruncDiv(I * S, N) == I * S / N;
    assert TruncDiv((N - I) * S, N) == (N - I) * S / N;
  }

  /**
   * The sampling step's sub-segment as `KDTree.SELECT` computes it, in Java
   * `int` arithmetic: `I * S` and `(N - I) * S` wrap around at 32 bits,
   * and so do the sums around them. `S` and `SD` are the estimates after
   * their `(int)` casts. Segments of an array have `R < INT_MAX`.
   */
  function SampleBoundsAsWritten(L: int, R: int, K: int, S: int, SD: int): (b: (int, int))
    requires 0 <= L <= K <= R < INT_MAX
    requires INT_MIN <= S <= INT_MAX && INT_MIN <= SD <= INT_MAX
    ensures L <= b.0 && b.1 <= R
  {
    var N := R - L + 1;
    var I := K - L + 1;
    var LL := Wrap32(K - TruncDiv(Wrap32(I * S), N) + SD);
    var RR := Wrap32(K + TruncDiv(Wrap32((N - I) * S), N) + SD);
    (if L < LL then LL else L, if RR < R then RR else R)
  }

  /**
   * The KD tree selects the middle of its segment (`SD` is then 0). For a
   * segment of a million points the sample size is close to 5000, so
   * `I * S` exceeds `INT_MAX`, wraps to a negative number, and the lower
   * bound of the sample lands past `K`; the unwrapped bounds contain `K`.
   */
  lemma SampleBoundsAsWrittenMissesK(S: int)
    requires 4295 <= S <= 5000
    ensures SampleBoundsAsWritten(0, 999999, 499999, S, 0).0 > 499999
    ensures SampleBounds(0, 999999, 499999, _ => S, (_, _) => 0).0 <= 499999 <= SampleBounds(0, 999999, 499999, _ => S, (_, _) => 0).1
  {
    assert Wrap32(500000 * S) == 500000 * S - TWO_POW_32;
    SampleBoundsBracket(0, 999999, 499999, _ => S, (_, _) => 0);
  }

  /**
   * What the sampling step needs of the two estimates: for every segment
   * longer than `THRESHOLD`, the sub-segment contains `K` and is shorter.
   */
  ghost predicate SamplesShrink(sampleSize: int -> int, sampleDeviation: (int, int) -> int)
  {
    forall L, R, K :: L <= K <= R && R - L > THRESHOLD ==>
      SampleBounds(L, R, K, sampleSize, sampleDeviation).0 <= K <= SampleBounds(L, R, K, sampleSize, sampleDeviation).1 &&
      SampleBounds(L, R, K, sampleSize, sampleDeviation).1 - SampleBounds(L, R, K, sampleSize, sampleDeviation).0 < R - L
  }

  /** Every entry of `s` at positions `lo..hi` has a coordinate of at least `v`. */
  ghost predicate AtLeastOn(s: seq<int>, lo: int, hi: int, sampler: (int, int) -> int, d: int, v: int)
    requires 0 <= lo && hi < |s|
  {
    forall k :: lo <= k <= hi ==> v <= sampler(s[k], d)
  }

  /** Every entry of `s` at positions `lo..hi` has a coordinate of at most `v`. */
  ghost predicate AtMostOn(s: seq<int>, lo: int, hi: int, sampler: (int, int) -> int, d: int, v: int)
    requires 0 <= lo && hi < |s|
  {
    forall k :: lo <= k <= hi ==> sampler(s[k], d) <= v
  }

  /** A lower bound on a segment survives any rearrangement of that segment. */
  lemma CarryAtLeast(a: seq<int>, b: seq<int>, lo: int, hi: int, sampler: (int, int) -> int, d: int, v: int)
    requires 0 <= lo <= hi + 1 <= |a| == |b|
    requires multiset(a[lo..hi + 1]) == multiset(b[lo..hi + 1])
    requires AtLeastOn(a, lo, hi, sampler, d, v)
    ensures AtLeastOn(b, lo, hi, sampler, d, v)
  {
    forall k | lo <= k <= hi ensures v <= sampler(b[k], d) {
      assert b[k] == b[lo..hi + 1][k - lo];
      assert b[k] in multiset(a[lo..hi + 1]);
      var j :| 0 <= j < hi + 1 - lo && a[lo..hi + 1][j] == b[k];
      assert a[lo + j] == b[k];
    }
  }

  /** An upper bound on a segment survives any rearrangement of that segment. */
  lemma CarryAtMost(a: seq<int>, b: seq<int>, lo: int, hi: int, sampler: (int, int) -> int, d: int, v: int)
    requires 0 <= lo <= hi + 1 <= |a| == |b|
    requires multiset(a[lo..hi + 1]) == multiset(b[lo..hi + 1])
    requires AtMostOn(a, lo, hi, sampler, d, v)
    ensures AtMostOn(b, lo, hi, sampler, d, v)
  {
    forall k | lo <= k <= hi ensures sampler(b[k], d) <= v {
      assert b[k] == b[lo..hi + 1][k - lo];
      assert b[k] in multiset(a[lo..hi + 1]);
      var j :| 0 <= j < hi + 1 - lo && a[lo..hi + 1][j] == b[k];
      assert a[lo + j] == b[k];
    }
  }

  /** A coordinate some entry of a segment has survives any rearrangement of that segment. */
  lemma CarryAttained(a: seq<int>, b: seq<int>, lo: int, hi: int, sampler: (int, int) -> int, d: int, v: int)
    requires 0 <= lo <= hi + 1 <= |a| == |b|
    requires multiset(a[lo..hi + 1]) == multiset(b[lo..hi + 1])
    requires exists k :: lo <= k <= hi && sampler(a[k], d) == v
    ensures exists k :: lo <= k <= hi && sampler(b[k], d) == v
  {
    var k :| lo <= k <= hi && sampler(a[k], d) == v;
    assert a[k] == a[lo..hi + 1][k - lo];
    assert a[k] in multiset(b[lo..hi + 1]);
    var j :| 0 <= j < hi + 1 - lo && b[lo..hi + 1][j] == a[k];
    assert b[lo + j] == a[k];
  }

  /**
   * Rearranging an inner segment `[l, r]` and leaving the rest of an outer
   * segment `[lo, hi]` alone rearranges the outer segment.
   */
  lemma PermuteInside(a: seq<int>, b: seq<int>, lo: int, l: int, r: int, hi: int)
    requires 0 <= lo <= l <= r + 1 <= hi + 1 <= |a| == |b|
    requires multiset(a[l..r + 1]) == multiset(b[l..r + 1])
    requires forall k :: lo <= k < l || r < k <= hi ==> a[k] == b[k]
    ensures multiset(a[lo..hi + 1]) == multiset(b[lo..hi + 1])
  {
    assert a[lo..hi + 1] == a[lo..l] + a[l..r + 1] + a[r + 1..hi + 1];
    assert b[lo..hi + 1] == b[lo..l] + b[l..r + 1] + b[r + 1..hi + 1];
    assert a[lo..l] == b[lo..l];
    assert a[r + 1..hi + 1] == b[r + 1..hi + 1];
  }

  /** `exchange(X[i], X[j])`, inside a segment `[lo, hi]` whose entries it rearranges. */
  method Exchange(X: array<int>, i: int, j: int, ghost lo: int, ghost hi: int)
    requires 0 <= lo <= i <= hi < X.Length && lo <= j <= hi
    modifies X
    ensures X[i] == old(X[j]) && X[j] == old(X[i])
    ensures forall k :: 0 <= k < X.Length && k != i && k != j ==> X[k] == old(X[k])
    ensures multiset(X[lo..hi + 1]) == old(multiset(X[lo..hi + 1]))
  {
    ghost var s := X[lo..hi + 1];
    var exchangeTemp := X[i];
    X[i] := X[j];
    X[j] := exchangeTemp;
    assert X[lo..hi + 1] == s[i - lo := s[j - lo]][j - lo := s[i - lo]];
  }

  /**
   * The state of the partitioning loop with scan positions `I` and `J`:
   * entries before `I` are not greater than `T`, entries after `J` not less,
   * `X[I]` and `X[J]` are the next pair to exchange, and one end of the
   * segment still holds an entry with coordinate `T`.
   */
  ghost predicate Partitioning(s: seq<int>, L: int, R: int, I: int, J: int, sampler: (int, int) -> int, d: int, T: int)
    requires 0 <= L && R < |s|
  {
    L <= I <= R && L <= J <= R && I <= J + 1 &&
    ((I == L && J == R) || (L < I && J < R)) &&
    sampler(s[I], d) >= T && sampler(s[J], d) <= T &&
    (sampler(s[L], d) == T || sampler(s[R], d) == T) &&
    (forall k :: L <= k < I ==> sampler(s[k], d) <= T) &&
    (forall k :: J < k <= R ==> sampler(s[k], d) >= T)
  }

  /**
   * The set-up of a partition: `X[K]` is moved to `X[L]` and, when `X[R]` is
   * greater than it, the two ends are exchanged.
   */
  method PartitionStart(X: array<int>, L: int, R: int, K: int, d: int, sampler: (int, int) -> int) returns (T: int)
    requires 0 <= L <= K <= R < X.Length
    modifies X
    ensures T == old(sampler(X[K], d))
    ensures Partitioning(X[..], L, R, L, R, sampler, d, T)
    ensures multiset(X[L..R + 1]) == old(multiset(X[L..R + 1]))
    ensures forall k :: 0 <= k < L || R < k < X.Length ==> X[k] == old(X[k])
  {
    T := sampler(X[K], d);
    Exchange(X, L, K, L, R);
    if sampler(X[R], d) > T {
      Exchange(X, R, L, L, R);
    }
  }

  /**
   * One round of the partitioning loop: exchange `X[I]` and `X[J]`, step
   * both, then move `I` up past entries less than `T` and `J` down past
   * entries greater than `T`. The entries just exchanged stop both scans.
   */
  method PartitionRound(X: array<int>, L: int, R: int, I0: int, J0: int, d: int, sampler: (int, int) -> int, T: int)
    returns (I: int, J: int)
    requires 0 <= L && R < X.Length
    requires Partitioning(X[..], L, R, I0, J0, sampler, d, T) && I0 < J0
    modifies X
    ensures Partitioning(X[..], L, R, I, J, sampler, d, T)
    ensures I0 < I && J < J0
    ensures multiset(X[L..R + 1]) == old(multiset(X[L..R + 1]))
    ensures forall k :: 0 <= k < L || R < k < X.Length ==> X[k] == old(X[k])
  {
    Exchange(X, I0, J0, L, R);
    I := I0 + 1;
    J := J0 - 1;
    while sampler(X[I], d) < T
      invariant L < I <= J + 1 <= R
      invariant sampler(X[J + 1], d) >= T
      invariant forall k :: L <= k < I ==> sampler(X[k], d) <= T
      decreases J + 1 - I
    {
      I := I + 1;
    }
    while sampler(X[J], d) > T
      invariant L <= I - 1 <= J <= R - 1
      invariant sampler(X[I - 1], d) <= T
      invariant forall k :: J < k <= R ==> sampler(X[k], d) >= T
      decreases J
    {
      J := J - 1;
    }
  }

  /**
   * One partition of `X[L..R]` about the coordinate `T` of `X[K]`: the
   * returned `J` holds an entry with coordinate `T`, entries before it (in
   * the segment) are not greater and entries after it are not less.
   */
  method Partition(X: array<int>, L: int, R: int, K: int, d: int, sampler: (int, int) -> int) returns (J: int)
    requires 0 <= L <= K <= R < X.Length && L < R
    modifies X
    ensures L <= J <= R
    ensures sampler(X[J], d) == old(sampler(X[K], d))
    ensures forall k :: L <= k < J ==> sampler(X[k], d) <= sampler(X[J], d)
    ensures forall k :: J < k <= R ==> sampler(X[J], d) <= sampler(X[k], d)
    ensures multiset(X[L..R + 1]) == old(multiset(X[L..R + 1]))
    ensures forall k :: 0 <= k < L || R < k < X.Length ==> X[k] == old(X[k])
  {
    var T := PartitionStart(X, L, R, K, d, sampler);
    var I := L;
    J := R;
    while I < J
      invariant Partitioning(X[..], L, R, I, J, sampler, d, T)
      invariant multiset(X[L..R + 1]) == old(multiset(X[L..R + 1]))
      invariant forall k :: 0 <= k < L || R < k < X.Length ==> X[k] == old(X[k])
      decreases J - I
    {
      I, J := PartitionRound(X, L, R, I, J, d, sampler, T);
    }
    if sampler(X[L], d) == T {
      Exchange(X, L, J, L, R);
    } else {
      J := J + 1;
      Exchange(X, J, R, L, R);
    }
  }

  /**
   * The state of the outer loop of `SELECT` on `[L, R]` narrowed to
   * `[l, r]`: entries left of `l` are at most `lo` and those inside at
   * least `lo`; entries right of `r` are at least `hi` and those inside at
   * most `hi`. When both ends have passed `K`, `X[K]` sits between them.
   */
  ghost predicate Selecting(s: seq<int>, L: int, R: int, K: int, l: int, r: int, lo: int, hi: int,
                            sampler: (int, int) -> int, d: int)
    requires 0 <= L <= K <= R < |s|
  {
    L <= l && r <= R &&
    ((l <= K <= r) || (l == K + 1 && r == K - 1)) &&
    (l == K + 1 && r == K - 1 ==> sampler(s[K], d) == lo && sampler(s[K], d) == hi) &&
    AtMostOn(s, L, l - 1, sampler, d, lo) &&
    (l > L && l <= r + 1 ==> AtLeastOn(s, l, r, sampler, d, lo)) &&
    AtLeastOn(s, r + 1, R, sampler, d, hi) &&
    (r < R && l <= r + 1 ==> AtMostOn(s, l, r, sampler, d, hi))
  }

  /** Rearranging the open part `[l, r]` keeps the outer loop's state. */
  lemma RearrangeKeeps(a: seq<int>, b: seq<int>, L: int, R: int, K: int, l: int, r: int, lo: int, hi: int,
                       sampler: (int, int) -> int, d: int)
    requires 0 <= L <= K <= R < |a| == |b| && l <= r
    requires Selecting(a, L, R, K, l, r, lo, hi, sampler, d)
    requires multiset(a[l..r + 1]) == multiset(b[l..r + 1])
    requires forall k :: L <= k < l || r < k <= R ==> a[k] == b[k]
    ensures Selecting(b, L, R, K, l, r, lo, hi, sampler, d)
  {
    if l > L {
      CarryAtLeast(a, b, l, r, sampler, d, lo);
    }
    if r < R {
      CarryAtMost(a, b, l, r, sampler, d, hi);
    }
  }

  /** After a partition of `[l, r]` at `J`, the side not holding `K` is closed. */
  lemma SplitKeeps(s: seq<int>, L: int, R: int, K: int, l: int, r: int, lo: int, hi: int, J: int,
                   sampler: (int, int) -> int, d: int)
    requires 0 <= L <= K <= R < |s| && l < r
    requires Selecting(s, L, R, K, l, r, lo, hi, sampler, d)
    requires l <= J <= r
    requires forall k :: l <= k < J ==> sampler(s[k], d) <= sampler(s[J], d)
    requires forall k :: J < k <= r ==> sampler(s[J], d) <= sampler(s[k], d)
    ensures Selecting(s, L, R, K, if J <= K then J + 1 else l, if K <= J then J - 1 else r,
                      if J <= K then sampler(s[J], d) else lo, if K <= J then sampler(s[J], d) else hi, sampler, d)
  {
  }

  /** When the outer loop stops, `X[K]` splits `[L, R]`. */
  lemma SelectingDone(s: seq<int>, L: int, R: int, K: int, l: int, r: int, lo: int, hi: int,
                      sampler: (int, int) -> int, d: int)
    requires 0 <= L <= K <= R < |s| && r <= l
    requires Selecting(s, L, R, K, l, r, lo, hi, sampler, d)
    ensures forall k :: L <= k <= K ==> sampler(s[k], d) <= sampler(s[K], d)
    ensures forall k :: K <= k <= R ==> sampler(s[K], d) <= sampler(s[k], d)
  {
  }

  /**
   * The second half of a round of `SELECT`: partition `[l, r]` about `X[K]`
   * and continue on the side of the partition position that holds `K`.
   */
  method Narrow(X: array<int>, L: int, R: int, K: int, l: int, r: int, d: int, sampler: (int, int) -> int,
                ghost lo: int, ghost hi: int)
    returns (l': int, r': int, ghost lo': int, ghost hi': int)
    requires 0 <= L <= K <= R < X.Length && l < r
    requires Selecting(X[..], L, R, K, l, r, lo, hi, sampler, d)
    modifies X
    ensures Selecting(X[..], L, R, K, l', r', lo', hi', sampler, d)
    ensures r' - l' < r - l
    ensures multiset(X[L..R + 1]) == old(multiset(X[L..R + 1]))
    ensures forall k :: 0 <= k < L || R < k < X.Length ==> X[k] == old(X[k])
  {
    ghost var before := X[..];
    var J := Partition(X, l, r, K, d, sampler);
    PermuteInside(before, X[..], L, l, r, R);
    RearrangeKeeps(before, X[..], L, R, K, l, r, lo, hi, sampler, d);
    SplitKeeps(X[..], L, R, K, l, r, lo, hi, J, sampler, d);
    l', r', lo', hi' := l, r, lo, hi;
    ghost var T := sampler(X[J], d);
    if J <= K {
      l' := J + 1;
      lo' := T;
    }
    if K <= J {
      r' := J - 1;
      hi' := T;
    }
  }

  /**
   * `SELECT(X, L, R, K, d)`: afterwards every entry of `X[L..K]` has a
   * dimension-`d` coordinate not greater than that of `X[K]`, every entry
   * of `X[K..R]` one not less, the segment holds the same entries as
   * before and nothing outside it has moved.
   */
  method Select(X: array<int>, L: int, R: int, K: int, d: int, sampler: (int, int) -> int,
                sampleSize: int -> int, sampleDeviation: (int, int) -> int)
    requires 0 <= L <= K <= R < X.Length
    requires SamplesShrink(sampleSize, sampleDeviation)
    modifies X
    ensures multiset(X[L..R + 1]) == old(multiset(X[L..R + 1]))
    ensures forall k :: 0 <= k < L || R < k < X.Length ==> X[k] == old(X[k])
    ensures forall k :: L <= k <= K ==> sampler(X[k], d) <= sampler(X[K], d)
    ensures forall k :: K <= k <= R ==> sampler(X[K], d) <= sampler(X[k], d)
    decreases R - L
  {
    var l, r := L, R;
    ghost var lo, hi := 0, 0;
    while r > l
      invariant Selecting(X[..], L, R, K, l, r, lo, hi, sampler, d)
      invariant multiset(X[L..R + 1]) == old(multiset(X[L..R + 1]))
      invariant forall k :: 0 <= k < L || R < k < X.Length ==> X[k] == old(X[k])
      decreases r - l
    {
      if r - l > THRESHOLD {
        var LL, RR := SampleBounds(l, r, K, sampleSize, sampleDeviation).0, SampleBounds(l, r, K, sampleSize, sampleDeviation).1;
        ghost var before := X[..];
        Select(X, LL, RR, K, d, sampler, sampleSize, sampleDeviation);
        PermuteInside(before, X[..], l, LL, RR, r);
        PermuteInside(before, X[..], L, LL, RR, R);
        RearrangeKeeps(before, X[..], L, R, K, l, r, lo, hi, sampler, d);
      }
      l, r, lo, hi := Narrow(X, L, R, K, l, r, d, sampler, lo, hi);
    }
    SelectingDone(X[..], L, R, K, l, r, lo, hi, sampler, d);
  }
}
