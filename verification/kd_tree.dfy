/**
 * Bentley's k-d tree ("K-d trees for semidynamic point sets", 1990) as
 * `io.nanovc.indexing.kdtree.bentley1990.KDTree` implements it. Points are
 * referred to by their number in the point list; `perm` is a permutation
 * of those numbers that `build` rearranges in place with SELECT, so that
 * each node covers a segment `perm[l..u]`. A bucket node covers its segment
 * directly; a cut node splits it at `m = (l + u) / 2` along one dimension.
 * The nearest-neighbour search descends into the nearer son first and
 * visits the farther son only when the ball of the best distance so far
 * crosses the cut.
 */
module KdTrees {
  import opened Wrappers
  import opened JavaLang
  import opened LinearIndexes
  import KdSelect

  /**
   * `KDNode`: a bucket of the positions `lopt..hipt` of `perm`, or a cut at
   * `cutval` in dimension `cutdim` with the two sons.
   */
  datatype KDNode =
    | Bucket(level: int, lopt: int, hipt: int)
    | Cut(level: int, cutdim: int, cutval: int, loson: KDNode, hison: KDNode)

  /** The state of a search: the best distance so far and the point number that has it. */
  datatype Search = Search(nndist: int, nnptnum: int)

  /**
   * `x(i, j)`: coordinate `j` of point number `i`. The tree only ever holds
   * numbers of listed points; other numbers read 0 here.
   */
  function Coordinate<T>(points: seq<T>, extractor: (T, int) -> int, i: int, j: int): int
  {
    if 0 <= i < |points| then extractor(points[i], j) else 0
  }

  /** The numbers `0..n-1` in order: the permutation `index` starts from. */
  function Identity(n: nat): (s: seq<int>)
    ensures |s| == n && forall k :: 0 <= k < n ==> s[k] == k
  {
    seq(n, k => k)
  }

  /** `X` is a permutation of `0..|X|-1`. */
  ghost predicate Covers(X: seq<int>)
  {
    multiset(X) == multiset(Identity(|X|))
  }

  /** Every entry of `X` numbers a point of the list. */
  ghost predicate InRange<T>(X: seq<int>, points: seq<T>)
  {
    forall k :: 0 <= k < |X| ==> 0 <= X[k] < |points|
  }

  /** Every bucket's positions lie inside a permutation of length `n`. */
  ghost predicate BucketsWithin(t: KDNode, n: int)
  {
    match t
    case Bucket(_, lopt, hipt) => 0 <= lopt && hipt < n
    case Cut(_, _, _, loson, hison) => BucketsWithin(loson, n) && BucketsWithin(hison, n)
  }

  /** `findmaxspread`: the cut dimension cycles with the level, `level % numberOfDimensions` in Java. */
  function CutDimension(level: int, dims: int): (d: int)
    requires dims != 0
    ensures level >= 0 ==> 0 <= d < Abs(dims)
  {
    TruncRem(level, dims)
  }

  /**
   * The shape `build(level, l, u)` gives a node: a bucket exactly when the
   * segment holds at most `cutoff` positions, otherwise a cut in the level's
   * dimension whose sons, one level down, cover `[l, m]` and `[m + 1, u]`.
   */
  predicate Shaped(t: KDNode, cutoff: int, dims: int, level: int, l: int, u: int)
  {
    match t
    case Bucket(lv, lopt, hipt) => lv == level && lopt == l && hipt == u && u - l + 1 <= cutoff
    case Cut(lv, cutdim, _, loson, hison) =>
      dims != 0 && lv == level && u - l + 1 > cutoff && cutdim == CutDimension(level, dims) &&
      Shaped(loson, cutoff, dims, level + 1, l, (l + u) / 2) &&
      Shaped(hison, cutoff, dims, level + 1, (l + u) / 2 + 1, u)
  }

  /**
   * What the search relies on: a node covers `perm[l..u]`; at a cut, the
   * points of the low son's segment have a `cutdim` coordinate not greater
   * than `cutval`, which one of them has, and the points of the high son's
   * segment one not less.
   */
  ghost predicate SearchTree<T>(t: KDNode, X: seq<int>, points: seq<T>, extractor: (T, int) -> int, l: int, u: int)
  {
    0 <= l <= u + 1 <= |X| &&
    match t
    case Bucket(_, lopt, hipt) => lopt == l && hipt == u
    case Cut(_, cutdim, cutval, loson, hison) =>
      var m := (l + u) / 2;
      l <= m < u &&
      (forall k :: l <= k <= m ==> Coordinate(points, extractor, X[k], cutdim) <= cutval) &&
      (exists k :: l <= k <= m && Coordinate(points, extractor, X[k], cutdim) == cutval) &&
      (forall k :: m < k <= u ==> cutval <= Coordinate(points, extractor, X[k], cutdim)) &&
      SearchTree(loson, X, points, extractor, l, m) &&
      SearchTree(hison, X, points, extractor, m + 1, u)
  }

  /**
   * The condition under which the search is exact: no single coordinate of
   * an indexed point differs from the target's by more than their distance.
   * The Minkowski metrics have it.
   */
  ghost predicate Metric<T>(points: seq<T>, extractor: (T, int) -> int, measure: (T, T) -> int, target: T)
  {
    forall i, d :: 0 <= i < |points| ==>
      extractor(points[i], d) - extractor(target, d) <= measure(points[i], target) &&
      extractor(target, d) - extractor(points[i], d) <= measure(points[i], target)
  }

  /**
   * The bucket loop of `rnn`: positions `i..hipt` in order, a point taking
   * the place of the best only when strictly nearer.
   */
  function BucketScan<T>(X: seq<int>, points: seq<T>, measure: (T, T) -> int, target: T, i: int, hipt: int, s: Search)
    : (r: Search)
    requires 0 <= i && hipt < |X| && InRange(X, points)
    ensures r.nndist <= s.nndist
    decreases hipt + 1 - i
  {
    if i > hipt then s
    else
      var thisdist := measure(points[X[i]], target);
      BucketScan(X, points, measure, target, i + 1, hipt, if thisdist < s.nndist then Search(thisdist, X[i]) else s)
  }

  /**
   * `rnn`: at a bucket, scan it; at a cut, search the son on the target's
   * side first and the other son only when the target's coordinate plus
   * (or minus) the best distance crosses the cut.
   */
  function Rnn<T>(t: KDNode, X: seq<int>, points: seq<T>, extractor: (T, int) -> int, measure: (T, T) -> int,
                  target: T, s: Search): (r: Search)
    requires InRange(X, points) && BucketsWithin(t, |X|)
    ensures r.nndist <= s.nndist
  {
    match t
    case Bucket(_, lopt, hipt) => BucketScan(X, points, measure, target, lopt, hipt, s)
    case Cut(_, cutdim, cutval, loson, hison) =>
      var thisx := extractor(target, cutdim);
      if thisx < cutval then
        var s1 := Rnn(loson, X, points, extractor, measure, target, s);
        if thisx + s1.nndist > cutval then Rnn(hison, X, points, extractor, measure, target, s1) else s1
      else
        var s1 := Rnn(hison, X, points, extractor, measure, target, s);
        if thisx - s1.nndist < cutval then Rnn(loson, X, points, extractor, measure, target, s1) else s1
  }

  /**
   * A search from `s` to `s'` over the positions `l..u`: the best distance
   * only falls, ends no greater than the distance of any point there, and
   * when it fell the best point is one of them at that distance.
   */
  ghost predicate Improves<T>(s: Search, s': Search, X: seq<int>, points: seq<T>, measure: (T, T) -> int, target: T,
                              l: int, u: int)
    requires 0 <= l && u < |X| && InRange(X, points)
  {
    s'.nndist <= s.nndist &&
    (forall k :: l <= k <= u ==> s'.nndist <= measure(points[X[k]], target)) &&
    (s' == s ||
     (s'.nndist < s.nndist &&
      exists k :: l <= k <= u && s'.nnptnum == X[k] && s'.nndist == measure(points[X[k]], target)))
  }

  /** A bucket scan finds the nearest of its positions. */
  lemma {:induction false} BucketScanImproves<T>(X: seq<int>, points: seq<T>, measure: (T, T) -> int, target: T,
                                                 i: int, hipt: int, s: Search)
    requires 0 <= i && hipt < |X| && InRange(X, points)
    ensures Improves(s, BucketScan(X, points, measure, target, i, hipt, s), X, points, measure, target, i, hipt)
    decreases hipt + 1 - i
  {
    if i <= hipt {
      var thisdist := measure(points[X[i]], target);
      var s1 := if thisdist < s.nndist then Search(thisdist, X[i]) else s;
      BucketScanImproves(X, points, measure, target, i + 1, hipt, s1);
    }
  }

  /**
   * Within one bucket the earliest nearest position wins: when the scan
   * replaced the best point, every position before the winner is strictly
   * farther.
   */
  lemma {:induction false} BucketScanEarliest<T>(X: seq<int>, points: seq<T>, measure: (T, T) -> int, target: T,
                                                 i: int, hipt: int, s: Search)
    requires 0 <= i && hipt < |X| && InRange(X, points)
    ensures BucketScan(X, points, measure, target, i, hipt, s) != s ==>
      exists k :: i <= k <= hipt && BucketScan(X, points, measure, target, i, hipt, s).nnptnum == X[k] &&
        forall j :: i <= j < k ==> measure(points[X[j]], target) > BucketScan(X, points, measure, target, i, hipt, s).nndist
    decreases hipt + 1 - i
  {
    if i <= hipt {
      var r := BucketScan(X, points, measure, target, i, hipt, s);
      var thisdist := measure(points[X[i]], target);
      var s1 := if thisdist < s.nndist then Search(thisdist, X[i]) else s;
      assert r == BucketScan(X, points, measure, target, i + 1, hipt, s1);
      BucketScanEarliest(X, points, measure, target, i + 1, hipt, s1);
      BucketScanImproves(X, points, measure, target, i + 1, hipt, s1);
      if r != s {
        if r == s1 {
          assert r.nnptnum == X[i];
        } else {
          var k :| i + 1 <= k <= hipt && r.nnptnum == X[k] &&
            forall j :: i + 1 <= j < k ==> measure(points[X[j]], target) > r.nndist;
          assert r.nndist < s1.nndist <= thisdist || thisdist >= s.nndist;
        }
      }
    }
  }

  /**
   * Two searches in a row over the two halves `[l, m]` and `[m + 1, u]`
   * (the low half first or the high half first) make one search over
   * `[l, u]`.
   */
  lemma ImprovesCompose<T>(s: Search, s1: Search, s2: Search, X: seq<int>, points: seq<T>, measure: (T, T) -> int,
                           target: T, l: int, m: int, u: int, lowFirst: bool)
    requires 0 <= l <= m < u < |X| && InRange(X, points)
    requires Improves(s, s1, X, points, measure, target, if lowFirst then l else m + 1, if lowFirst then m else u)
    requires Improves(s1, s2, X, points, measure, target, if lowFirst then m + 1 else l, if lowFirst then u else m)
    ensures Improves(s, s2, X, points, measure, target, l, u)
  {
    forall k | l <= k <= u ensures s2.nndist <= measure(points[X[k]], target) {
      if (k <= m) == lowFirst {
        assert s1.nndist <= measure(points[X[k]], target);
      }
    }
  }

  /**
   * The pruning test of `rnn` is sound: when the target's coordinate plus
   * the best distance does not pass the cut, no point of the high son is
   * nearer than the best, and symmetrically for the low son.
   */
  lemma PruneHigh<T>(X: seq<int>, points: seq<T>, extractor: (T, int) -> int, measure: (T, T) -> int, target: T,
                     cutdim: int, cutval: int, l: int, u: int, s: Search)
    requires 0 <= l && u < |X| && InRange(X, points) && Metric(points, extractor, measure, target)
    requires forall k :: l <= k <= u ==> cutval <= Coordinate(points, extractor, X[k], cutdim)
    requires extractor(target, cutdim) + s.nndist <= cutval
    ensures Improves(s, s, X, points, measure, target, l, u)
  {
    forall k | l <= k <= u ensures s.nndist <= measure(points[X[k]], target) {
      assert extractor(points[X[k]], cutdim) - extractor(target, cutdim) <= measure(points[X[k]], target);
    }
  }

  /** The mirror image of `PruneHigh` for the low son. */
  lemma PruneLow<T>(X: seq<int>, points: seq<T>, extractor: (T, int) -> int, measure: (T, T) -> int, target: T,
                    cutdim: int, cutval: int, l: int, u: int, s: Search)
    requires 0 <= l && u < |X| && InRange(X, points) && Metric(points, extractor, measure, target)
    requires forall k :: l <= k <= u ==> Coordinate(points, extractor, X[k], cutdim) <= cutval
    requires extractor(target, cutdim) - s.nndist >= cutval
    ensures Improves(s, s, X, points, measure, target, l, u)
  {
    forall k | l <= k <= u ensures s.nndist <= measure(points[X[k]], target) {
      assert extractor(target, cutdim) - extractor(points[X[k]], cutdim) <= measure(points[X[k]], target);
    }
  }

  /** A search tree covers no bucket outside its segment. */
  lemma {:induction false} SearchTreeBucketsWithin<T>(t: KDNode, X: seq<int>, points: seq<T>, extractor: (T, int) -> int,
                                                      l: int, u: int)
    requires SearchTree(t, X, points, extractor, l, u)
    ensures BucketsWithin(t, |X|)
  {
    match t
    case Bucket(_, _, _) =>
    case Cut(_, _, _, loson, hison) =>
      SearchTreeBucketsWithin(loson, X, points, extractor, l, (l + u) / 2);
      SearchTreeBucketsWithin(hison, X, points, extractor, (l + u) / 2 + 1, u);
  }

  /**
   * One cut of `rnn` when the target lies below the cut: from what the two
   * sons' searches find, the cut's search finds the nearest of its segment.
   */
  lemma CutBelowImproves<T>(t: KDNode, X: seq<int>, points: seq<T>, extractor: (T, int) -> int,
                            measure: (T, T) -> int, target: T, l: int, u: int, s: Search)
    requires t.Cut? && SearchTree(t, X, points, extractor, l, u) && InRange(X, points) && BucketsWithin(t, |X|)
    requires Metric(points, extractor, measure, target)
    requires extractor(target, t.cutdim) < t.cutval
    requires Improves(s, Rnn(t.loson, X, points, extractor, measure, target, s), X, points, measure, target, l, (l + u) / 2)
    requires extractor(target, t.cutdim) + Rnn(t.loson, X, points, extractor, measure, target, s).nndist > t.cutval ==>
      Improves(Rnn(t.loson, X, points, extractor, measure, target, s),
               Rnn(t.hison, X, points, extractor, measure, target, Rnn(t.loson, X, points, extractor, measure, target, s)),
               X, points, measure, target, (l + u) / 2 + 1, u)
    ensures Improves(s, Rnn(t, X, points, extractor, measure, target, s), X, points, measure, target, l, u)
  {
    var m := (l + u) / 2;
    var s1 := Rnn(t.loson, X, points, extractor, measure, target, s);
    if extractor(target, t.cutdim) + s1.nndist > t.cutval {
      var s2 := Rnn(t.hison, X, points, extractor, measure, target, s1);
      ImprovesCompose(s, s1, s2, X, points, measure, target, l, m, u, true);
    } else {
      PruneHigh(X, points, extractor, measure, target, t.cutdim, t.cutval, m + 1, u, s1);
      ImprovesCompose(s, s1, s1, X, points, measure, target, l, m, u, true);
    }
  }

  /** The mirror image of `CutBelowImproves`, for a target on or above the cut. */
  lemma CutAboveImproves<T>(t: KDNode, X: seq<int>, points: seq<T>, extractor: (T, int) -> int,
                            measure: (T, T) -> int, target: T, l: int, u: int, s: Search)
    requires t.Cut? && SearchTree(t, X, points, extractor, l, u) && InRange(X, points) && BucketsWithin(t, |X|)
    requires Metric(points, extractor, measure, target)
    requires extractor(target, t.cutdim) >= t.cutval
    requires Improves(s, Rnn(t.hison, X, points, extractor, measure, target, s), X, points, measure, target, (l + u) / 2 + 1, u)
    requires extractor(target, t.cutdim) - Rnn(t.hison, X, points, extractor, measure, target, s).nndist < t.cutval ==>
      Improves(Rnn(t.hison, X, points, extractor, measure, target, s),
               Rnn(t.loson, X, points, extractor, measure, target, Rnn(t.hison, X, points, extractor, measure, target, s)),
               X, points, measure, target, l, (l + u) / 2)
    ensures Improves(s, Rnn(t, X, points, extractor, measure, target, s), X, points, measure, target, l, u)
  {
    var m := (l + u) / 2;
    var s1 := Rnn(t.hison, X, points, extractor, measure, target, s);
    if extractor(target, t.cutdim) - s1.nndist < t.cutval {
      var s2 := Rnn(t.loson, X, points, extractor, measure, target, s1);
      ImprovesCompose(s, s1, s2, X, points, measure, target, l, m, u, false);
    } else {
      PruneLow(X, points, extractor, measure, target, t.cutdim, t.cutval, l, m, s1);
      ImprovesCompose(s, s1, s1, X, points, measure, target, l, m, u, false);
    }
  }

  /**
   * Under the metric condition, `rnn` on a search tree over `[l, u]` finds
   * the nearest point of the segment: pruning never skips a nearer point.
   */
  lemma {:induction false} RnnFindsNearest<T>(t: KDNode, X: seq<int>, points: seq<T>, extractor: (T, int) -> int,
                                              measure: (T, T) -> int, target: T, l: int, u: int, s: Search)
    requires SearchTree(t, X, points, extractor, l, u) && InRange(X, points) && BucketsWithin(t, |X|)
    requires Metric(points, extractor, measure, target)
    ensures Improves(s, Rnn(t, X, points, extractor, measure, target, s), X, points, measure, target, l, u)
    decreases t, 1
  {
    match t
    case Bucket(_, lopt, hipt) =>
      BucketScanImproves(X, points, measure, target, lopt, hipt, s);
    case Cut(_, cutdim, cutval, _, _) =>
      if extractor(target, cutdim) < cutval {
        RnnBelowFindsNearest(t, X, points, extractor, measure, target, l, u, s);
      } else {
        RnnAboveFindsNearest(t, X, points, extractor, measure, target, l, u, s);
      }
  }

  /** `RnnFindsNearest` at a cut the target lies below: the low son is searched first. */
  lemma {:induction false} RnnBelowFindsNearest<T>(t: KDNode, X: seq<int>, points: seq<T>, extractor: (T, int) -> int,
                                                   measure: (T, T) -> int, target: T, l: int, u: int, s: Search)
    requires t.Cut? && SearchTree(t, X, points, extractor, l, u) && InRange(X, points) && BucketsWithin(t, |X|)
    requires Metric(points, extractor, measure, target)
    requires extractor(target, t.cutdim) < t.cutval
    ensures Improves(s, Rnn(t, X, points, extractor, measure, target, s), X, points, measure, target, l, u)
    decreases t, 0
  {
    var m := (l + u) / 2;
    RnnFindsNearest(t.loson, X, points, extractor, measure, target, l, m, s);
    var s1 := Rnn(t.loson, X, points, extractor, measure, target, s);
    RnnFindsNearest(t.hison, X, points, extractor, measure, target, m + 1, u, s1);
    CutBelowImproves(t, X, points, extractor, measure, target, l, u, s);
  }

  /** `RnnFindsNearest` at a cut the target does not lie below: the high son is searched first. */
  lemma {:induction false} RnnAboveFindsNearest<T>(t: KDNode, X: seq<int>, points: seq<T>, extractor: (T, int) -> int,
                                                   measure: (T, T) -> int, target: T, l: int, u: int, s: Search)
    requires t.Cut? && SearchTree(t, X, points, extractor, l, u) && InRange(X, points) && BucketsWithin(t, |X|)
    requires Metric(points, extractor, measure, target)
    requires extractor(target, t.cutdim) >= t.cutval
    ensures Improves(s, Rnn(t, X, points, extractor, measure, target, s), X, points, measure, target, l, u)
    decreases t, 0
  {
    var m := (l + u) / 2;
    RnnFindsNearest(t.hison, X, points, extractor, measure, target, m + 1, u, s);
    var s1 := Rnn(t.hison, X, points, extractor, measure, target, s);
    RnnFindsNearest(t.loson, X, points, extractor, measure, target, l, m, s1);
    CutAboveImproves(t, X, points, extractor, measure, target, l, u, s);
  }

  /** A permutation of `0..n-1` holds only those numbers. */
  lemma CoversRange(X: seq<int>)
    requires Covers(X)
    ensures forall k :: 0 <= k < |X| ==> 0 <= X[k] < |X|
  {
    forall k | 0 <= k < |X| ensures 0 <= X[k] < |X| {
      assert X[k] in multiset(Identity(|X|));
    }
  }

  /** A permutation of `0..n-1` holds each of those numbers somewhere. */
  lemma PositionOf(X: seq<int>, q: int) returns (k: int)
    requires Covers(X) && 0 <= q < |X|
    ensures 0 <= k < |X| && X[k] == q
  {
    assert Identity(|X|)[q] == q;
    assert q in multiset(X);
    k :| 0 <= k < |X| && X[k] == q;
  }

  /**
   * Under the metric condition, the search over a whole permutation of
   * `0..n-1` from a distance some indexed point beats ends on an indexed
   * point no farther than any other.
   */
  lemma RnnFindsIndexedNearest<T>(t: KDNode, X: seq<int>, points: seq<T>, extractor: (T, int) -> int,
                                  measure: (T, T) -> int, target: T, s0: Search)
    requires |X| <= |points| && Covers(X) && InRange(X, points) && BucketsWithin(t, |X|)
    requires SearchTree(t, X, points, extractor, 0, |X| - 1)
    requires Metric(points, extractor, measure, target)
    requires exists q :: 0 <= q < |X| && measure(points[q], target) < s0.nndist
    ensures 0 <= Rnn(t, X, points, extractor, measure, target, s0).nnptnum < |X|
    ensures forall q :: 0 <= q < |X| ==>
      measure(points[Rnn(t, X, points, extractor, measure, target, s0).nnptnum], target) <= measure(points[q], target)
  {
    RnnFindsNearest(t, X, points, extractor, measure, target, 0, |X| - 1, s0);
    ImprovedOverAll(s0, Rnn(t, X, points, extractor, measure, target, s0), X, points, measure, target);
  }

  /**
   * A search over a whole permutation of `0..n-1` from a distance some
   * indexed point beats ends on an indexed point no farther than any other.
   */
  lemma ImprovedOverAll<T>(s0: Search, s: Search, X: seq<int>, points: seq<T>, measure: (T, T) -> int, target: T)
    requires Covers(X) && InRange(X, points) && 0 < |X| <= |points|
    requires Improves(s0, s, X, points, measure, target, 0, |X| - 1)
    requires exists q :: 0 <= q < |X| && measure(points[q], target) < s0.nndist
    ensures 0 <= s.nnptnum < |X|
    ensures forall q :: 0 <= q < |X| ==> measure(points[s.nnptnum], target) <= measure(points[q], target)
  {
    CoversRange(X);
    var q :| 0 <= q < |X| && measure(points[q], target) < s0.nndist;
    var kq := PositionOf(X, q);
    assert s.nndist <= measure(points[X[kq]], target);
    assert s != s0;
    var k :| 0 <= k <= |X| - 1 && s.nnptnum == X[k] && s.nndist == measure(points[X[k]], target);
    forall q' | 0 <= q' < |X| ensures s.nndist <= measure(points[q'], target) {
      var k' := PositionOf(X, q');
      assert s.nndist <= measure(points[X[k']], target);
    }
  }

  /**
   * An indexed point no farther than any other is exactly as near as the
   * one the linear reference index returns over the same points.
   */
  lemma LeastIsLinearNearest<T>(points: seq<T>, n: int, p: int, measure: (T, T) -> int, target: T)
    requires 0 <= p < n <= |points|
    requires forall q :: 0 <= q < n ==> measure(points[p], target) <= measure(points[q], target)
    ensures LinearNearest(points[..n], target, measure).Some?
    ensures measure(points[p], target) == measure(LinearNearest(points[..n], target, measure).value, target)
  {
    var lin := LinearNearest(points[..n], target, measure);
    assert points[..n][p] == points[p];
    var j :| 0 <= j < n && points[..n][j] == lin.value;
    assert measure(points[p], target) <= measure(points[j], target);
  }

  /**
   * Under the metric condition, when some indexed point is nearer than
   * `maxDistance`, the search from `maxDistance` ends on an indexed point
   * exactly as near as the one the linear reference index returns.
   */
  lemma NearestAgreesWithLinear<T>(t: KDNode, X: seq<int>, points: seq<T>, extractor: (T, int) -> int,
                                   measure: (T, T) -> int, target: T, maxDistance: int, stale: int)
    requires IndexedOver(Some(t), X, points, extractor)
    requires Metric(points, extractor, measure, target)
    requires exists q :: 0 <= q < |X| && measure(points[q], target) < maxDistance
    ensures 0 <= Rnn(t, X, points, extractor, measure, target, Search(maxDistance, stale)).nnptnum < |X|
    ensures measure(points[Rnn(t, X, points, extractor, measure, target, Search(maxDistance, stale)).nnptnum], target)
      == measure(LinearNearest(points[..|X|], target, measure).value, target)
  {
    var s := Rnn(t, X, points, extractor, measure, target, Search(maxDistance, stale));
    RnnFindsIndexedNearest(t, X, points, extractor, measure, target, Search(maxDistance, stale));
    LeastIsLinearNearest(points, |X|, s.nnptnum, measure, target);
  }

  /** A search tree stays one when its segment's positions hold the same numbers. */
  lemma {:induction false} SearchTreeFrame<T>(t: KDNode, X: seq<int>, Y: seq<int>, points: seq<T>,
                                              extractor: (T, int) -> int, l: int, u: int)
    requires SearchTree(t, X, points, extractor, l, u)
    requires |X| == |Y| && forall k :: l <= k <= u ==> X[k] == Y[k]
    ensures SearchTree(t, Y, points, extractor, l, u)
  {
    match t
    case Bucket(_, _, _) =>
    case Cut(_, cutdim, cutval, loson, hison) =>
      var m := (l + u) / 2;
      var w :| l <= w <= m && Coordinate(points, extractor, X[w], cutdim) == cutval;
      assert Coordinate(points, extractor, Y[w], cutdim) == cutval;
      SearchTreeFrame(loson, X, Y, points, extractor, l, m);
      SearchTreeFrame(hison, X, Y, points, extractor, m + 1, u);
  }

  /** Appending a point leaves a search tree over the earlier points one. */
  lemma {:induction false} SearchTreeAppend<T>(t: KDNode, X: seq<int>, points: seq<T>, extractor: (T, int) -> int,
                                               item: T, l: int, u: int)
    requires SearchTree(t, X, points, extractor, l, u) && InRange(X, points)
    ensures SearchTree(t, X, points + [item], extractor, l, u)
  {
    match t
    case Bucket(_, _, _) =>
    case Cut(_, cutdim, cutval, loson, hison) =>
      var m := (l + u) / 2;
      forall k | l <= k <= u
        ensures Coordinate(points + [item], extractor, X[k], cutdim) == Coordinate(points, extractor, X[k], cutdim)
      {
        assert (points + [item])[X[k]] == points[X[k]];
      }
      var w :| l <= w <= m && Coordinate(points, extractor, X[w], cutdim) == cutval;
      assert Coordinate(points + [item], extractor, X[w], cutdim) == cutval;
      SearchTreeAppend(loson, X, points, extractor, item, l, m);
      SearchTreeAppend(hison, X, points, extractor, item, m + 1, u);
  }

  /**
   * What `select(l, u, m, d)` leaves: position `m` holds an entry whose
   * coordinate `d` is at least that of every entry in `l..m` and at most
   * that of every entry in `m..u`.
   */
  ghost predicate SplitAt<T>(X: seq<int>, points: seq<T>, extractor: (T, int) -> int, l: int, m: int, u: int, d: int)
    requires 0 <= l <= m <= u < |X|
  {
    (forall k :: l <= k <= m ==> Coordinate(points, extractor, X[k], d) <= Coordinate(points, extractor, X[m], d)) &&
    (forall k :: m <= k <= u ==> Coordinate(points, extractor, X[m], d) <= Coordinate(points, extractor, X[k], d))
  }

  /**
   * What `build` needs before it makes a cut at the middle of `l..u`: the
   * value `v` is attained in the lower half and bounds it from above, and
   * bounds the upper half from below.
   */
  ghost predicate CutReady<T>(X: seq<int>, points: seq<T>, extractor: (T, int) -> int, l: int, u: int, d: int, v: int)
    requires 0 <= l <= u < |X|
  {
    (forall k :: l <= k <= (l + u) / 2 ==> Coordinate(points, extractor, X[k], d) <= v) &&
    (exists k :: l <= k <= (l + u) / 2 && Coordinate(points, extractor, X[k], d) == v) &&
    (forall k :: (l + u) / 2 < k <= u ==> v <= Coordinate(points, extractor, X[k], d))
  }

  /** A segment split at its middle is ready for a cut at the middle entry's coordinate. */
  lemma SplitReady<T>(X: seq<int>, points: seq<T>, extractor: (T, int) -> int, l: int, u: int, d: int)
    requires 0 <= l <= u < |X|
    requires SplitAt(X, points, extractor, l, (l + u) / 2, u, d)
    ensures CutReady(X, points, extractor, l, u, d, Coordinate(points, extractor, X[(l + u) / 2], d))
  {
    var m := (l + u) / 2;
    var v := Coordinate(points, extractor, X[m], d);
    assert Coordinate(points, extractor, X[m], d) == v;
    forall k | m < k <= u
      ensures v <= Coordinate(points, extractor, X[k], d)
    {
      assert m <= k <= u;
    }
  }

  /** Rearranging either half leaves a segment ready for its cut. */
  lemma CutReadyKept<T>(a: seq<int>, b: seq<int>, points: seq<T>, extractor: (T, int) -> int, l: int, u: int, d: int, v: int)
    requires 0 <= l <= (l + u) / 2 < u < |a| == |b|
    requires CutReady(a, points, extractor, l, u, d, v)
    requires multiset(a[l..(l + u) / 2 + 1]) == multiset(b[l..(l + u) / 2 + 1])
    requires multiset(a[(l + u) / 2 + 1..u + 1]) == multiset(b[(l + u) / 2 + 1..u + 1])
    ensures CutReady(b, points, extractor, l, u, d, v)
  {
    var m := (l + u) / 2;
    var f := (i: int, j: int) => Coordinate(points, extractor, i, j);
    assert KdSelect.AtMostOn(a, l, m, f, d, v);
    assert KdSelect.AtLeastOn(a, m + 1, u, f, d, v);
    var k :| l <= k <= m && Coordinate(points, extractor, a[k], d) == v;
    assert f(a[k], d) == v;
    KdSelect.CarryAtMost(a, b, l, m, f, d, v);
    KdSelect.CarryAttained(a, b, l, m, f, d, v);
    KdSelect.CarryAtLeast(a, b, m + 1, u, f, d, v);
    var j :| l <= j <= m && f(b[j], d) == v;
    assert Coordinate(points, extractor, b[j], d) == v;
    forall k | l <= k <= m
      ensures Coordinate(points, extractor, b[k], d) <= v
    {
      assert f(b[k], d) <= v;
    }
    forall k | m < k <= u
      ensures v <= Coordinate(points, extractor, b[k], d)
    {
      assert v <= f(b[k], d);
    }
  }

  /** What `build` makes of `perm[l..u]`: a node of the prescribed shape that is a search tree over it. */
  ghost predicate Built<T>(t: KDNode, X: seq<int>, points: seq<T>, extractor: (T, int) -> int,
                           cutoff: int, dims: int, level: int, l: int, u: int)
  {
    Shaped(t, cutoff, dims, level, l, u) && SearchTree(t, X, points, extractor, l, u)
  }

  /**
   * The node `build` makes for a segment past the cutoff: a cut in the
   * level's dimension over two shaped search trees, at a value the segment
   * is ready for, is shaped and a search tree.
   */
  lemma CutBuilt<T>(level: int, cutoff: int, dims: int, cutdim: int, cutval: int, loson: KDNode, hison: KDNode,
                    X: seq<int>, points: seq<T>, extractor: (T, int) -> int, l: int, u: int)
    requires dims != 0 && cutdim == CutDimension(level, dims)
    requires 0 <= l <= (l + u) / 2 < u < |X| && u - l + 1 > cutoff
    requires Built(loson, X, points, extractor, cutoff, dims, level + 1, l, (l + u) / 2)
    requires Built(hison, X, points, extractor, cutoff, dims, level + 1, (l + u) / 2 + 1, u)
    requires CutReady(X, points, extractor, l, u, cutdim, cutval)
    ensures Built(Cut(level, cutdim, cutval, loson, hison), X, points, extractor, cutoff, dims, level, l, u)
  {
  }

  /**
   * `after` is `before` with the entries at positions `l..u` rearranged
   * among themselves and every other position left as it was.
   */
  ghost predicate Rearranged(before: seq<int>, after: seq<int>, l: int, u: int)
  {
    |before| == |after| && 0 <= l <= u + 1 <= |before| &&
    multiset(before[l..u + 1]) == multiset(after[l..u + 1]) &&
    forall k :: 0 <= k < l || u < k < |before| ==> after[k] == before[k]
  }

  /**
   * The node `build` makes for a segment past the cutoff, from the
   * rearrangements it makes of that segment: SELECT on the whole segment
   * (`s0` to `s1`), then the build of the lower half (`s1` to `s2`) and of
   * the upper half (`s2` to `s3`). The cut at the middle entry's coordinate
   * over the two sons is built over `s3`.
   */
  lemma CutMade<T>(s0: seq<int>, s1: seq<int>, s2: seq<int>, s3: seq<int>, points: seq<T>, extractor: (T, int) -> int,
                   loson: KDNode, hison: KDNode, cutoff: int, dims: int, level: int, l: int, u: int)
    requires dims != 0 && 0 <= l <= (l + u) / 2 < u && u - l + 1 > cutoff
    requires Rearranged(s0, s1, l, u)
    requires SplitAt(s1, points, extractor, l, (l + u) / 2, u, CutDimension(level, dims))
    requires Rearranged(s1, s2, l, (l + u) / 2)
    requires Built(loson, s2, points, extractor, cutoff, dims, level + 1, l, (l + u) / 2)
    requires Rearranged(s2, s3, (l + u) / 2 + 1, u)
    requires Built(hison, s3, points, extractor, cutoff, dims, level + 1, (l + u) / 2 + 1, u)
    ensures Built(Cut(level, CutDimension(level, dims), Coordinate(points, extractor, s1[(l + u) / 2], CutDimension(level, dims)),
                      loson, hison), s3, points, extractor, cutoff, dims, level, l, u)
  {
    var m := (l + u) / 2;
    var d := CutDimension(level, dims);
    var v := Coordinate(points, extractor, s1[m], d);
    SplitReady(s1, points, extractor, l, u, d);
    assert s1[m + 1..u + 1] == s2[m + 1..u + 1];
    CutReadyKept(s1, s2, points, extractor, l, u, d, v);
    assert s2[l..m + 1] == s3[l..m + 1];
    CutReadyKept(s2, s3, points, extractor, l, u, d, v);
    SearchTreeFrame(loson, s2, s3, points, extractor, l, m);
    CutBuilt(level, cutoff, dims, d, v, loson, hison, s3, points, extractor, l, u);
  }

  /**
   * SELECT on a segment followed by rearrangements of its two halves is a
   * rearrangement of the segment.
   */
  lemma HalvesRearranged(s0: seq<int>, s1: seq<int>, s2: seq<int>, s3: seq<int>, l: int, u: int)
    requires 0 <= l <= (l + u) / 2 < u
    requires Rearranged(s0, s1, l, u)
    requires Rearranged(s1, s2, l, (l + u) / 2)
    requires Rearranged(s2, s3, (l + u) / 2 + 1, u)
    ensures Rearranged(s0, s3, l, u)
  {
    var m := (l + u) / 2;
    KdSelect.PermuteInside(s1, s2, l, l, m, u);
    KdSelect.PermuteInside(s2, s3, l, m + 1, u, u);
  }

  /**
   * `select(l, u, m, d)`: SELECT on `perm[l..u]` around `m`, comparing
   * coordinate `d` of the numbered points; only that segment is rearranged.
   */
  method Select<T>(perm: array<int>, points: seq<T>, extractor: (T, int) -> int,
                   sampleSize: int -> int, sampleDeviation: (int, int) -> int, l: int, u: int, m: int, d: int)
    requires 0 <= l <= m <= u < perm.Length
    requires KdSelect.SamplesShrink(sampleSize, sampleDeviation)
    modifies perm
    ensures Rearranged(old(perm[..]), perm[..], l, u)
    ensures SplitAt(perm[..], points, extractor, l, m, u, d)
  {
    var sampler := (i: int, j: int) => Coordinate(points, extractor, i, j);
    KdSelect.Select(perm, l, u, m, d, sampler, sampleSize, sampleDeviation);
    assert forall k :: l <= k <= m ==> sampler(perm[k], d) <= sampler(perm[m], d);
    assert forall k :: m <= k <= u ==> sampler(perm[m], d) <= sampler(perm[k], d);
  }

  /**
   * `build(level, l, u)`: the node over `perm[l..u]` has the shape the
   * cutoff and the level prescribe and is a search tree over the
   * rearranged segment; nothing outside the segment moves.
   */
  method Build<T>(perm: array<int>, points: seq<T>, extractor: (T, int) -> int, cutoff: int, dims: int,
                  sampleSize: int -> int, sampleDeviation: (int, int) -> int, level: int, l: int, u: int)
      returns (p: KDNode)
    requires 0 <= l <= u + 1 <= perm.Length
    requires u - l + 1 <= cutoff || (cutoff >= 1 && dims != 0)
    requires KdSelect.SamplesShrink(sampleSize, sampleDeviation)
    modifies perm
    ensures Built(p, perm[..], points, extractor, cutoff, dims, level, l, u)
    ensures Rearranged(old(perm[..]), perm[..], l, u)
    decreases u - l
  {
    ghost var before := perm[..];
    if u - l + 1 <= cutoff {
      p := Bucket(level, l, u);
    } else {
      var cutdim := CutDimension(level, dims);
      var m := (l + u) / 2;
      Select(perm, points, extractor, sampleSize, sampleDeviation, l, u, m, cutdim);
      var cutval := Coordinate(points, extractor, perm[m], cutdim);
      ghost var afterSelect := perm[..];
      assert cutval == Coordinate(points, extractor, afterSelect[m], cutdim);
      var loson := Build(perm, points, extractor, cutoff, dims, sampleSize, sampleDeviation, level + 1, l, m);
      ghost var afterLo := perm[..];
      var hison := Build(perm, points, extractor, cutoff, dims, sampleSize, sampleDeviation, level + 1, m + 1, u);
      ghost var afterHi := perm[..];
      CutMade(before, afterSelect, afterLo, afterHi, points, extractor, loson, hison, cutoff, dims, level, l, u);
      HalvesRearranged(before, afterSelect, afterLo, afterHi, l, u);
      p := Cut(level, cutdim, cutval, loson, hison);
      assert Built(p, afterHi, points, extractor, cutoff, dims, level, l, u);
    }
  }

  /**
   * A tree, when there is one, over a permutation `X` of the numbers of the
   * first `|X|` points: every bucket lies inside `X` and the tree is a
   * search tree over all of it.
   */
  ghost predicate IndexedOver<T>(root: Option<KDNode>, X: seq<int>, points: seq<T>, extractor: (T, int) -> int)
  {
    root.Some? ==>
      |X| <= |points| && Covers(X) && InRange(X, points) && BucketsWithin(root.value, |X|) &&
      SearchTree(root.value, X, points, extractor, 0, |X| - 1)
  }

  /** Appending a point keeps a tree over the earlier points. */
  lemma IndexedAppend<T>(root: Option<KDNode>, X: seq<int>, points: seq<T>, extractor: (T, int) -> int, item: T)
    requires IndexedOver(root, X, points, extractor)
    ensures IndexedOver(root, X, points + [item], extractor)
  {
    if root.Some? {
      SearchTreeAppend(root.value, X, points, extractor, item, 0, |X| - 1);
    }
  }

  /**
   * What `index(points)` leaves: `build` over the whole identity
   * permutation gives a permutation and a tree over all the points.
   */
  lemma IndexedBuilt<T>(t: KDNode, X: seq<int>, points: seq<T>, extractor: (T, int) -> int,
                        cutoff: int, dims: int)
    requires Rearranged(Identity(|points|), X, 0, |points| - 1)
    requires Built(t, X, points, extractor, cutoff, dims, 0, 0, |points| - 1)
    ensures Covers(X)
    ensures IndexedOver(Some(t), X, points, extractor)
  {
    assert X[0..|X|] == X;
    assert Identity(|points|)[0..|points|] == Identity(|points|);
    CoversRange(X);
    SearchTreeBucketsWithin(t, X, points, extractor, 0, |X| - 1);
  }

  /** Coordinate `d` of each point numbered in `X`, in the order of `X`. */
  function Coordinates<T>(X: seq<int>, points: seq<T>, extractor: (T, int) -> int, d: int): (s: seq<int>)
    ensures |s| == |X| && forall i :: 0 <= i < |X| ==> s[i] == Coordinate(points, extractor, X[i], d)
  {
    seq(|X|, i requires 0 <= i < |X| => Coordinate(points, extractor, X[i], d))
  }

  /** Coordinates of a concatenation are the concatenated coordinates. */
  lemma CoordinatesAppend<T>(a: seq<int>, b: seq<int>, points: seq<T>, extractor: (T, int) -> int, d: int)
    ensures Coordinates(a + b, points, extractor, d) == Coordinates(a, points, extractor, d) + Coordinates(b, points, extractor, d)
  {
  }

  /** Rearranging the point numbers rearranges their coordinates. */
  lemma {:induction false} CoordinatesPermuted<T>(X: seq<int>, Y: seq<int>, points: seq<T>, extractor: (T, int) -> int, d: int)
    requires multiset(X) == multiset(Y)
    ensures multiset(Coordinates(X, points, extractor, d)) == multiset(Coordinates(Y, points, extractor, d))
    decreases |X|
  {
    if X != [] {
      var x := X[0];
      assert x in multiset(Y);
      var j :| 0 <= j < |Y| && Y[j] == x;
      var rest := Y[..j] + Y[j + 1..];
      assert Y == Y[..j] + [x] + Y[j + 1..];
      assert X == [x] + X[1..];
      assert multiset(X) == multiset{x} + multiset(X[1..]);
      assert multiset(Y) == multiset(Y[..j]) + multiset{x} + multiset(Y[j + 1..]);
      assert multiset(rest) == multiset(Y[..j]) + multiset(Y[j + 1..]);
      forall z ensures multiset(X[1..])[z] == multiset(rest)[z] {
        assert multiset(X)[z] == multiset(Y)[z];
      }
      assert multiset(X[1..]) == multiset(rest);
      CoordinatesPermuted(X[1..], rest, points, extractor, d);
      CoordinatesAppend([x], X[1..], points, extractor, d);
      CoordinatesAppend(Y[..j], [x], points, extractor, d);
      CoordinatesAppend(Y[..j] + [x], Y[j + 1..], points, extractor, d);
      CoordinatesAppend(Y[..j], Y[j + 1..], points, extractor, d);
    } else {
      assert |multiset(Y)| == 0;
    }
  }

  /** No value of `ms` is above `v`. */
  predicate AtMost(ms: multiset<int>, v: int)
  {
    forall x :: x in ms ==> x <= v
  }

  /** No value of `ms` is below `v`. */
  predicate AtLeast(ms: multiset<int>, v: int)
  {
    forall x :: x in ms ==> v <= x
  }

  /** Every coordinate of a segment bounded by `v` from above puts `v` above its multiset. */
  lemma MultisetAtMost(s: seq<int>, v: int)
    requires forall i :: 0 <= i < |s| ==> s[i] <= v
    ensures AtMost(multiset(s), v)
  {
    forall x | x in multiset(s) ensures x <= v {
      var i :| 0 <= i < |s| && s[i] == x;
    }
  }

  /** Every coordinate of a segment bounded by `v` from below puts `v` below its multiset. */
  lemma MultisetAtLeast(s: seq<int>, v: int)
    requires forall i :: 0 <= i < |s| ==> v <= s[i]
    ensures AtLeast(multiset(s), v)
  {
    forall x | x in multiset(s) ensures v <= x {
      var i :| 0 <= i < |s| && s[i] == x;
    }
  }

  /**
   * If the lower part of one split lies at or below `v1` and the other
   * split's lower part holds a larger `v2` with its upper part at or above
   * `v2`, then the first lower part is the smaller one: each of its values
   * is in the other lower part, and `v2` is not among them.
   */
  lemma LowerPartSmaller(lo1: multiset<int>, hi1: multiset<int>, v1: int, lo2: multiset<int>, hi2: multiset<int>, v2: int)
    requires lo1 + hi1 == lo2 + hi2 && v1 < v2
    requires AtMost(lo1, v1)
    requires v2 in lo2 && AtLeast(hi2, v2)
    ensures |lo1| < |lo2|
  {
    var a := lo1 + multiset{v2};
    forall x ensures a[x] <= lo2[x] {
      if x < v2 {
        assert x !in hi2;
        assert (lo1 + hi1)[x] == (lo2 + hi2)[x];
      } else {
        assert x !in lo1;
      }
    }
    assert a <= lo2;
    assert lo2 == a + (lo2 - a);
  }

  /** Two multisets that agree off `v` and hold `v` fewer times in the first: the first is smaller. */
  lemma FewerCopiesSmaller(lo1: multiset<int>, lo2: multiset<int>, v: int)
    requires forall x :: x != v ==> lo1[x] == lo2[x]
    requires lo1[v] < lo2[v]
    ensures |lo1| < |lo2|
  {
    var rest := lo2 - lo1;
    forall x ensures (lo1 + rest)[x] == lo2[x] {
      assert lo1[x] <= lo2[x];
    }
    assert lo2 == lo1 + rest;
    assert v in rest;
  }

  /**
   * The value of a cut is determined by the multiset of the coordinates it
   * splits: two splits of the same values into lower parts of equal size,
   * each at most its cut value, which the lower part holds, and upper parts
   * at least it, have the same cut value and the same two parts. This is
   * the `(|lower|)`-th smallest value.
   */
  lemma CutValueUnique(lo1: multiset<int>, hi1: multiset<int>, v1: int, lo2: multiset<int>, hi2: multiset<int>, v2: int)
    requires lo1 + hi1 == lo2 + hi2 && |lo1| == |lo2|
    requires v1 in lo1 && AtMost(lo1, v1) && AtLeast(hi1, v1)
    requires v2 in lo2 && AtMost(lo2, v2) && AtLeast(hi2, v2)
    ensures v1 == v2 && lo1 == lo2 && hi1 == hi2
  {
    if v1 < v2 {
      LowerPartSmaller(lo1, hi1, v1, lo2, hi2, v2);
      assert false;
    } else if v2 < v1 {
      LowerPartSmaller(lo2, hi2, v2, lo1, hi1, v1);
      assert false;
    }
    forall x | x != v1 ensures lo1[x] == lo2[x] {
      if x < v1 {
        assert x !in hi1 && x !in hi2;
        assert (lo1 + hi1)[x] == (lo2 + hi2)[x];
      } else {
        assert x !in lo1 && x !in lo2;
      }
    }
    if lo1[v1] < lo2[v1] {
      FewerCopiesSmaller(lo1, lo2, v1);
      assert false;
    } else if lo2[v1] < lo1[v1] {
      FewerCopiesSmaller(lo2, lo1, v1);
      assert false;
    }
    assert lo1 == lo2;
    assert hi1 == (lo1 + hi1) - lo1;
    assert hi2 == (lo2 + hi2) - lo2;
  }

  /** In one dimension every cut is in dimension 0. */
  lemma OneDimensionCut(level: int)
    ensures CutDimension(level, 1) == 0
  {
  }

  /** The segments `l..u` of `X1` and `X2` hold the same coordinates, in any order. */
  ghost predicate SameCoordinates<T>(X1: seq<int>, points1: seq<T>, extractor1: (T, int) -> int,
                                     X2: seq<int>, points2: seq<T>, extractor2: (T, int) -> int, l: int, u: int)
    requires 0 <= l <= u + 1 <= |X1| && u + 1 <= |X2|
  {
    multiset(Coordinates(X1[l..u + 1], points1, extractor1, 0)) == multiset(Coordinates(X2[l..u + 1], points2, extractor2, 0))
  }

  /**
   * In one dimension the tree `build` makes depends only on the multiset of
   * the coordinates it indexes, not on their order: two built trees over
   * segments `l..u` that hold the same coordinates are the same tree, with
   * the same shape and the same cut values.
   */
  lemma {:induction false} BuiltOneDimensionUnique<T>(t1: KDNode, X1: seq<int>, points1: seq<T>, extractor1: (T, int) -> int,
                                                      t2: KDNode, X2: seq<int>, points2: seq<T>, extractor2: (T, int) -> int,
                                                      cutoff: int, level: int, l: int, u: int)
    requires 0 <= l <= u + 1 <= |X1| && u + 1 <= |X2|
    requires Built(t1, X1, points1, extractor1, cutoff, 1, level, l, u)
    requires Built(t2, X2, points2, extractor2, cutoff, 1, level, l, u)
    requires SameCoordinates(X1, points1, extractor1, X2, points2, extractor2, l, u)
    ensures t1 == t2
    decreases u - l
  {
    BuiltSons(t1, X1, points1, extractor1, cutoff, level, l, u);
    BuiltSons(t2, X2, points2, extractor2, cutoff, level, l, u);
    if t1.Cut? {
      var m := (l + u) / 2;
      SameCoordinatesCut(t1, X1, points1, extractor1, t2, X2, points2, extractor2, cutoff, level, l, u);
      BuiltOneDimensionUnique(t1.loson, X1, points1, extractor1, t2.loson, X2, points2, extractor2, cutoff, level + 1, l, m);
      BuiltOneDimensionUnique(t1.hison, X1, points1, extractor1, t2.hison, X2, points2, extractor2, cutoff, level + 1, m + 1, u);
    }
  }

  /**
   * A node built in one dimension is the bucket of `l..u` when that is
   * within the cutoff, and otherwise a cut at this level in dimension 0
   * whose sons are built one level down over the two halves.
   */
  lemma BuiltSons<T>(t: KDNode, X: seq<int>, points: seq<T>, extractor: (T, int) -> int, cutoff: int, level: int, l: int, u: int)
    requires Built(t, X, points, extractor, cutoff, 1, level, l, u)
    ensures t.Bucket? <==> u - l + 1 <= cutoff
    ensures t.Bucket? ==> t == Bucket(level, l, u)
    ensures t.Cut? ==> (l <= (l + u) / 2 < u && t.level == level && t.cutdim == 0 &&
      Built(t.loson, X, points, extractor, cutoff, 1, level + 1, l, (l + u) / 2) &&
      Built(t.hison, X, points, extractor, cutoff, 1, level + 1, (l + u) / 2 + 1, u))
  {
    OneDimensionCut(level);
  }

  /** `CutsAgree` for segments with the same coordinates: the halves have the same coordinates too. */
  lemma SameCoordinatesCut<T>(t1: KDNode, X1: seq<int>, points1: seq<T>, extractor1: (T, int) -> int,
                              t2: KDNode, X2: seq<int>, points2: seq<T>, extractor2: (T, int) -> int,
                              cutoff: int, level: int, l: int, u: int)
    requires 0 <= l <= u + 1 <= |X1| && u + 1 <= |X2|
    requires Built(t1, X1, points1, extractor1, cutoff, 1, level, l, u) && t1.Cut?
    requires Built(t2, X2, points2, extractor2, cutoff, 1, level, l, u)
    requires SameCoordinates(X1, points1, extractor1, X2, points2, extractor2, l, u)
    ensures l <= (l + u) / 2 < u
    ensures t2.Cut? && t1.cutval == t2.cutval
    ensures SameCoordinates(X1, points1, extractor1, X2, points2, extractor2, l, (l + u) / 2)
    ensures SameCoordinates(X1, points1, extractor1, X2, points2, extractor2, (l + u) / 2 + 1, u)
  {
    CutsAgree(t1, X1, points1, extractor1, t2, X2, points2, extractor2, cutoff, level, l, u);
  }

  /**
   * Two cuts built in one dimension over segments `l..u` with the same
   * coordinates cut at the same value and hand each son the same
   * coordinates.
   */
  lemma CutsAgree<T>(t1: KDNode, X1: seq<int>, points1: seq<T>, extractor1: (T, int) -> int,
                     t2: KDNode, X2: seq<int>, points2: seq<T>, extractor2: (T, int) -> int,
                     cutoff: int, level: int, l: int, u: int)
    requires 0 <= l <= u + 1 <= |X1| && u + 1 <= |X2|
    requires Built(t1, X1, points1, extractor1, cutoff, 1, level, l, u) && t1.Cut?
    requires Built(t2, X2, points2, extractor2, cutoff, 1, level, l, u)
    requires multiset(Coordinates(X1[l..u + 1], points1, extractor1, 0)) == multiset(Coordinates(X2[l..u + 1], points2, extractor2, 0))
    ensures var m := (l + u) / 2;
      t2.Cut? && t1.cutval == t2.cutval &&
      multiset(Coordinates(X1[l..m + 1], points1, extractor1, 0)) == multiset(Coordinates(X2[l..m + 1], points2, extractor2, 0)) &&
      multiset(Coordinates(X1[m + 1..u + 1], points1, extractor1, 0)) == multiset(Coordinates(X2[m + 1..u + 1], points2, extractor2, 0))
  {
    BuiltNode(t1, X1, points1, extractor1, cutoff, level, l, u);
    BuiltNode(t2, X2, points2, extractor2, cutoff, level, l, u);
    SplitsAgree(X1, points1, extractor1, t1.cutval, X2, points2, extractor2, t2.cutval, l, (l + u) / 2, u);
  }

  /**
   * Two segments `l..u` with the same coordinates, each split after `m` at
   * a value its lower part holds, that part at most it and the upper part
   * at least it, are split at the same value into parts with the same
   * coordinates.
   */
  lemma SplitsAgree<T>(X1: seq<int>, points1: seq<T>, extractor1: (T, int) -> int, v1: int,
                       X2: seq<int>, points2: seq<T>, extractor2: (T, int) -> int, v2: int, l: int, m: int, u: int)
    requires 0 <= l <= m < u && u < |X1| && u < |X2|
    requires multiset(Coordinates(X1[l..u + 1], points1, extractor1, 0)) == multiset(Coordinates(X2[l..u + 1], points2, extractor2, 0))
    requires v1 in multiset(Coordinates(X1[l..m + 1], points1, extractor1, 0))
    requires AtMost(multiset(Coordinates(X1[l..m + 1], points1, extractor1, 0)), v1)
    requires AtLeast(multiset(Coordinates(X1[m + 1..u + 1], points1, extractor1, 0)), v1)
    requires v2 in multiset(Coordinates(X2[l..m + 1], points2, extractor2, 0))
    requires AtMost(multiset(Coordinates(X2[l..m + 1], points2, extractor2, 0)), v2)
    requires AtLeast(multiset(Coordinates(X2[m + 1..u + 1], points2, extractor2, 0)), v2)
    ensures v1 == v2
    ensures multiset(Coordinates(X1[l..m + 1], points1, extractor1, 0)) == multiset(Coordinates(X2[l..m + 1], points2, extractor2, 0))
    ensures multiset(Coordinates(X1[m + 1..u + 1], points1, extractor1, 0)) == multiset(Coordinates(X2[m + 1..u + 1], points2, extractor2, 0))
  {
    var lo1, hi1 := Coordinates(X1[l..m + 1], points1, extractor1, 0), Coordinates(X1[m + 1..u + 1], points1, extractor1, 0);
    var lo2, hi2 := Coordinates(X2[l..m + 1], points2, extractor2, 0), Coordinates(X2[m + 1..u + 1], points2, extractor2, 0);
    SplitCoordinates(X1, points1, extractor1, l, m, u);
    SplitCoordinates(X2, points2, extractor2, l, m, u);
    CutValueUnique(multiset(lo1), multiset(hi1), v1, multiset(lo2), multiset(hi2), v2);
  }

  /**
   * A node built in one dimension is a bucket of `l..u` within the cutoff;
   * past it, a cut in dimension 0 whose halves split the coordinates at its
   * value and whose sons are built one level down.
   */
  lemma BuiltNode<T>(t: KDNode, X: seq<int>, points: seq<T>, extractor: (T, int) -> int, cutoff: int, level: int, l: int, u: int)
    requires Built(t, X, points, extractor, cutoff, 1, level, l, u)
    ensures t.Bucket? <==> u - l + 1 <= cutoff
    ensures t.Bucket? ==> t == Bucket(level, l, u)
    ensures t.Cut? ==> var m := (l + u) / 2;
      l <= m < u && u < |X| && t.level == level && t.cutdim == 0 &&
      Built(t.loson, X, points, extractor, cutoff, 1, level + 1, l, m) &&
      Built(t.hison, X, points, extractor, cutoff, 1, level + 1, m + 1, u) &&
      t.cutval in multiset(Coordinates(X[l..m + 1], points, extractor, 0)) &&
      AtMost(multiset(Coordinates(X[l..m + 1], points, extractor, 0)), t.cutval) &&
      AtLeast(multiset(Coordinates(X[m + 1..u + 1], points, extractor, 0)), t.cutval)
  {
    if t.Cut? {
      OneDimensionCut(level);
      HalvesOfCut(t, X, points, extractor, l, u);
    }
  }

  /** The coordinates of `l..u` are those of `l..m` followed by those of `m + 1..u`. */
  lemma SplitCoordinates<T>(X: seq<int>, points: seq<T>, extractor: (T, int) -> int, l: int, m: int, u: int)
    requires 0 <= l <= m + 1 <= u + 1 <= |X|
    ensures multiset(Coordinates(X[l..u + 1], points, extractor, 0)) ==
      multiset(Coordinates(X[l..m + 1], points, extractor, 0)) + multiset(Coordinates(X[m + 1..u + 1], points, extractor, 0))
    ensures |Coordinates(X[l..m + 1], points, extractor, 0)| == m + 1 - l
  {
    assert X[l..u + 1] == X[l..m + 1] + X[m + 1..u + 1];
    CoordinatesAppend(X[l..m + 1], X[m + 1..u + 1], points, extractor, 0);
  }

  /**
   * At a cut in dimension 0, the coordinates of the lower half lie at or
   * below the cut value, which one of them has, and those of the upper half
   * at or above it.
   */
  lemma HalvesOfCut<T>(t: KDNode, X: seq<int>, points: seq<T>, extractor: (T, int) -> int, l: int, u: int)
    requires t.Cut? && t.cutdim == 0 && SearchTree(t, X, points, extractor, l, u)
    ensures var m := (l + u) / 2; var lo, hi := Coordinates(X[l..m + 1], points, extractor, 0), Coordinates(X[m + 1..u + 1], points, extractor, 0);
      t.cutval in multiset(lo) && AtMost(multiset(lo), t.cutval) && AtLeast(multiset(hi), t.cutval)
  {
    var m := (l + u) / 2;
    var lo, hi := Coordinates(X[l..m + 1], points, extractor, 0), Coordinates(X[m + 1..u + 1], points, extractor, 0);
    var k :| l <= k <= m && Coordinate(points, extractor, X[k], 0) == t.cutval;
    assert lo[k - l] == t.cutval;
    forall i | 0 <= i < |lo| ensures lo[i] <= t.cutval {
      assert X[l..m + 1][i] == X[l + i];
    }
    forall i | 0 <= i < |hi| ensures t.cutval <= hi[i] {
      assert X[m + 1..u + 1][i] == X[m + 1 + i];
    }
    MultisetAtMost(lo, t.cutval);
    MultisetAtLeast(hi, t.cutval);
  }

  /** The coordinate of a one-dimensional integer point: the point itself. */
  function Own(p: int, j: int): int
  {
    p
  }

  /**
   * The tree the tests expect over four points with coordinates 1, 2, 3 and
   * 4, one per bucket, built from `level` down: a cut at 2, then cuts at 1
   * and 3.
   */
  function FourPointTree(level: int): (t: KDNode)
    ensures Shaped(t, 1, 1, level, 0, 3)
  {
    OneDimensionCut(level);
    OneDimensionCut(level + 1);
    Cut(level, 0, 2, Cut(level + 1, 0, 1, Bucket(level + 2, 0, 0), Bucket(level + 2, 1, 1)),
                     Cut(level + 1, 0, 3, Bucket(level + 2, 2, 2), Bucket(level + 2, 3, 3)))
  }

  /**
   * Indexing the points 1, 2, 3, 4 and the points 4, 3, 2, 1 in one
   * dimension with buckets of one point builds the same tree: cuts at 2,
   * then 1 and 3, with the points in the order 1, 2, 3, 4 in both.
   */
  lemma SameTreeEitherOrder(t1: KDNode, X1: seq<int>, t2: KDNode, X2: seq<int>, level: int)
    requires Covers(X1) && |X1| == 4 && Built(t1, X1, [1, 2, 3, 4], Own, 1, 1, level, 0, 3)
    requires Covers(X2) && |X2| == 4 && Built(t2, X2, [4, 3, 2, 1], Own, 1, 1, level, 0, 3)
    ensures t1 == t2 == FourPointTree(level)
    ensures Coordinates(X1, [1, 2, 3, 4], Own, 0) == [1, 2, 3, 4]
    ensures Coordinates(X2, [4, 3, 2, 1], Own, 0) == [1, 2, 3, 4]
  {
    var reference := [0, 1, 2, 3];
    ReferenceBuilt(level);
    FourCoordinates(X1, [1, 2, 3, 4]);
    FourCoordinates(X2, [4, 3, 2, 1]);
    assert Coordinates(reference, [1, 2, 3, 4], Own, 0) == [1, 2, 3, 4];
    assert reference[0..4] == reference;
    BuiltOneDimensionUnique(t1, X1, [1, 2, 3, 4], Own, FourPointTree(level), reference, [1, 2, 3, 4], Own, 1, level, 0, 3);
    BuiltOneDimensionUnique(t2, X2, [4, 3, 2, 1], Own, FourPointTree(level), reference, [1, 2, 3, 4], Own, 1, level, 0, 3);
    SortedLeaves(X1, [1, 2, 3, 4], level);
    SortedLeaves(X2, [4, 3, 2, 1], level);
  }

  /** A permutation of the four point numbers lists the four coordinates of the points in some order. */
  lemma FourCoordinates(X: seq<int>, points: seq<int>)
    requires Covers(X) && |X| == 4 && |points| == 4 && multiset(points) == multiset{1, 2, 3, 4}
    ensures X[0..4] == X
    ensures multiset(Coordinates(X, points, Own, 0)) == multiset{1, 2, 3, 4}
  {
    var reference := [0, 1, 2, 3];
    assert Identity(4) == reference;
    assert Coordinates(reference, points, Own, 0) == points;
    CoordinatesPermuted(X, reference, points, Own, 0);
  }

  /** Over the point numbers in order, the expected tree is the one `build` makes for 1, 2, 3, 4. */
  lemma ReferenceBuilt(level: int)
    ensures Built(FourPointTree(level), [0, 1, 2, 3], [1, 2, 3, 4], Own, 1, 1, level, 0, 3)
  {
    var X, points := [0, 1, 2, 3], [1, 2, 3, 4];
    var t := FourPointTree(level);
    assert forall k :: 0 <= k < 4 ==> Coordinate(points, Own, X[k], 0) == k + 1;
    assert SearchTree(Bucket(level + 2, 0, 0), X, points, Own, 0, 0);
    assert SearchTree(Bucket(level + 2, 1, 1), X, points, Own, 1, 1);
    assert SearchTree(Bucket(level + 2, 2, 2), X, points, Own, 2, 2);
    assert SearchTree(Bucket(level + 2, 3, 3), X, points, Own, 3, 3);
    assert SearchTree(t.loson, X, points, Own, 0, 1) by {
      assert Coordinate(points, Own, X[0], 0) == 1;
    }
    assert SearchTree(t.hison, X, points, Own, 2, 3) by {
      assert Coordinate(points, Own, X[2], 0) == 3;
    }
    assert SearchTree(t, X, points, Own, 0, 3) by {
      assert Coordinate(points, Own, X[1], 0) == 2;
    }
  }

  /**
   * Under the expected tree, four points with coordinates 1 to 4 sit in the
   * order of their coordinates: each bucket holds the value its cuts pin.
   */
  lemma SortedLeaves(X: seq<int>, points: seq<int>, level: int)
    requires |X| == 4 && multiset(Coordinates(X, points, Own, 0)) == multiset{1, 2, 3, 4}
    requires SearchTree(FourPointTree(level), X, points, Own, 0, 3)
    ensures Coordinates(X, points, Own, 0) == [1, 2, 3, 4]
  {
    var c := Coordinates(X, points, Own, 0);
    var t := FourPointTree(level);
    HalvesOfCut(t, X, points, Own, 0, 3);
    HalvesOfCut(t.loson, X, points, Own, 0, 1);
    HalvesOfCut(t.hison, X, points, Own, 2, 3);
    assert Coordinates(X[0..1], points, Own, 0) == [c[0]];
    assert Coordinates(X[0..2], points, Own, 0) == [c[0], c[1]];
    assert Coordinates(X[2..3], points, Own, 0) == [c[2]];
    assert Coordinates(X[3..4], points, Own, 0) == [c[3]];
    assert c == [c[0], c[1], c[2], c[3]];
    assert multiset(c) == multiset{c[0], c[1], c[2], c[3]};
  }

  /** A fresh array holding the numbers `0..n-1` in order. */
  method NewIdentity(n: nat) returns (a: array<int>)
    ensures fresh(a) && a[..] == Identity(n)
  {
    a := new int[n];
    for i := 0 to n
      modifies a
      invariant forall k :: 0 <= k < i ==> a[k] == k
    {
      a[i] := i;
    }
  }

  /**
   * `KDTree`: the point list, the permutation `perm` and the tree `root`
   * built over it by `index`, and the fields the nearest-neighbour search
   * works in. Distances and coordinates are integers compared in their
   * natural order, with exact `+` and `-` for the pruning tests.
   */
  class KDTree<T> {
    /** `perm`: point numbers, rearranged in place by `build`. */
    var perm: array<int>
    /** `root`: the tree, absent (`null`) until the points are indexed. */
    var root: Option<KDNode>
    /** `points`: the points, numbered by their position. */
    var points: seq<T>
    /** `cutoff`: the most positions a bucket may hold. */
    var cutoff: int
    /** `coordinateExtractor`: coordinate `d` of an item. */
    const coordinateExtractor: (T, int) -> int
    /** `distanceMeasurer`: the distance between two items. */
    const distanceMeasurer: (T, T) -> int
    /** `maxDistance`: the distance a search starts from. */
    const maxDistance: int
    /** `numberOfDimensions`: the dimensions the cuts cycle through. */
    const numberOfDimensions: int
    /** The sample size `S` of SELECT's sampling step, a floating-point estimate from `N`. */
    const sampleSize: int -> int
    /** The deviation `SD` of SELECT's sampling step, a floating-point estimate from `N` and `I`. */
    const sampleDeviation: (int, int) -> int
    /** `nnTargetItem`: the item being searched for (`null` before the first search). */
    var nnTargetItem: Option<T>
    /** `nndist`: the best distance so far. */
    var nndist: int
    /** `nnptnum`: the number of the best point so far; it keeps its value between searches. */
    var nnptnum: int

    /**
     * Once indexed, `perm` is a permutation of the numbers of the points
     * indexed (points added later come after them) and `root` a search tree
     * over all of `perm`.
     */
    ghost predicate Indexed()
      reads this, perm
    {
      IndexedOver(root, perm[..], points, coordinateExtractor)
    }

    /** A tree with no points, not yet indexed, with buckets of one point. */
    constructor (extractor: (T, int) -> int, measurer: (T, T) -> int, maxDistance: int, numberOfDimensions: int,
                 sampleSize: int -> int, sampleDeviation: (int, int) -> int)
      ensures coordinateExtractor == extractor && distanceMeasurer == measurer
      ensures this.maxDistance == maxDistance && this.numberOfDimensions == numberOfDimensions
      ensures this.sampleSize == sampleSize && this.sampleDeviation == sampleDeviation
      ensures points == [] && cutoff == 1 && root.None? && nnTargetItem.None? && nnptnum == 0
      ensures Indexed()
    {
      coordinateExtractor := extractor;
      distanceMeasurer := measurer;
      this.maxDistance := maxDistance;
      this.numberOfDimensions := numberOfDimensions;
      this.sampleSize := sampleSize;
      this.sampleDeviation := sampleDeviation;
      perm := new int[0];
      root := None;
      points := [];
      cutoff := 1;
      nnTargetItem := None;
      nndist := 0;
      nnptnum := 0;
    }

    /**
     * `x(i, j)`: coordinate `j` of point number `i`; `points.get(i)` throws
     * `IndexOutOfBoundsException` for a number outside the list.
     */
    function X(i: int, j: int): (r: Result<int>)
      reads this
      ensures r.Err? <==> !(0 <= i < |points|)
      ensures r.Err? ==> r.error == IndexOutOfBounds
      ensures r.Ok? ==> r.value == coordinateExtractor(points[i], j) == Coordinate(points, coordinateExtractor, i, j)
    {
      if 0 <= i < |points| then Ok(coordinateExtractor(points[i], j)) else Err(IndexOutOfBounds)
    }

    /**
     * `px(i, j)`: coordinate `j` of the point at position `i` of `perm`;
     * a position outside `perm` throws `ArrayIndexOutOfBoundsException`,
     * and so does `x` for a number outside the list.
     */
    function Px(i: int, j: int): (r: Result<int>)
      reads this, perm
      ensures r.Err? <==> !(0 <= i < perm.Length) || !(0 <= perm[i] < |points|)
      ensures r.Err? ==> r.error == IndexOutOfBounds
      ensures r.Ok? ==> r.value == Coordinate(points, coordinateExtractor, perm[i], j)
    {
      if 0 <= i < perm.Length then X(perm[i], j) else Err(IndexOutOfBounds)
    }

    /**
     * `index(points)`: keeps the list, starts `perm` as the identity and
     * builds the tree over all of it; `perm` stays a permutation.
     *
     * `build` fails when the root is a cut it cannot make: with no
     * dimensions, `level % numberOfDimensions` throws `ArithmeticException`;
     * with a `cutoff` below 1 and no points, the cut value is read from the
     * empty `perm`; with a `cutoff` below 1 and some points, a one-position
     * segment is itself past the cutoff and is cut into the same segment
     * again, so `build` recurses until the stack overflows (the order `perm`
     * is left in then is not stated). A failed `build` leaves the old root.
     */
    method Index(points: seq<T>) returns (failure: Option<Failure>)
      requires KdSelect.SamplesShrink(sampleSize, sampleDeviation)
      modifies this`points, this`perm, this`root
      ensures this.points == points && fresh(perm) && perm.Length == |points|
      ensures failure.None? <==> |points| <= cutoff || (cutoff >= 1 && numberOfDimensions != 0)
      ensures failure == Some(ArithmeticError) <==> |points| > cutoff && numberOfDimensions == 0
      ensures failure == Some(IndexOutOfBounds) <==> |points| == 0 && cutoff < 0 && numberOfDimensions != 0
      ensures failure == Some(StackOverflow) <==> |points| > 0 && cutoff < 1 && numberOfDimensions != 0
      ensures failure.Some? ==> root == old(root)
      ensures failure.Some? && failure != Some(StackOverflow) ==> perm[..] == Identity(|points|)
      ensures failure.None? ==> Covers(perm[..])
      ensures failure.None? ==> root.Some? && Shaped(root.value, cutoff, numberOfDimensions, 0, 0, |points| - 1)
      ensures failure.None? ==> Indexed()
    {
      this.points := points;
      var n := |points|;
      perm := NewIdentity(n);
      if n > cutoff && numberOfDimensions == 0 {
        return Some(ArithmeticError);
      }
      if n > cutoff && cutoff < 1 {
        return if n == 0 then Some(IndexOutOfBounds) else Some(StackOverflow);
      }
      var p := Build(perm, points, coordinateExtractor, cutoff, numberOfDimensions, sampleSize, sampleDeviation, 0, 0, n - 1);
      IndexedBuilt(p, perm[..], points, coordinateExtractor, cutoff, numberOfDimensions);
      root := Some(p);
      failure := None;
    }

    /** `index()`: indexes the points added so far, failing as `index(points)` does. */
    method IndexAdded() returns (failure: Option<Failure>)
      requires KdSelect.SamplesShrink(sampleSize, sampleDeviation)
      modifies this`points, this`perm, this`root
      ensures points == old(points) && fresh(perm) && perm.Length == |points|
      ensures failure.None? <==> |points| <= cutoff || (cutoff >= 1 && numberOfDimensions != 0)
      ensures failure == Some(ArithmeticError) <==> |points| > cutoff && numberOfDimensions == 0
      ensures failure == Some(IndexOutOfBounds) <==> |points| == 0 && cutoff < 0 && numberOfDimensions != 0
      ensures failure == Some(StackOverflow) <==> |points| > 0 && cutoff < 1 && numberOfDimensions != 0
      ensures failure.Some? ==> root == old(root)
      ensures failure.None? ==> root.Some? && Shaped(root.value, cutoff, numberOfDimensions, 0, 0, |points| - 1)
      ensures failure.None? ==> Indexed()
    {
      failure := Index(points);
    }

    /**
     * `rnn_WithExternalTarget(p)`: the search below `p` for the target in
     * `nnTargetItem`, updating `nndist` and `nnptnum` as `Rnn` says.
     */
    method RnnWithExternalTarget(p: KDNode)
      requires nnTargetItem.Some? && InRange(perm[..], points) && BucketsWithin(p, perm.Length)
      modifies this`nndist, this`nnptnum
      ensures Search(nndist, nnptnum) ==
        Rnn(p, perm[..], points, coordinateExtractor, distanceMeasurer, nnTargetItem.value, old(Search(nndist, nnptnum)))
      decreases p
    {
      match p
      case Bucket(_, lopt, hipt) =>
        ghost var goal := BucketScan(perm[..], points, distanceMeasurer, nnTargetItem.value, lopt, hipt, Search(nndist, nnptnum));
        var i := lopt;
        while i <= hipt
          invariant lopt <= i
          invariant BucketScan(perm[..], points, distanceMeasurer, nnTargetItem.value, i, hipt, Search(nndist, nnptnum)) == goal
          decreases hipt + 1 - i
        {
          var thisdist := distanceMeasurer(points[perm[i]], nnTargetItem.value);
          if thisdist < nndist {
            nndist := thisdist;
            nnptnum := perm[i];
          }
          i := i + 1;
        }
      case Cut(_, cutdim, cutval, loson, hison) =>
        var val := cutval;
        var thisx := coordinateExtractor(nnTargetItem.value, cutdim);
        if thisx < val {
          RnnWithExternalTarget(loson);
          if thisx + nndist > val {
            RnnWithExternalTarget(hison);
          }
        } else {
          RnnWithExternalTarget(hison);
          if thisx - nndist < val {
            RnnWithExternalTarget(loson);
          }
        }
    }

    /**
     * `nn_WithExternalTarget(item)`: the search from `maxDistance` over the
     * whole tree; the answer is `nnptnum`, whatever it was left at.
     */
    method NnWithExternalTarget(item: T) returns (nearestIndex: int)
      requires root.Some? && InRange(perm[..], points) && BucketsWithin(root.value, perm.Length)
      modifies this`nnTargetItem, this`nndist, this`nnptnum
      ensures nnTargetItem == Some(item) && nearestIndex == nnptnum
      ensures Search(nndist, nnptnum) ==
        Rnn(root.value, perm[..], points, coordinateExtractor, distanceMeasurer, item, Search(maxDistance, old(nnptnum)))
    {
      nnTargetItem := Some(item);
      nndist := maxDistance;
      RnnWithExternalTarget(root.value);
      nearestIndex := nnptnum;
    }

    /**
     * `searchNearest(item)`: the point numbered by the search's answer. An
     * unindexed tree fails, and so does an answer that numbers no point.
     * Under the metric condition, when some indexed point is nearer than
     * `maxDistance`, the answer is as near as the linear index's.
     */
    method SearchNearest(item: T) returns (r: Result<T>)
      requires Indexed()
      modifies this`nnTargetItem, this`nndist, this`nnptnum
      ensures root.None? ==> r == Err(NullPointer)
      ensures root.Some? ==>
        nnptnum == Rnn(root.value, perm[..], points, coordinateExtractor, distanceMeasurer, item,
                       Search(maxDistance, old(nnptnum))).nnptnum
      ensures root.Some? ==> r == (if 0 <= nnptnum < |points| then Ok(points[nnptnum]) else Err(IndexOutOfBounds))
      ensures (root.Some? && Metric(points, coordinateExtractor, distanceMeasurer, item) &&
               exists q :: 0 <= q < perm.Length && distanceMeasurer(points[q], item) < maxDistance) ==>
        r.Ok? &&
        distanceMeasurer(r.value, item) == distanceMeasurer(LinearNearest(points[..perm.Length], item, distanceMeasurer).value, item)
    {
      if root.None? {
        return Err(NullPointer);
      }
      ghost var stale := nnptnum;
      var nearestIndex := NnWithExternalTarget(item);
      if 0 <= nearestIndex < |points| {
        r := Ok(points[nearestIndex]);
      } else {
        r := Err(IndexOutOfBounds);
      }
      if Metric(points, coordinateExtractor, distanceMeasurer, item) &&
         exists q :: 0 <= q < perm.Length && distanceMeasurer(points[q], item) < maxDistance {
        NearestAgreesWithLinear(root.value, perm[..], points, coordinateExtractor, distanceMeasurer, item, maxDistance, stale);
      }
    }

    /** `add(item)`: appends the item; a tree already built stays valid over the earlier points. */
    method Add(item: T)
      modifies this`points
      ensures points == old(points) + [item]
      ensures old(Indexed()) ==> Indexed()
    {
      if IndexedOver(root, perm[..], points, coordinateExtractor) {
        IndexedAppend(root, perm[..], points, coordinateExtractor, item);
      }
      points := points + [item];
    }
  }
}
