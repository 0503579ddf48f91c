/**
 * The notion of "nearest" shared by every index: the indexes keep a best
 * distance so far and replace it only on a strictly smaller distance (or, in
 * the binary tree, visit the path backwards with a non-strict compare), so
 * among equally near candidates the one met first in scan order wins.
 * Distances are integers under their natural order.
 */
module Nearest {
  import opened Wrappers

  /**
   * `k` is the first position of a least entry of `ds`: no entry is smaller,
   * and every entry before it is strictly greater.
   */
  predicate IsFirstLeast(ds: seq<int>, k: int)
  {
    0 <= k < |ds|
    && (forall j :: 0 <= j < |ds| ==> ds[k] <= ds[j])
    && (forall j :: 0 <= j < k ==> ds[k] < ds[j])
  }

  /**
   * The first least position, by a scan from the front in which the head
   * wins unless the rest holds something strictly smaller.
   */
  function FirstLeast(ds: seq<int>): (k: nat)
    requires |ds| > 0
    ensures IsFirstLeast(ds, k)
    decreases |ds|
  {
    if |ds| == 1 then 0
    else
      var k := FirstLeast(ds[1..]);
      assert forall j :: 1 <= j < |ds| ==> ds[j] == ds[1..][j - 1];
      if ds[0] <= ds[1 + k] then 0 else 1 + k
  }

  /** There is exactly one first least position, and `FirstLeast` finds it. */
  lemma FirstLeastUnique(ds: seq<int>, k: int)
    requires |ds| > 0
    ensures IsFirstLeast(ds, k) <==> k == FirstLeast(ds)
  {
  }

  /**
   * The scan kept by a best-so-far loop: appending one more distance moves
   * the first least position to the new entry exactly when it is strictly
   * smaller than the current least.
   */
  lemma FirstLeastAppend(ds: seq<int>, d: int)
    requires |ds| > 0
    ensures FirstLeast(ds + [d]) == if d < ds[FirstLeast(ds)] then |ds| else FirstLeast(ds)
  {
    var f := FirstLeast(ds);
    var es := ds + [d];
    var c := if d < ds[f] then |ds| else f;
    assert forall j :: 0 <= j < |ds| ==> es[j] == ds[j];
    assert IsFirstLeast(es, c);
    FirstLeastUnique(es, c);
  }

  /**
   * Putting one more distance in front moves the first least position to
   * the front exactly when the new entry is not greater than the old least.
   */
  lemma FirstLeastCons(d: int, ds: seq<int>)
    requires |ds| > 0
    ensures FirstLeast([d] + ds) == if d <= ds[FirstLeast(ds)] then 0 else 1 + FirstLeast(ds)
  {
    assert ([d] + ds)[1..] == ds;
  }

  /** The first least position of a one-entry sequence is 0. */
  lemma FirstLeastSingle(d: int)
    ensures FirstLeast([d]) == 0
  {
  }

  /** The distance of each indexed item to the query, measured as `measure(item, query)`. */
  function DistancesFrom<T>(items: seq<T>, query: T, measure: (T, T) -> int): (ds: seq<int>)
    ensures |ds| == |items|
    ensures forall i :: 0 <= i < |items| ==> ds[i] == measure(items[i], query)
  {
    seq(|items|, i requires 0 <= i < |items| => measure(items[i], query))
  }

  /** The distance of the query to each indexed item, measured as `measure(query, item)`. */
  function DistancesTo<T>(items: seq<T>, query: T, measure: (T, T) -> int): (ds: seq<int>)
    ensures |ds| == |items|
    ensures forall i :: 0 <= i < |items| ==> ds[i] == measure(query, items[i])
  {
    seq(|items|, i requires 0 <= i < |items| => measure(query, items[i]))
  }

  /** The distances of a sequence with one more item in front. */
  lemma DistancesToCons<T>(x: T, items: seq<T>, query: T, measure: (T, T) -> int)
    ensures DistancesTo([x] + items, query, measure) == [measure(query, x)] + DistancesTo(items, query, measure)
  {
    var ds := DistancesTo([x] + items, query, measure);
    var es := [measure(query, x)] + DistancesTo(items, query, measure);
    assert forall i :: 0 <= i < |ds| ==> ds[i] == es[i];
  }

  /** A prefix of the distances is the distances of the prefix. */
  lemma DistancesFromPrefix<T>(items: seq<T>, query: T, measure: (T, T) -> int, i: nat)
    requires i <= |items|
    ensures DistancesFrom(items, query, measure)[..i] == DistancesFrom(items[..i], query, measure)
  {
  }

  /**
   * The item at the first least distance, or none for no items: the result
   * of a scan that keeps the first of the nearest.
   */
  function FirstNearest<T>(items: seq<T>, ds: seq<int>): (r: Option<T>)
    requires |ds| == |items|
    ensures r.None? <==> items == []
    ensures r.Some? ==> exists k :: IsFirstLeast(ds, k) && r.value == items[k]
  {
    if items == [] then None else Some(items[FirstLeast(ds)])
  }

  /**
   * `y` is the item of `items` at the first least distance
   * `measure(query, item)`.
   */
  ghost predicate IsFirstNearestTo<T>(query: T, items: seq<T>, y: T, measure: (T, T) -> int)
  {
    exists k :: 0 <= k < |items| && IsFirstLeast(DistancesTo(items, query, measure), k) && y == items[k]
  }
}
