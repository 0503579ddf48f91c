/**
 * The linear-scan index: a list of items searched front to back, keeping
 * the first item of strictly least distance. It is the reference the other
 * indexes are measured against.
 */
module LinearIndexes {
  import opened Wrappers
  import opened Nearest

  /**
   * The nearest indexed item to the query: an item of least
   * `measure(item, query)`, the earliest such item on ties, none when the
   * list is empty.
   */
  function LinearNearest<T>(items: seq<T>, query: T, measure: (T, T) -> int): (r: Option<T>)
    ensures r.None? <==> items == []
    ensures r.Some? ==> r.value in items
    ensures r.Some? ==> forall x :: x in items ==> measure(r.value, query) <= measure(x, query)
    ensures r.Some? ==>
      exists k :: 0 <= k < |items| && r.value == items[k] &&
        forall j :: 0 <= j < k ==> measure(items[j], query) > measure(r.value, query)
  {
    var ds := DistancesFrom(items, query, measure);
    LeastIsNearest(items, ds, query, measure);
    FirstNearest(items, ds)
  }

  /** An item at the first least distance is no farther than any item. */
  lemma LeastIsNearest<T>(items: seq<T>, ds: seq<int>, query: T, measure: (T, T) -> int)
    requires ds == DistancesFrom(items, query, measure)
    ensures forall k, x :: IsFirstLeast(ds, k) && x in items ==> measure(items[k], query) <= measure(x, query)
  {
    forall k, x | IsFirstLeast(ds, k) && x in items
      ensures measure(items[k], query) <= measure(x, query)
    {
      var j :| 0 <= j < |items| && items[j] == x;
      assert ds[k] <= ds[j];
    }
  }

  /**
   * Adding an item and searching again: the new item becomes the answer
   * exactly when the list was empty or it is strictly nearer than the
   * previous answer; otherwise the answer is unchanged.
   */
  lemma {:induction false} NearestAfterAdd<T>(items: seq<T>, x: T, query: T, measure: (T, T) -> int)
    ensures LinearNearest(items + [x], query, measure) ==
      if items == [] || measure(x, query) < measure(LinearNearest(items, query, measure).value, query)
      then Some(x) else LinearNearest(items, query, measure)
  {
    var ds := DistancesFrom(items, query, measure);
    var es := DistancesFrom(items + [x], query, measure);
    if items != [] {
      assert es == ds + [measure(x, query)];
      FirstLeastAppend(ds, measure(x, query));
    }
  }

  /**
   * The loop of `searchNearest`: the first distance measured is taken, and
   * afterwards an item replaces the best so far only when it is strictly
   * nearer. Distances are `measure(indexedItem, query)`.
   */
  method ScanNearest<T>(items: seq<T>, query: T, measure: (T, T) -> int) returns (closestItem: Option<T>)
    ensures closestItem == LinearNearest(items, query, measure)
  {
    var shortestDistance: Option<int> := None;
    closestItem := None;
    ghost var ds := DistancesFrom(items, query, measure);
    for i := 0 to |items|
      invariant shortestDistance.None? <==> i == 0
      invariant closestItem.None? <==> i == 0
      invariant i > 0 ==> shortestDistance.value == ds[FirstLeast(ds[..i])]
      invariant i > 0 ==> closestItem.value == items[FirstLeast(ds[..i])]
    {
      var otherItem := items[i];
      var distance := measure(otherItem, query);
      assert ds[..i + 1] == ds[..i] + [distance];
      if shortestDistance.None? {
        shortestDistance := Some(distance);
        closestItem := Some(otherItem);
      } else {
        FirstLeastAppend(ds[..i], distance);
        if distance < shortestDistance.value {
          shortestDistance := Some(distance);
          closestItem := Some(otherItem);
        }
      }
    }
    assert ds[..|items|] == ds;
  }

  /** `LinearIndex1DBase`: items in insertion order and a measurer. */
  class LinearIndex1DBase<T> {
    /** The measurer; the distance comparator is the natural order on the integer distances. */
    const measurer: (T, T) -> int
    /** The items, in the order they were added. */
    var items: seq<T>

    constructor (measurer: (T, T) -> int)
      ensures this.measurer == measurer && items == []
    {
      this.measurer := measurer;
      items := [];
    }

    /** `add`: appends the item; earlier items keep their places. */
    method Add(item: T)
      modifies this
      ensures items == old(items) + [item]
    {
      items := items + [item];
    }

    /** `searchNearest`: the linear scan over the items; nothing is changed. */
    method SearchNearest(item: T) returns (r: Option<T>)
      ensures r == LinearNearest(items, item, measurer)
    {
      r := ScanNearest(items, item, measurer);
    }
  }

  /** `io.nanovc.indexing.LinearIndex1D`: the same list and the same scan. */
  class LinearIndex1D<T> {
    /** The measurer; distances are compared in their natural order. */
    const measurer: (T, T) -> int
    /** The items, in the order they were added. */
    var items: seq<T>

    constructor (measurer: (T, T) -> int)
      ensures this.measurer == measurer && items == []
    {
      this.measurer := measurer;
      items := [];
    }

    /** `add`: appends the item. */
    method Add(item: T)
      modifies this
      ensures items == old(items) + [item]
    {
      items := items + [item];
    }

    /** `searchNearest`: the same first-nearest scan; nothing is changed. */
    method SearchNearest(item: T) returns (r: Option<T>)
      ensures r == LinearNearest(items, item, measurer)
    {
      r := ScanNearest(items, item, measurer);
    }
  }
}
