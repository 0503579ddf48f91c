/**
 * The in-memory bookkeeping of the repo-backed one-dimensional index: a map
 * from division index to the list of items held locally (absent or null
 * when there is none), and a map from division index to the sub-grid that
 * took over a division once its list reached the item threshold. Each
 * sub-grid is represented by the items handed to it, in order; what a
 * sub-grid does with them is its own `add`/`searchNearest`, which is not
 * part of this model, so its search is a parameter.
 */
module RepoIndexes1D {
  import opened Wrappers
  import opened JavaLang
  import opened Nearest
  import opened DivisionBounds
  import opened GridIndexes
  import ItemGlobalMaps

  /** The list of a division in a map of lists: null when absent. */
  function SlotAt<T>(items: map<Int32, Slot<T>>, divisionIndex: Int32): (r: Slot<T>)
    ensures r.Some? ==> divisionIndex in items && items[divisionIndex] == r
    ensures divisionIndex in items ==> r == items[divisionIndex]
  {
    if divisionIndex in items then items[divisionIndex] else None
  }

  /** The sub-grid of a division in a map of sub-grids: null when absent. */
  function SubGridAt<T>(subGrids: map<Int32, seq<T>>, divisionIndex: Int32): (r: Option<seq<T>>)
    ensures r.Some? <==> divisionIndex in subGrids
    ensures r.Some? ==> r.value == subGrids[divisionIndex]
  {
    if divisionIndex in subGrids then Some(subGrids[divisionIndex]) else None
  }

  /** All the items a division holds, in its sub-grid and in its local list. */
  function Held<T>(subGrid: Option<seq<T>>, slot: Slot<T>): (all: seq<T>)
    ensures |all| == (if subGrid.Some? then |subGrid.value| else 0) + |SlotItems(slot)|
  {
    (if subGrid.Some? then subGrid.value else []) + SlotItems(slot)
  }

  /** What a sub-grid's answer becomes: an exact match carries no distance. */
  function Measured<T(==)>(query: T, found: Option<T>, measure: (T, T) -> int): (r: Option<MeasuredItem<T>>)
    ensures r.None? <==> found.None?
    ensures r.Some? ==> r.value.item == found
    ensures r.Some? ==> (r.value.distance.None? <==> found.value == query)
    ensures r.Some? && r.value.distance.Some? ==> r.value.distance.value == measure(query, found.value)
  {
    match found
    case None => None
    case Some(f) => Some(MeasuredItem(Some(f), if f == query then None else Some(measure(query, f))))
  }

  /**
   * The outcome of `addItemToIndex(item, d)` from the maps `items0` and
   * `subGrids0` to `items1` and `subGrids1`, given whether the division is
   * wide enough for a sub-grid (`canSplit`).
   */
  ghost predicate AddOutcome<T>(items0: map<Int32, Slot<T>>, subGrids0: map<Int32, seq<T>>,
                                items1: map<Int32, Slot<T>>, subGrids1: map<Int32, seq<T>>,
                                item: T, d: Int32, maxItemThreshold: int, canSplit: Result<bool>, failure: Option<Failure>)
  {
    var local := items0[d := Some(SlotItems(SlotAt(items0, d)) + [item])];
    if d in subGrids0 then
      failure.None? && items1 == items0 && subGrids1 == subGrids0[d := subGrids0[d] + [item]]
    else if SlotAt(items0, d).None? || |SlotAt(items0, d).value| < maxItemThreshold then
      failure.None? && items1 == local && subGrids1 == subGrids0
    else if canSplit.Err? then
      failure == Some(IndexOutOfBounds) && items1 == items0 && subGrids1 == subGrids0
    else if canSplit.value then
      failure.None? && items1 == items0[d := None] && subGrids1 == subGrids0[d := SlotAt(items0, d).value + [item]]
    else
      failure.None? && items1 == local && subGrids1 == subGrids0
  }

  /**
   * Whether `addItemToIndex(item, d)` ends in `addItemToIndexLocal`: no
   * sub-grid, and either the list is below the threshold or the division
   * is too narrow for a sub-grid.
   */
  predicate AddsLocally<T>(items0: map<Int32, Slot<T>>, subGrids0: map<Int32, seq<T>>, d: Int32,
                           maxItemThreshold: int, canSplit: Result<bool>)
  {
    d !in subGrids0 &&
    (SlotAt(items0, d).None? || |SlotAt(items0, d).value| < maxItemThreshold || canSplit == Ok(false))
  }

  /**
   * Whatever `addItemToIndex(item, d)` does when it succeeds, division `d`
   * holds what it held plus the item, and every other division is as it was.
   */
  lemma AddKeepsItems<T>(items0: map<Int32, Slot<T>>, subGrids0: map<Int32, seq<T>>,
                         items1: map<Int32, Slot<T>>, subGrids1: map<Int32, seq<T>>,
                         item: T, d: Int32, maxItemThreshold: int, canSplit: Result<bool>, failure: Option<Failure>)
    requires AddOutcome(items0, subGrids0, items1, subGrids1, item, d, maxItemThreshold, canSplit, failure)
    ensures failure.None? ==>
      multiset(Held(SubGridAt(subGrids1, d), SlotAt(items1, d))) ==
      multiset(Held(SubGridAt(subGrids0, d), SlotAt(items0, d))) + multiset{item}
    ensures failure.Some? ==> items1 == items0 && subGrids1 == subGrids0
  {
    var before := Held(SubGridAt(subGrids0, d), SlotAt(items0, d));
    var after := Held(SubGridAt(subGrids1, d), SlotAt(items1, d));
    if d in subGrids0 {
      assert after == subGrids0[d] + [item] + SlotItems(SlotAt(items0, d));
      assert before == subGrids0[d] + SlotItems(SlotAt(items0, d));
    } else if SlotAt(items0, d).None? || |SlotAt(items0, d).value| < maxItemThreshold {
      assert after == SlotItems(SlotAt(items0, d)) + [item];
    } else if canSplit.Err? {
    } else if canSplit.value {
      assert after == SlotAt(items0, d).value + [item];
      assert before == SlotAt(items0, d).value;
    } else {
      assert after == SlotItems(SlotAt(items0, d)) + [item];
    }
  }

  /** `addItemToIndex(item, d)` changes no division but `d`. */
  lemma AddLeavesOthers<T>(items0: map<Int32, Slot<T>>, subGrids0: map<Int32, seq<T>>,
                           items1: map<Int32, Slot<T>>, subGrids1: map<Int32, seq<T>>,
                           item: T, d: Int32, maxItemThreshold: int, canSplit: Result<bool>, failure: Option<Failure>)
    requires AddOutcome(items0, subGrids0, items1, subGrids1, item, d, maxItemThreshold, canSplit, failure)
    ensures forall e :: e != d ==> SlotAt(items1, e) == SlotAt(items0, e) && SubGridAt(subGrids1, e) == SubGridAt(subGrids0, e)
  {
    forall e | e != d
      ensures SlotAt(items1, e) == SlotAt(items0, e) && SubGridAt(subGrids1, e) == SubGridAt(subGrids0, e)
    {
      assert e in items1 <==> e in items0;
      assert e in subGrids1 <==> e in subGrids0;
    }
  }

  /**
   * `new RepoIndex1DBase(...)`: a negative division count makes
   * `new ArrayList<>(divisions)` throw `IllegalArgumentException` before the
   * range splitter is called; any other count gives the constructed index.
   */
  method NewRepoIndex1D<T(==,!new)>(minRange: T, maxRange: T, divisions: Int32, measurer: (T, T) -> int,
                                   rangeSplitter: (T, T, Int32, bool) -> seq<T>, maxItemThreshold: int,
                                   smallestSplittingDistance: int, subGridSearch: (seq<T>, T) -> Option<T>,
                                   itemGlobalMap: ItemGlobalMaps.ItemGlobalMap<T>)
    returns (r: Result<RepoIndex1DBase<T>>)
    ensures r.Err? <==> divisions < 0
    ensures r.Err? ==> r.error == IllegalArgument
    ensures r.Ok? ==> fresh(r.value) && r.value.Initial(minRange, maxRange, divisions, measurer, rangeSplitter,
                                                        maxItemThreshold, smallestSplittingDistance, subGridSearch, itemGlobalMap)
  {
    if divisions < 0 {
      return Err(IllegalArgument);
    }
    var index := new RepoIndex1DBase(minRange, maxRange, divisions, measurer, rangeSplitter, maxItemThreshold,
                                     smallestSplittingDistance, subGridSearch, itemGlobalMap);
    return Ok(index);
  }

  class RepoIndex1DBase<T(==,!new)> {
    const minRange: T
    const maxRange: T
    const divisions: Int32
    /** The measurer; distances are compared in their natural order. */
    const measurer: (T, T) -> int
    /** The splits of the range, as the range splitter produced them. */
    const rangeSplits: seq<T>
    /** `maxItemThreshold`: the list length at which a division asks for a sub-grid. */
    const maxItemThreshold: int
    /** `smallestSplittingDistance`: no sub-grid for a division this narrow or narrower. */
    const smallestSplittingDistance: int
    /** A sub-grid's `searchNearest`, given the items handed to it. */
    const subGridSearch: (seq<T>, T) -> Option<T>
    /** The item map shared by the index and all its sub-grids. */
    const itemGlobalMap: ItemGlobalMaps.ItemGlobalMap<T>
    /** `items`: the local list of each division; absent or null when there is none. */
    var items: map<Int32, Slot<T>>
    /** `subGrids`: the items handed to the sub-grid of each division that has one. */
    var subGrids: map<Int32, seq<T>>

    /** The state the constructor leaves: the range is split (keeping the extra right-most split); no division holds anything. */
    ghost predicate Initial(minRange: T, maxRange: T, divisions: Int32, measurer: (T, T) -> int,
                            rangeSplitter: (T, T, Int32, bool) -> seq<T>, maxItemThreshold: int, smallestSplittingDistance: int,
                            subGridSearch: (seq<T>, T) -> Option<T>, itemGlobalMap: ItemGlobalMaps.ItemGlobalMap<T>)
      reads this
    {
      && this.minRange == minRange && this.maxRange == maxRange && this.divisions == divisions
      && this.measurer == measurer && this.maxItemThreshold == maxItemThreshold
      && this.smallestSplittingDistance == smallestSplittingDistance
      && this.subGridSearch == subGridSearch && this.itemGlobalMap == itemGlobalMap
      && rangeSplits == rangeSplitter(minRange, maxRange, divisions, true)
      && items == map[] && subGrids == map[]
    }

    /**
     * The constructor, for a division count that `new ArrayList<>(divisions)`
     * accepts; `NewRepoIndex1D` is the call with its exception.
     */
    constructor (minRange: T, maxRange: T, divisions: Int32, measurer: (T, T) -> int,
                 rangeSplitter: (T, T, Int32, bool) -> seq<T>, maxItemThreshold: int, smallestSplittingDistance: int,
                 subGridSearch: (seq<T>, T) -> Option<T>, itemGlobalMap: ItemGlobalMaps.ItemGlobalMap<T>)
      requires divisions >= 0
      ensures Initial(minRange, maxRange, divisions, measurer, rangeSplitter, maxItemThreshold, smallestSplittingDistance,
                      subGridSearch, itemGlobalMap)
    {
      this.minRange := minRange;
      this.maxRange := maxRange;
      this.divisions := divisions;
      this.measurer := measurer;
      this.rangeSplits := rangeSplitter(minRange, maxRange, divisions, true);
      this.maxItemThreshold := maxItemThreshold;
      this.smallestSplittingDistance := smallestSplittingDistance;
      this.subGridSearch := subGridSearch;
      this.itemGlobalMap := itemGlobalMap;
      this.items := map[];
      this.subGrids := map[];
    }

    /** `getItemsAtDivision`: the division's list, null when absent or cleared. */
    function GetItemsAtDivision(divisionIndex: Int32): (r: Slot<T>)
      reads this
      ensures r == SlotAt(items, divisionIndex)
    {
      SlotAt(items, divisionIndex)
    }

    /** `getSubGridAtDivision`: the division's sub-grid, null when it has none. */
    function GetSubGridAtDivision(divisionIndex: Int32): (r: Option<seq<T>>)
      reads this
      ensures r == SubGridAt(subGrids, divisionIndex)
    {
      SubGridAt(subGrids, divisionIndex)
    }

    /**
     * Whether the division is wide enough for a sub-grid: its bounds, read
     * through the clamps, are further apart than `smallestSplittingDistance`.
     * Reading a bound from an empty list of splits fails.
     */
    function CanSplit(divisionIndex: Int32): (r: Result<bool>)
      reads this
      ensures r.Err? <==> rangeSplits == []
      ensures r.Ok? ==> (r.value <==>
        smallestSplittingDistance < measurer(DivisionMin(rangeSplits, divisionIndex).value,
                                             DivisionMax(rangeSplits, divisionIndex).value))
    {
      var divisionMinRange := DivisionMin(rangeSplits, divisionIndex);
      if divisionMinRange.Err? then Err(divisionMinRange.error)
      else
        var divisionMaxRange := DivisionMax(rangeSplits, divisionIndex);
        Ok(smallestSplittingDistance < measurer(divisionMinRange.value, divisionMaxRange.value))
    }

    /**
     * `getOrCreateItemsAtDivision`: a division with no list gets a new
     * empty one; a division with a list keeps it. The list is returned.
     */
    method GetOrCreateItemsAtDivision(divisionIndex: Int32) returns (list: seq<T>)
      modifies this`items
      ensures list == SlotItems(SlotAt(old(items), divisionIndex))
      ensures items == old(items)[divisionIndex := Some(list)]
    {
      var itemsAtDivision := GetItemsAtDivision(divisionIndex);
      if itemsAtDivision.None? {
        list := [];
        items := items[divisionIndex := Some(list)];
      } else {
        list := itemsAtDivision.value;
      }
    }

    /**
     * `clearItemsAtDivision`: the division's list becomes null. Walking a
     * division that has no list fails, and then nothing changes.
     */
    method ClearItemsAtDivision(divisionIndex: Int32) returns (failure: Option<Failure>)
      modifies this`items
      ensures failure.Some? <==> SlotAt(old(items), divisionIndex).None?
      ensures failure.Some? ==> failure.value == NullPointer && items == old(items)
      ensures failure.None? ==> items == old(items)[divisionIndex := None]
    {
      var itemsAtDivision := GetItemsAtDivision(divisionIndex);
      if itemsAtDivision.None? {
        return Some(NullPointer);
      }
      items := items[divisionIndex := None];
      failure := None;
    }

    /**
     * `addItemToIndexLocal`: the item is appended to the division's list
     * (created if needed) and registered in the global item map.
     */
    method AddItemToIndexLocal(item: T, divisionIndex: Int32)
      requires itemGlobalMap.Valid()
      modifies this`items, itemGlobalMap
      ensures items == old(items)[divisionIndex := Some(SlotItems(SlotAt(old(items), divisionIndex)) + [item])]
      ensures itemGlobalMap.Valid() && item in itemGlobalMap.items
      ensures itemGlobalMap.items == old(itemGlobalMap.items) + (if item in old(itemGlobalMap.items) then [] else [item])
    {
      var itemsAtDivision := GetOrCreateItemsAtDivision(divisionIndex);
      var itemKey := itemGlobalMap.Add(item);
      items := items[divisionIndex := Some(itemsAtDivision + [item])];
    }

    /**
     * `getOrCreateSubGridAtDivision`: an existing sub-grid is kept. Otherwise
     * a division too narrow to split gets none (answer `false`) and nothing
     * changes; a wider one gets a new sub-grid, every item of its list is
     * handed to it in order, and the list becomes null. Reading the bounds
     * from an empty list of splits fails, and so does walking a list that
     * is not there (after the sub-grid was registered).
     */
    method GetOrCreateSubGridAtDivision(divisionIndex: Int32) returns (r: Result<bool>)
      modifies this`items, this`subGrids
      ensures old(divisionIndex in subGrids) ==> r == Ok(true) && items == old(items) && subGrids == old(subGrids)
      ensures old(divisionIndex !in subGrids) && CanSplit(divisionIndex).Err? ==>
        r == Err(IndexOutOfBounds) && items == old(items) && subGrids == old(subGrids)
      ensures old(divisionIndex !in subGrids) && CanSplit(divisionIndex) == Ok(false) ==>
        r == Ok(false) && items == old(items) && subGrids == old(subGrids)
      ensures old(divisionIndex !in subGrids) && CanSplit(divisionIndex) == Ok(true) &&
              SlotAt(old(items), divisionIndex).None? ==>
        r == Err(NullPointer) && items == old(items) && subGrids == old(subGrids)[divisionIndex := []]
      ensures old(divisionIndex !in subGrids) && CanSplit(divisionIndex) == Ok(true) &&
              SlotAt(old(items), divisionIndex).Some? ==>
        r == Ok(true) && items == old(items)[divisionIndex := None] &&
        subGrids == old(subGrids)[divisionIndex := SlotAt(old(items), divisionIndex).value]
      ensures r.Ok? ==>
        Held(SubGridAt(subGrids, divisionIndex), SlotAt(items, divisionIndex)) ==
        Held(SubGridAt(old(subGrids), divisionIndex), SlotAt(old(items), divisionIndex))
    {
      if divisionIndex in subGrids {
        return Ok(true);
      }
      var canSplit := CanSplit(divisionIndex);
      if canSplit.Err? {
        return Err(canSplit.error);
      }
      if !canSplit.value {
        return Ok(false);
      }
      subGrids := subGrids[divisionIndex := []];
      var itemsAtDivision := GetItemsAtDivision(divisionIndex);
      if itemsAtDivision.None? {
        return Err(NullPointer);
      }
      var list := itemsAtDivision.value;
      for i := 0 to |list|
        invariant subGrids == old(subGrids)[divisionIndex := list[..i]]
        invariant items == old(items)
      {
        subGrids := subGrids[divisionIndex := subGrids[divisionIndex] + [list[i]]];
        assert list[..i + 1] == list[..i] + [list[i]];
      }
      assert list[..|list|] == list;
      var failure := ClearItemsAtDivision(divisionIndex);
      r := Ok(true);
    }

    /**
     * `addItemToIndex`: a division with a sub-grid hands the item to it. A
     * division with no list, or fewer than `maxItemThreshold` items, keeps
     * it locally. A full division asks for a sub-grid and hands the item to
     * it, or keeps the item locally when it is too narrow to split. Either
     * way no item of the division is lost.
     */
    method AddItemToIndex(item: T, divisionIndex: Int32) returns (failure: Option<Failure>)
      requires itemGlobalMap.Valid()
      modifies this`items, this`subGrids, itemGlobalMap
      ensures itemGlobalMap.Valid()
      ensures AddOutcome(old(items), old(subGrids), items, subGrids, item, divisionIndex, maxItemThreshold,
                         CanSplit(divisionIndex), failure)
      ensures itemGlobalMap.items == old(itemGlobalMap.items) +
        (if AddsLocally(old(items), old(subGrids), divisionIndex, maxItemThreshold, CanSplit(divisionIndex))
            && item !in old(itemGlobalMap.items) then [item] else [])
    {
      var existingSubGrid := GetSubGridAtDivision(divisionIndex);
      if existingSubGrid.Some? {
        subGrids := subGrids[divisionIndex := existingSubGrid.value + [item]];
        return None;
      }
      var itemsAtDivision := GetItemsAtDivision(divisionIndex);
      if itemsAtDivision.None? || |itemsAtDivision.value| < maxItemThreshold {
        AddItemToIndexLocal(item, divisionIndex);
        return None;
      }
      var subGrid := GetOrCreateSubGridAtDivision(divisionIndex);
      if subGrid.Err? {
        return Some(subGrid.error);
      }
      if subGrid.value {
        subGrids := subGrids[divisionIndex := subGrids[divisionIndex] + [item]];
      } else {
        AddItemToIndexLocal(item, divisionIndex);
      }
      failure := None;
    }

    /**
     * `searchNearestAtIndexLocal`: nothing for a division with no list;
     * otherwise the scan of the list, stopping at an equal item.
     */
    method SearchNearestAtIndexLocal(item: T, divisionIndex: Int32) returns (r: Option<MeasuredItem<T>>)
      ensures r == SlotNearest(item, GetItemsAtDivision(divisionIndex), measurer)
    {
      var itemsAtDivision := GetItemsAtDivision(divisionIndex);
      if itemsAtDivision.None? {
        return None;
      }
      var list := itemsAtDivision.value;
      var bestItemSoFar: Option<T> := None;
      var bestDistanceSoFar: Option<int> := None;
      ghost var ds := DistancesTo(list, item, measurer);
      for i := 0 to |list|
        invariant item !in list[..i]
        invariant bestItemSoFar.None? <==> i == 0
        invariant bestDistanceSoFar.None? <==> i == 0
        invariant i > 0 ==> bestItemSoFar == Some(list[FirstLeast(ds[..i])])
        invariant i > 0 ==> bestDistanceSoFar == Some(ds[FirstLeast(ds[..i])])
      {
        var indexedItem := list[i];
        if item == indexedItem {
          return Some(MeasuredItem(Some(indexedItem), None));
        }
        var distance := measurer(item, indexedItem);
        assert ds[..i + 1] == ds[..i] + [distance];
        assert list[..i + 1] == list[..i] + [indexedItem];
        if bestDistanceSoFar.None? || distance < bestDistanceSoFar.value {
          if bestDistanceSoFar.Some? {
            FirstLeastAppend(ds[..i], distance);
          }
          bestItemSoFar := Some(indexedItem);
          bestDistanceSoFar := Some(distance);
        } else {
          FirstLeastAppend(ds[..i], distance);
        }
      }
      assert list[..|list|] == list && ds[..|list|] == ds;
      r := Some(MeasuredItem(bestItemSoFar, bestDistanceSoFar));
    }

    /**
     * `searchNearestAtIndex`: a division with a sub-grid asks it and
     * measures the distance only to an answer that differs from the query;
     * otherwise the local scan.
     */
    method SearchNearestAtIndex(item: T, divisionIndex: Int32) returns (r: Option<MeasuredItem<T>>)
      ensures divisionIndex in subGrids ==> r == Measured(item, subGridSearch(subGrids[divisionIndex], item), measurer)
      ensures divisionIndex !in subGrids ==> r == SlotNearest(item, GetItemsAtDivision(divisionIndex), measurer)
      ensures r.Some? && r.value.distance.None? && r.value.item.Some? ==> r.value.item.value == item
      ensures r.Some? && r.value.distance.Some? ==> r.value.item.Some? && r.value.distance.value == measurer(item, r.value.item.value)
    {
      var existingSubGrid := GetSubGridAtDivision(divisionIndex);
      if existingSubGrid.Some? {
        var foundItem := subGridSearch(existingSubGrid.value, item);
        if foundItem.Some? {
          var distance: Option<int> := None;
          if foundItem.value != item {
            distance := Some(measurer(item, foundItem.value));
          }
          return Some(MeasuredItem(foundItem, distance));
        }
        return None;
      }
      r := SearchNearestAtIndexLocal(item, divisionIndex);
    }
  }
}
