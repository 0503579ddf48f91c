/**
 * The one-dimensional grid index: a fixed number of division slots, each
 * either empty (never used, or cleared) or holding the list of items that
 * the range finder placed in that division. A search consults the query's
 * own slot and the nearest used slots below and above it.
 */
module GridIndexes {
  import opened Wrappers
  import opened JavaLang
  import opened Nearest
  import opened DivisionBounds

  /** A slot of the grid: `None` for a null list. */
  type Slot<T> = Option<seq<T>>

  /** The items a slot holds; a null slot holds none. */
  function SlotItems<T>(slot: Slot<T>): seq<T>
  {
    if slot.None? then [] else slot.value
  }

  /**
   * `MeasuredItem`: an item with its distance to the query, where a missing
   * distance marks an exact match.
   */
  datatype MeasuredItem<T> = MeasuredItem(item: Option<T>, distance: Option<int>)

  /**
   * `searchNearestAtIndex` on a slot's list: an item equal to the query is
   * an exact match (no distance); otherwise the first item of least
   * distance `measure(query, item)`, with that distance. A list that exists
   * but is empty gives neither an item nor a distance.
   */
  function ListNearest<T(==)>(query: T, list: seq<T>, measure: (T, T) -> int): (r: MeasuredItem<T>)
    ensures query in list ==> r == MeasuredItem(Some(query), None)
    ensures list == [] ==> r == MeasuredItem(None, None)
    ensures query !in list && list != [] ==>
      r.item.Some? && r.distance == Some(measure(query, r.item.value)) &&
      IsFirstNearestTo(query, list, r.item.value, measure)
    ensures r.distance.Some? ==> forall y :: y in list ==> r.distance.value <= measure(query, y)
  {
    if query in list then MeasuredItem(Some(query), None)
    else if list == [] then MeasuredItem(None, None)
    else
      var ds := DistancesTo(list, query, measure);
      var k := FirstLeast(ds);
      assert forall y :: y in list ==> exists j :: 0 <= j < |list| && y == list[j] && ds[k] <= ds[j];
      MeasuredItem(Some(list[k]), Some(ds[k]))
  }

  /** The search of one slot: nothing for a null slot. */
  function SlotNearest<T(==)>(query: T, slot: Slot<T>, measure: (T, T) -> int): (r: Option<MeasuredItem<T>>)
    ensures r.None? <==> slot.None?
  {
    if slot.None? then None else Some(ListNearest(query, slot.value, measure))
  }

  /** A slot result that is an exact match. */
  predicate IsExact<T>(m: Option<MeasuredItem<T>>)
  {
    m.Some? && m.value.distance.None?
  }

  /**
   * The highest used slot at or below `k`, stopping at slot 0 whether it is
   * used or not.
   */
  function LastUsedDownFrom<T>(slots: seq<Slot<T>>, k: int): (p: int)
    requires 0 <= k < |slots|
    ensures 0 <= p <= k
    ensures p > 0 ==> slots[p].Some?
    ensures forall j :: p < j <= k ==> slots[j].None?
    decreases k
  {
    if k == 0 || slots[k].Some? then k else LastUsedDownFrom(slots, k - 1)
  }

  /**
   * The slot searched below `index`: none (-1) at the left edge; otherwise
   * the nearest used slot below `index`, or slot 0 when every slot between
   * is empty.
   */
  function PreviousSlot<T>(slots: seq<Slot<T>>, index: int): (p: int)
    requires 0 <= index < |slots|
    ensures -1 <= p < index
    ensures p == -1 <==> index == 0
    ensures p > 0 ==> slots[p].Some?
    ensures forall j :: p < j < index && 0 < j ==> slots[j].None?
  {
    if index == 0 then -1 else LastUsedDownFrom(slots, index - 1)
  }

  /** The lowest used slot at or above `k`, or `|slots|` when there is none. */
  function FirstUsedUpFrom<T>(slots: seq<Slot<T>>, k: int): (n: int)
    requires 0 <= k <= |slots|
    ensures k <= n <= |slots|
    ensures n < |slots| ==> slots[n].Some?
    ensures forall j :: k <= j < n ==> slots[j].None?
    decreases |slots| - k
  {
    if k == |slots| || slots[k].Some? then k else FirstUsedUpFrom(slots, k + 1)
  }

  /** The slot searched above `index`: the nearest used one, or `|slots|` for none. */
  function NextSlot<T>(slots: seq<Slot<T>>, index: int): (n: int)
    requires 0 <= index < |slots|
    ensures index < n <= |slots|
    ensures n < |slots| ==> slots[n].Some?
    ensures forall j :: index < j < n ==> slots[j].None?
  {
    FirstUsedUpFrom(slots, index + 1)
  }

  /**
   * The choice among the three non-exact slot results once no exact match
   * was found: the own slot wins every tie, the previous slot wins a tie
   * with the next slot only when it has beaten the own slot, and the next
   * slot wins a tie with the previous slot when the own slot has nothing.
   */
  function Choose<T>(own: Option<MeasuredItem<T>>, prev: Option<MeasuredItem<T>>, next: Option<MeasuredItem<T>>): (c: Option<MeasuredItem<T>>)
    requires own.Some? ==> own.value.distance.Some?
    requires prev.Some? ==> prev.value.distance.Some?
    requires next.Some? ==> next.value.distance.Some?
    ensures c.None? <==> own.None? && prev.None? && next.None?
    ensures c.Some? ==> c == own || c == prev || c == next
    ensures c.Some? && own.Some? ==> c.value.distance.value <= own.value.distance.value
    ensures c.Some? && prev.Some? ==> c.value.distance.value <= prev.value.distance.value
    ensures c.Some? && next.Some? ==> c.value.distance.value <= next.value.distance.value
    ensures (own.Some? && (prev.Some? ==> own.value.distance.value <= prev.value.distance.value) &&
             (next.Some? ==> own.value.distance.value <= next.value.distance.value)) ==> c == own
    ensures (own.None? && prev.Some? && next.Some? &&
             prev.value.distance.value == next.value.distance.value) ==> c == next
    ensures (own.Some? && prev.Some? && next.Some? && prev.value.distance.value < own.value.distance.value &&
             prev.value.distance.value == next.value.distance.value) ==> c == prev
  {
    if own.None? then
      if prev.None? then next
      else if next.None? then prev
      else if prev.value.distance.value < next.value.distance.value then prev
      else next
    else if prev.None? then
      if next.None? then own
      else if own.value.distance.value <= next.value.distance.value then own
      else next
    else if next.None? then
      if own.value.distance.value <= prev.value.distance.value then own
      else prev
    else if own.value.distance.value <= prev.value.distance.value then
      if own.value.distance.value <= next.value.distance.value then own
      else next
    else if prev.value.distance.value <= next.value.distance.value then prev
    else next
  }

  /**
   * `searchNearest`: the item of the first exact match among the own,
   * previous and next slots in that order, or else the item of the slot
   * result that `Choose` picks.
   */
  function GridNearest<T(==)>(slots: seq<Slot<T>>, index: int, query: T, measure: (T, T) -> int): (r: Option<T>)
    requires 0 <= index < |slots|
  {
    var own := SlotNearest(query, slots[index], measure);
    if IsExact(own) then own.value.item
    else
      var p := PreviousSlot(slots, index);
      var prev := if p >= 0 then SlotNearest(query, slots[p], measure) else None;
      if IsExact(prev) then prev.value.item
      else
        var n := NextSlot(slots, index);
        var next := if n < |slots| then SlotNearest(query, slots[n], measure) else None;
        if IsExact(next) then next.value.item
        else
          var c := Choose(own, prev, next);
          if c.None? then None else c.value.item
  }

  /** The items of the slots a search from `index` consults: own slot, previous, next. */
  function ConsultedItems<T>(slots: seq<Slot<T>>, index: int): seq<T>
    requires 0 <= index < |slots|
  {
    var p := PreviousSlot(slots, index);
    var n := NextSlot(slots, index);
    SlotItems(slots[index])
    + (if p >= 0 then SlotItems(slots[p]) else [])
    + (if n < |slots| then SlotItems(slots[n]) else [])
  }

  /** Every slot that exists holds at least one item, as `add` leaves them. */
  predicate NoEmptyList<T>(slots: seq<Slot<T>>)
  {
    forall i :: 0 <= i < |slots| ==> slots[i] != Some([])
  }

  /**
   * With no empty lists, the search finds nothing exactly when the
   * consulted slots hold nothing (that is, all three are null).
   */
  lemma GridNearestNone<T>(slots: seq<Slot<T>>, index: int, query: T, measure: (T, T) -> int)
    requires 0 <= index < |slots|
    requires NoEmptyList(slots)
    ensures GridNearest(slots, index, query, measure).None? <==> ConsultedItems(slots, index) == []
  {
    var p := PreviousSlot(slots, index);
    var n := NextSlot(slots, index);
    var own := SlotNearest(query, slots[index], measure);
    var prev := if p >= 0 then SlotNearest(query, slots[p], measure) else None;
    var next := if n < |slots| then SlotNearest(query, slots[n], measure) else None;
    assert own.Some? ==> own.value.item.Some? && SlotItems(slots[index]) != [];
    assert prev.Some? ==> prev.value.item.Some? && SlotItems(slots[p]) != [];
    assert next.Some? ==> next.value.item.Some? && SlotItems(slots[n]) != [];
    if IsExact(own) || IsExact(prev) || IsExact(next) {
    } else {
      var c := Choose(own, prev, next);
      assert c.Some? ==> c.value.item.Some?;
    }
  }

  /** An item equal to the query in any consulted slot is what the search returns. */
  lemma GridNearestExact<T>(slots: seq<Slot<T>>, index: int, query: T, measure: (T, T) -> int)
    requires 0 <= index < |slots|
    requires NoEmptyList(slots)
    requires query in ConsultedItems(slots, index)
    ensures GridNearest(slots, index, query, measure) == Some(query)
  {
  }

  /**
   * Without an exact match among the consulted slots (and with no empty
   * lists), a found item is a consulted item and no consulted item is
   * strictly nearer to the query.
   */
  lemma GridNearestIsNearest<T>(slots: seq<Slot<T>>, index: int, query: T, measure: (T, T) -> int)
    requires 0 <= index < |slots|
    requires NoEmptyList(slots)
    requires query !in ConsultedItems(slots, index)
    ensures GridNearest(slots, index, query, measure).Some? ==>
      GridNearest(slots, index, query, measure).value in ConsultedItems(slots, index)
    ensures GridNearest(slots, index, query, measure).Some? ==>
      forall y :: y in ConsultedItems(slots, index) ==>
        measure(query, GridNearest(slots, index, query, measure).value) <= measure(query, y)
  {
    var p := PreviousSlot(slots, index);
    var n := NextSlot(slots, index);
    var own := SlotNearest(query, slots[index], measure);
    var prev := if p >= 0 then SlotNearest(query, slots[p], measure) else None;
    var next := if n < |slots| then SlotNearest(query, slots[n], measure) else None;
    var prevItems := if p >= 0 then SlotItems(slots[p]) else [];
    var nextItems := if n < |slots| then SlotItems(slots[n]) else [];
    SlotMeasured(query, slots[index], measure);
    if p >= 0 { SlotMeasured(query, slots[p], measure); }
    if n < |slots| { SlotMeasured(query, slots[n], measure); }
    assert !IsExact(own) && !IsExact(prev) && !IsExact(next);
    ChooseNearest(query, own, prev, next, SlotItems(slots[index]), prevItems, nextItems, measure);
  }

  /**
   * A slot result `r` answers for the slot items `items` without an exact
   * match: nothing for no items, else one of them with its distance, which
   * no item of the slot beats.
   */
  ghost predicate MeasuredAnswer<T>(query: T, r: Option<MeasuredItem<T>>, items: seq<T>, measure: (T, T) -> int)
  {
    (r.None? ==> items == []) &&
    (r.Some? ==>
       r.value.item.Some? && r.value.item.value in items && r.value.distance.Some? &&
       r.value.distance.value == measure(query, r.value.item.value) &&
       forall y :: y in items ==> r.value.distance.value <= measure(query, y))
  }

  /** A slot holding items other than the query is answered with a measured item. */
  lemma SlotMeasured<T>(query: T, slot: Slot<T>, measure: (T, T) -> int)
    requires slot != Some([]) && query !in SlotItems(slot)
    ensures MeasuredAnswer(query, SlotNearest(query, slot, measure), SlotItems(slot), measure)
  {
  }

  /**
   * The answer `Choose` picks among three measured answers is an item of
   * the three slots that none of their items beats.
   */
  lemma ChooseNearest<T>(query: T, own: Option<MeasuredItem<T>>, prev: Option<MeasuredItem<T>>, next: Option<MeasuredItem<T>>,
                         ownItems: seq<T>, prevItems: seq<T>, nextItems: seq<T>, measure: (T, T) -> int)
    requires MeasuredAnswer(query, own, ownItems, measure)
    requires MeasuredAnswer(query, prev, prevItems, measure)
    requires MeasuredAnswer(query, next, nextItems, measure)
    ensures var c := Choose(own, prev, next);
      c.Some? ==>
        c.value.item.Some? && c.value.item.value in ownItems + prevItems + nextItems &&
        forall y :: y in ownItems + prevItems + nextItems ==> measure(query, c.value.item.value) <= measure(query, y)
  {
  }

  /**
   * `new GridIndex1DBase(...)`: a negative division count makes the first
   * `new ArrayList<>(divisions)` throw `IllegalArgumentException` before the
   * range splitter is called; any other count gives the constructed grid.
   */
  method NewGridIndex<T>(minRange: T, maxRange: T, divisions: Int32, measurer: (T, T) -> int,
                         rangeSplitter: (T, T, Int32, bool) -> seq<T>, rangeFinder: (T, T, Int32, T) -> int)
    returns (r: Result<GridIndex1DBase<T>>)
    ensures r.Err? <==> divisions < 0
    ensures r.Err? ==> r.error == IllegalArgument
    ensures r.Ok? ==> fresh(r.value) && r.value.Initial(minRange, maxRange, divisions, measurer, rangeSplitter, rangeFinder)
  {
    if divisions < 0 {
      return Err(IllegalArgument);
    }
    var grid := new GridIndex1DBase(minRange, maxRange, divisions, measurer, rangeSplitter, rangeFinder);
    return Ok(grid);
  }

  /** `GridIndex1DBase`: the grid of slots over a split range. */
  class GridIndex1DBase<T(==)> {
    const minRange: T
    const maxRange: T
    const divisions: Int32
    /** The measurer; distances are compared in their natural order. */
    const measurer: (T, T) -> int
    /**
     * The range finder's `findIndexInRange(minRange, maxRange, divisions,
     * item)`.
     */
    const rangeFinder: (T, T, Int32, T) -> int
    /** The splits of the range, as the range splitter produced them. */
    const rangeSplits: seq<T>
    /** The slots of the grid, one per division. */
    var items: seq<Slot<T>>

    /** The division of an item, as the range finder computes it. */
    function DivisionOf(item: T): int
    {
      rangeFinder(minRange, maxRange, divisions, item)
    }

    /**
     * The state the constructor leaves: the range is split (keeping the extra
     * right-most split) and the grid has one null slot per division.
     */
    ghost predicate Initial(minRange: T, maxRange: T, divisions: Int32, measurer: (T, T) -> int,
                            rangeSplitter: (T, T, Int32, bool) -> seq<T>, rangeFinder: (T, T, Int32, T) -> int)
      reads this
    {
      && this.minRange == minRange && this.maxRange == maxRange && this.divisions == divisions
      && this.measurer == measurer && this.rangeFinder == rangeFinder
      && rangeSplits == rangeSplitter(minRange, maxRange, divisions, true)
      && |items| == divisions && (forall i :: 0 <= i < |items| ==> items[i].None?)
    }

    /**
     * The constructor, for a division count that `new ArrayList<>(divisions)`
     * accepts; `NewGridIndex` is the call with its exception.
     */
    constructor (minRange: T, maxRange: T, divisions: Int32, measurer: (T, T) -> int,
                 rangeSplitter: (T, T, Int32, bool) -> seq<T>, rangeFinder: (T, T, Int32, T) -> int)
      requires divisions >= 0
      ensures Initial(minRange, maxRange, divisions, measurer, rangeSplitter, rangeFinder)
    {
      this.minRange := minRange;
      this.maxRange := maxRange;
      this.divisions := divisions;
      this.measurer := measurer;
      this.rangeFinder := rangeFinder;
      this.rangeSplits := rangeSplitter(minRange, maxRange, divisions, true);
      var grid: seq<Slot<T>> := [];
      for i := 0 to divisions
        invariant |grid| == i && forall j :: 0 <= j < i ==> grid[j].None?
      {
        grid := grid + [None];
      }
      this.items := grid;
    }

    /** `getDivisionMinRange`. */
    function GetDivisionMinRange(divisionIndex: Int32): (r: Result<T>)
      ensures r == DivisionMin(rangeSplits, divisionIndex)
    {
      DivisionMin(rangeSplits, divisionIndex)
    }

    /** `getDivisionMaxRange`. */
    function GetDivisionMaxRange(divisionIndex: Int32): (r: Result<T>)
      ensures r == DivisionMax(rangeSplits, divisionIndex)
    {
      DivisionMax(rangeSplits, divisionIndex)
    }

    /** `getItemsAtDivision`: the slot as it is, null or not. */
    function GetItemsAtDivision(divisionIndex: int): (r: Slot<T>)
      requires 0 <= divisionIndex < |items|
      reads this
      ensures r == items[divisionIndex]
    {
      items[divisionIndex]
    }

    /**
     * `getOrCreateItemsAtDivision`: a null slot gets an empty list; a slot
     * that has a list keeps it. The list is returned.
     */
    method GetOrCreateItemsAtDivision(divisionIndex: int) returns (list: seq<T>)
      requires 0 <= divisionIndex < |items|
      modifies this
      ensures list == SlotItems(old(items)[divisionIndex])
      ensures items == old(items)[divisionIndex := Some(list)]
    {
      var itemsAtDivision := GetItemsAtDivision(divisionIndex);
      if itemsAtDivision.None? {
        items := items[divisionIndex := Some([])];
        list := [];
      } else {
        list := itemsAtDivision.value;
      }
    }

    /** `addItemToIndex`: appends the item to the slot's list, creating the list if needed. */
    method AddItemToIndex(item: T, divisionIndex: int)
      requires 0 <= divisionIndex < |items|
      modifies this
      ensures items == old(items)[divisionIndex := Some(SlotItems(old(items)[divisionIndex]) + [item])]
    {
      var itemsAtDivision := GetOrCreateItemsAtDivision(divisionIndex);
      items := items[divisionIndex := Some(itemsAtDivision + [item])];
    }

    /** `add`: the item goes to the slot of its division; no other slot changes. */
    method Add(item: T)
      requires 0 <= DivisionOf(item) < |items|
      modifies this
      ensures items == old(items)[DivisionOf(item) := Some(SlotItems(old(items)[DivisionOf(item)]) + [item])]
    {
      var index := rangeFinder(minRange, maxRange, divisions, item);
      AddItemToIndex(item, index);
    }

    /** `clearItemsAtDivision`: only that slot becomes null. */
    method ClearItemsAtDivision(divisionIndex: int)
      requires 0 <= divisionIndex < |items|
      modifies this
      ensures items == old(items)[divisionIndex := None]
    {
      items := items[divisionIndex := None];
    }

    /** `searchNearestAtIndex`: the scan of one slot's list, stopping at an equal item. */
    method SearchNearestAtIndex(item: T, divisionIndex: int) returns (r: Option<MeasuredItem<T>>)
      requires 0 <= divisionIndex < |items|
      ensures r == SlotNearest(item, items[divisionIndex], measurer)
    {
      var slot := items[divisionIndex];
      if slot.None? {
        return None;
      }
      var list := slot.value;
      var bestItemSoFar: Option<T> := None;
      var bestDistanceSoFar: Option<int> := None;
      ghost var ds := DistancesTo(list, item, measurer);
      for i := 0 to |list|
        invariant item !in list[..i]
        invariant bestItemSoFar.None? <==> i == 0
        invariant bestDistanceSoFar.None? <==> i == 0
        invariant i > 0 ==> bestItemSoFar == Some(list[FirstLeast(ds[..i])])
        invariant i > 0 ==> bestDistanceSoFar == Some(ds[FirstLeast(ds[..i])])
      {
        var indexedItem := list[i];
        if item == indexedItem {
          return Some(MeasuredItem(Some(indexedItem), None));
        }
        var distance := measurer(item, indexedItem);
        assert ds[..i + 1] == ds[..i] + [distance];
        assert list[..i + 1] == list[..i] + [indexedItem];
        if bestDistanceSoFar.None? {
          bestItemSoFar := Some(indexedItem);
          bestDistanceSoFar := Some(distance);
        } else {
          FirstLeastAppend(ds[..i], distance);
          if distance < bestDistanceSoFar.value {
            bestItemSoFar := Some(indexedItem);
            bestDistanceSoFar := Some(distance);
          }
        }
      }
      assert list[..|list|] == list && ds[..|list|] == ds;
      r := Some(MeasuredItem(bestItemSoFar, bestDistanceSoFar));
    }

    /**
     * `searchNearest`: searches the own slot, walks down to the previous
     * used slot and up to the next one, returns at once on an exact match
     * and otherwise picks among the three results.
     */
    method SearchNearest(item: T) returns (r: Option<T>)
      requires |items| == divisions
      requires 0 <= DivisionOf(item) < |items|
      ensures r == GridNearest(items, DivisionOf(item), item, measurer)
    {
      var index := rangeFinder(minRange, maxRange, divisions, item);
      var previousIndex := index - 1;
      var nextIndex := index + 1;
      var nearestItemAtIndex := SearchNearestAtIndex(item, index);
      if IsExact(nearestItemAtIndex) {
        return nearestItemAtIndex.value.item;
      }
      while previousIndex > 0
        invariant -1 <= previousIndex < index
        invariant PreviousSlot(items, index) == if previousIndex == -1 then -1 else LastUsedDownFrom(items, previousIndex)
        decreases previousIndex
      {
        if items[previousIndex].Some? {
          break;
        }
        previousIndex := previousIndex - 1;
      }
      var nearestItemAtPreviousIndex: Option<MeasuredItem<T>>;
      if previousIndex >= 0 {
        nearestItemAtPreviousIndex := SearchNearestAtIndex(item, previousIndex);
        if IsExact(nearestItemAtPreviousIndex) {
          return nearestItemAtPreviousIndex.value.item;
        }
      } else {
        nearestItemAtPreviousIndex := None;
      }
      while nextIndex < divisions
        invariant index < nextIndex <= divisions
        invariant NextSlot(items, index) == FirstUsedUpFrom(items, nextIndex)
        decreases divisions - nextIndex
      {
        if items[nextIndex].Some? {
          break;
        }
        nextIndex := nextIndex + 1;
      }
      var nearestItemAtNextIndex: Option<MeasuredItem<T>>;
      if nextIndex < divisions {
        nearestItemAtNextIndex := SearchNearestAtIndex(item, nextIndex);
        if IsExact(nearestItemAtNextIndex) {
          return nearestItemAtNextIndex.value.item;
        }
      } else {
        nearestItemAtNextIndex := None;
      }
      r := Decide(nearestItemAtIndex, nearestItemAtPreviousIndex, nearestItemAtNextIndex);
    }

    /** The decision cascade of `searchNearest` over the three non-exact results. */
    method Decide(nearestItemAtIndex: Option<MeasuredItem<T>>, nearestItemAtPreviousIndex: Option<MeasuredItem<T>>,
                  nearestItemAtNextIndex: Option<MeasuredItem<T>>) returns (r: Option<T>)
      requires nearestItemAtIndex.Some? ==> nearestItemAtIndex.value.distance.Some?
      requires nearestItemAtPreviousIndex.Some? ==> nearestItemAtPreviousIndex.value.distance.Some?
      requires nearestItemAtNextIndex.Some? ==> nearestItemAtNextIndex.value.distance.Some?
      ensures var c := Choose(nearestItemAtIndex, nearestItemAtPreviousIndex, nearestItemAtNextIndex);
        r == if c.None? then None else c.value.item
    {
      var own, prev, next := nearestItemAtIndex, nearestItemAtPreviousIndex, nearestItemAtNextIndex;
      if own.None? {
        if prev.None? {
          if next.None? {
            r := None;
          } else {
            r := next.value.item;
          }
        } else if next.None? {
          r := prev.value.item;
        } else if prev.value.distance.value < next.value.distance.value {
          r := prev.value.item;
        } else {
          r := next.value.item;
        }
      } else if prev.None? {
        if next.None? {
          r := own.value.item;
        } else if own.value.distance.value <= next.value.distance.value {
          r := own.value.item;
        } else {
          r := next.value.item;
        }
      } else if next.None? {
        if own.value.distance.value <= prev.value.distance.value {
          r := own.value.item;
        } else {
          r := prev.value.item;
        }
      } else if own.value.distance.value <= prev.value.distance.value {
        if own.value.distance.value <= next.value.distance.value {
          r := own.value.item;
        } else {
          r := next.value.item;
        }
      } else if prev.value.distance.value <= next.value.distance.value {
        r := prev.value.item;
      } else {
        r := next.value.item;
      }
    }
  }

  /** `add` keeps every existing list non-empty. */
  lemma AddKeepsNoEmptyList<T>(slots: seq<Slot<T>>, i: int, item: T)
    requires 0 <= i < |slots|
    requires NoEmptyList(slots)
    ensures NoEmptyList(slots[i := Some(SlotItems(slots[i]) + [item])])
  {
  }

  /** All the items the grid holds, slot by slot. */
  function AllItems<T>(slots: seq<Slot<T>>): (all: seq<T>)
    ensures |slots| == 0 ==> all == []
  {
    if slots == [] then [] else AllItems(slots[..|slots| - 1]) + SlotItems(slots[|slots| - 1])
  }

  /**
   * Adding an item to a slot adds it to what the grid holds and takes
   * nothing away: every item is stored once more for each time it is added.
   */
  lemma {:induction false} AddStoresItem<T>(slots: seq<Slot<T>>, i: int, item: T)
    requires 0 <= i < |slots|
    ensures multiset(AllItems(slots[i := Some(SlotItems(slots[i]) + [item])])) ==
      multiset(AllItems(slots)) + multiset{item}
    decreases |slots|
  {
    var s' := slots[i := Some(SlotItems(slots[i]) + [item])];
    var n := |slots| - 1;
    assert s'[..n] == if i == n then slots[..n] else slots[..n][i := Some(SlotItems(slots[..n][i]) + [item])];
    if i < n {
      AddStoresItem(slots[..n], i, item);
    }
  }

  /** Clearing a slot removes exactly the items it held. */
  lemma {:induction false} ClearDropsSlot<T>(slots: seq<Slot<T>>, i: int)
    requires 0 <= i < |slots|
    ensures multiset(AllItems(slots[i := None])) + multiset(SlotItems(slots[i])) == multiset(AllItems(slots))
    decreases |slots|
  {
    var s' := slots[i := None];
    var n := |slots| - 1;
    assert s'[..n] == if i == n then slots[..n] else slots[..n][i := None];
    if i < n {
      ClearDropsSlot(slots[..n], i);
    }
  }
}
