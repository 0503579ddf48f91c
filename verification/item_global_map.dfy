/**
 * `ItemGlobalMap`: a two-way map between items and integer keys, where a
 * new item gets the next key from a counter (0, 1, 2, ... in order of
 * first addition).
 */
module ItemGlobalMaps {
  import opened Wrappers

  class ItemGlobalMap<T(==,!new)> {
    /** `keyToItemMap`. */
    var keyToItem: map<int, T>
    /** `itemToKeyMap`. */
    var itemToKey: map<T, int>
    /** `nextItemKey` (an `AtomicInteger`, used here as a plain counter). */
    var nextItemKey: int
    /** The distinct items in order of first addition; item k has key k. */
    ghost var items: seq<T>

    ghost predicate Valid()
      reads this
    {
      nextItemKey == |items|
      && (forall i, j :: 0 <= i < j < |items| ==> items[i] != items[j])
      && keyToItem == (map k | 0 <= k < |items| :: items[k])
      && (forall x :: x in itemToKey <==> x in items)
      && (forall k :: 0 <= k < |items| ==> itemToKey[items[k]] == k)
    }

    constructor ()
      ensures Valid() && items == []
    {
      keyToItem := map[];
      itemToKey := map[];
      nextItemKey := 0;
      items := [];
    }

    /** `getKeyForItem`: the item's key, or null when the item was never added. */
    function GetKeyForItem(item: T): (r: Option<int>)
      reads this
      requires Valid()
      ensures r.Some? <==> item in items
      ensures r.Some? ==> 0 <= r.value < |items| && items[r.value] == item
    {
      if item in itemToKey then
        assert exists k :: 0 <= k < |items| && items[k] == item;
        Some(itemToKey[item])
      else None
    }

    /** `getItem`: the item with the key, or null for a key never handed out. */
    function GetItem(itemKey: int): (r: Option<T>)
      reads this
      requires Valid()
      ensures r.Some? <==> 0 <= itemKey < |items|
      ensures r.Some? ==> r.value == items[itemKey]
    {
      if itemKey in keyToItem then Some(keyToItem[itemKey]) else None
    }

    /**
     * `add`: a known item keeps its key and nothing changes; a new item gets
     * the counter's value as its key and the counter moves on by one.
     */
    method Add(item: T) returns (key: int)
      requires Valid()
      modifies this
      ensures Valid()
      ensures item in old(items) ==> (key == old(GetKeyForItem(item)).value && items == old(items)
        && keyToItem == old(keyToItem) && itemToKey == old(itemToKey) && nextItemKey == old(nextItemKey))
      ensures item !in old(items) ==> key == old(nextItemKey) && items == old(items) + [item]
      ensures GetItem(key) == Some(item) && GetKeyForItem(item) == Some(key)
    {
      var existingItemKey := GetKeyForItem(item);
      if existingItemKey.Some? {
        return existingItemKey.value;
      }
      key := nextItemKey;
      nextItemKey := nextItemKey + 1;
      keyToItem := keyToItem[key := item];
      itemToKey := itemToKey[item := key];
      items := items + [item];
      assert keyToItem == (map k | 0 <= k < |items| :: items[k]);
    }

    /**
     * `forEach` / `iterator`: the visited items, as a multiset (the order of a
     * `HashMap` is unspecified); each stored item is visited exactly once.
     */
    function Visited(): (r: multiset<T>)
      reads this
      requires Valid()
      ensures forall x :: r[x] == if x in items then 1 else 0
    {
      var vs := keyToItem.Values;
      assert forall x :: x in vs <==> x in items by {
        forall x ensures x in vs <==> x in items {
          if x in items {
            var k :| 0 <= k < |items| && items[k] == x;
            assert keyToItem[k] == x;
          }
        }
      }
      multiset(vs)
    }
  }

  /** Keys are never reused: distinct keys name distinct items. */
  lemma KeysAreNeverReused<T(!new)>(m: ItemGlobalMap<T>, k1: int, k2: int)
    requires m.Valid() && k1 != k2
    requires m.GetItem(k1).Some? && m.GetItem(k2).Some?
    ensures m.GetItem(k1) != m.GetItem(k2)
  {
  }

  /** The two maps are mutual inverses. */
  lemma MapsAreInverse<T(!new)>(m: ItemGlobalMap<T>, item: T, key: int)
    requires m.Valid()
    ensures m.GetKeyForItem(item) == Some(key) <==> m.GetItem(key) == Some(item)
  {
  }
}
