/**
 * The in-memory bookkeeping of `RepoIndexKDBase`: the divisions kept in a
 * map sorted by division index, created on demand with their bounds read
 * from the range splits; the lookup of a division and of its nearest lower
 * and higher neighbours; the merge of the answers of the own, lower and
 * higher divisions in `searchNearest`; and the full scans of one division's
 * content area and of all of them.
 *
 * The sorted map is kept as a sequence of divisions in strictly increasing
 * order of their index: a division's key is its own `divisionIndex`, so the
 * sequence holds exactly what the map holds, in the order its `values()`
 * returns it.
 */
module RepoIndexesKD {
  import opened Wrappers
  import opened JavaLang
  import opened Nearest
  import opened DivisionBounds
  import opened GridIndexes
  import EmojiFirst

  /** `CONTENT_PATH_NAME`: the last path segment under which an item's content is stored, the emoji U+1F4C4. */
  const CONTENT_PATH_NAME: JString := Utf16("\U{1F4C4}")

  /**
   * In Java's UTF-16 the content name is one surrogate pair, so it starts
   * with an emoji and sorts before every other name under the emoji-first
   * order of path names.
   */
  lemma ContentPathNameUnits()
    ensures CONTENT_PATH_NAME == [0xD83D, 0xDCC4]
    ensures EmojiFirst.StartsWithEmoji(CONTENT_PATH_NAME)
  {
  }

  /** `String.endsWith`. */
  predicate EndsWith(s: JString, suffix: JString)
  {
    |suffix| <= |s| && s[|s| - |suffix|..] == suffix
  }

  /** An entry of a content area: a repo path and the content stored under it. */
  datatype AreaEntry<C> = AreaEntry(path: JString, content: C)

  /**
   * A division of the range: its index, its bounds and its content area
   * (the repo path tree kept beside the area belongs to the trie add and
   * search and is not part of this model).
   */
  datatype Division<T, C> = Division(divisionIndex: Int32, minRange: T, maxRange: T, contentArea: seq<AreaEntry<C>>)

  /** An entry of a content area that holds an item: its path ends with the content name. */
  predicate IsItemEntry<C>(entry: AreaEntry<C>)
  {
    EndsWith(entry.path, CONTENT_PATH_NAME)
  }

  /** The items stored in a content area, read from its item entries in area order. */
  function ContentItems<T, C>(area: seq<AreaEntry<C>>, reader: C -> T): (items: seq<T>)
    ensures |items| <= |area|
    decreases |area|
  {
    if area == [] then []
    else
      var n := |area| - 1;
      ContentItems(area[..n], reader) + ItemOf(area[n], reader)
  }

  /** The item an entry holds, if it is an item entry. */
  function ItemOf<T, C>(entry: AreaEntry<C>, reader: C -> T): (items: seq<T>)
    ensures |items| <= 1
  {
    if IsItemEntry(entry) then [reader(entry.content)] else []
  }

  /** The items of a content area are exactly what its item entries hold. */
  lemma {:induction false} ContentItemsMembers<T, C>(area: seq<AreaEntry<C>>, reader: C -> T, x: T)
    ensures x in ContentItems(area, reader) <==>
      exists i :: 0 <= i < |area| && IsItemEntry(area[i]) && x == reader(area[i].content)
    decreases |area|
  {
    if area != [] {
      var n := |area| - 1;
      var init := area[..n];
      ContentItemsMembers(init, reader, x);
      assert ContentItems(area, reader) == ContentItems(init, reader) + ItemOf(area[n], reader);
      if x in ContentItems(init, reader) {
        var i :| 0 <= i < n && IsItemEntry(init[i]) && x == reader(init[i].content);
        assert init[i] == area[i];
      } else if x in ItemOf(area[n], reader) {
        assert IsItemEntry(area[n]) && x == reader(area[n].content);
      }
      if exists i :: 0 <= i < |area| && IsItemEntry(area[i]) && x == reader(area[i].content) {
        var i :| 0 <= i < |area| && IsItemEntry(area[i]) && x == reader(area[i].content);
        if i < n {
          assert init[i] == area[i];
        } else {
          assert x in ItemOf(area[n], reader);
        }
      }
    }
  }

  /** The items of all divisions, division by division in index order. */
  function IndexItems<T, C>(divisions: seq<Division<T, C>>, reader: C -> T): (items: seq<T>)
    decreases |divisions|
  {
    if divisions == [] then []
    else
      var n := |divisions| - 1;
      IndexItems(divisions[..n], reader) + ContentItems(divisions[n].contentArea, reader)
  }

  /** An item of one division is an item of the index. */
  lemma {:induction false} IndexItemsHas<T, C>(all: seq<Division<T, C>>, j: int, reader: C -> T, x: T)
    requires 0 <= j < |all| && x in ContentItems(all[j].contentArea, reader)
    ensures x in IndexItems(all, reader)
    decreases |all|
  {
    var n := |all| - 1;
    if j < n {
      assert all[..n][j] == all[j];
      IndexItemsHas(all[..n], j, reader, x);
    }
  }

  /**
   * A full scan of a list of items for the one nearest to the query: an item
   * equal to the query is an exact match with no distance; otherwise the
   * first item at the least distance `measure(item, query)`, with that
   * distance; nothing for no items.
   */
  function ScanNearest<T(==)>(query: T, items: seq<T>, measure: (T, T) -> int): (r: Option<MeasuredItem<T>>)
    ensures r.None? <==> items == []
    ensures query in items ==> r == Some(MeasuredItem(Some(query), None))
    ensures query !in items && items != [] ==>
      r.value.item.Some? && r.value.item.value in items &&
      r.value.distance == Some(measure(r.value.item.value, query)) &&
      forall y :: y in items ==> r.value.distance.value <= measure(y, query)
    ensures query !in items && items != [] ==>
      exists k :: IsFirstLeast(DistancesFrom(items, query, measure), k) && r.value.item == Some(items[k])
  {
    if query in items then Some(MeasuredItem(Some(query), None))
    else if items == [] then None
    else
      var ds := DistancesFrom(items, query, measure);
      var k := FirstLeast(ds);
      assert forall y :: y in items ==> exists j :: 0 <= j < |items| && y == items[j] && ds[k] <= ds[j];
      Some(MeasuredItem(Some(items[k]), Some(ds[k])))
  }

  /**
   * The state of a scan's best-so-far variables after the items `seen`,
   * none of which equals the query: nothing before the first item, and
   * afterwards the first of the nearest with its distance.
   */
  ghost predicate BestSoFar<T>(query: T, seen: seq<T>, measure: (T, T) -> int, bestItem: Option<T>, bestDistance: Option<int>)
  {
    (bestItem.None? <==> seen == []) && (bestDistance.None? <==> seen == []) &&
    (seen != [] ==>
      var ds := DistancesFrom(seen, query, measure);
      bestItem == Some(seen[FirstLeast(ds)]) && bestDistance == Some(ds[FirstLeast(ds)]))
  }

  /** One step of a scan over an item that differs from the query: a strictly smaller distance takes over. */
  lemma BestSoFarStep<T>(query: T, seen: seq<T>, x: T, measure: (T, T) -> int, bestItem: Option<T>, bestDistance: Option<int>)
    requires BestSoFar(query, seen, measure, bestItem, bestDistance)
    ensures var d := measure(x, query);
      if bestDistance.None? || d < bestDistance.value
      then BestSoFar(query, seen + [x], measure, Some(x), Some(d))
      else BestSoFar(query, seen + [x], measure, bestItem, bestDistance)
  {
    var d := measure(x, query);
    var ds := DistancesFrom(seen, query, measure);
    assert DistancesFrom(seen + [x], query, measure) == ds + [d];
    if seen == [] {
      FirstLeastSingle(d);
    } else {
      FirstLeastAppend(ds, d);
    }
  }

  /** At the end of a scan with no exact match, the best-so-far variables make up the scan's answer. */
  lemma BestSoFarIsScan<T>(query: T, items: seq<T>, measure: (T, T) -> int, bestItem: Option<T>, bestDistance: Option<int>)
    requires query !in items
    requires BestSoFar(query, items, measure, bestItem, bestDistance)
    ensures (if bestItem.Some? then Some(MeasuredItem(bestItem, bestDistance)) else None) == ScanNearest(query, items, measure)
  {
  }

  /** Division indexes strictly increase along the sequence, as the keys of a sorted map. */
  predicate Ordered<T, C>(ds: seq<Division<T, C>>)
  {
    forall i, j :: 0 <= i < j < |ds| ==> ds[i].divisionIndex < ds[j].divisionIndex
  }

  /** `divisionsByIndex.get(index)`: the division with that index, if any. */
  function Find<T, C>(ds: seq<Division<T, C>>, index: Int32): (r: Option<Division<T, C>>)
    ensures r.Some? <==> exists i :: 0 <= i < |ds| && ds[i].divisionIndex == index
    ensures r.Some? ==> r.value.divisionIndex == index && exists i :: 0 <= i < |ds| && ds[i] == r.value
  {
    if ds == [] then None
    else if ds[0].divisionIndex == index then Some(ds[0])
    else
      var r := Find(ds[1..], index);
      assert forall i :: 1 <= i < |ds| ==> ds[i] == ds[1..][i - 1];
      r
  }

  /**
   * `divisionsByIndex.lowerEntry(index)`: the last division (in index
   * order) whose index is below `index`.
   */
  function Lower<T, C>(ds: seq<Division<T, C>>, index: Int32): (r: Option<Division<T, C>>)
    requires Ordered(ds)
    ensures r.None? <==> forall i :: 0 <= i < |ds| ==> ds[i].divisionIndex >= index
    ensures r.Some? ==> r.value.divisionIndex < index && exists i :: 0 <= i < |ds| && ds[i] == r.value
    ensures r.Some? ==> forall i :: 0 <= i < |ds| && ds[i].divisionIndex < index ==> ds[i].divisionIndex <= r.value.divisionIndex
    decreases |ds|
  {
    if ds == [] then None
    else
      var n := |ds| - 1;
      if ds[n].divisionIndex < index then Some(ds[n])
      else
        assert forall i :: 0 <= i < n ==> ds[..n][i] == ds[i];
        Lower(ds[..n], index)
  }

  /**
   * `divisionsByIndex.higherEntry(index)`: the first division (in index
   * order) whose index is above `index`.
   */
  function Higher<T, C>(ds: seq<Division<T, C>>, index: Int32): (r: Option<Division<T, C>>)
    requires Ordered(ds)
    ensures r.None? <==> forall i :: 0 <= i < |ds| ==> ds[i].divisionIndex <= index
    ensures r.Some? ==> r.value.divisionIndex > index && exists i :: 0 <= i < |ds| && ds[i] == r.value
    ensures r.Some? ==> forall i :: 0 <= i < |ds| && ds[i].divisionIndex > index ==> ds[i].divisionIndex >= r.value.divisionIndex
  {
    if ds == [] then None
    else if ds[0].divisionIndex > index then Some(ds[0])
    else
      assert forall i :: 1 <= i < |ds| ==> ds[i] == ds[1..][i - 1];
      Higher(ds[1..], index)
  }

  /** No division of `ds` has the index `index`. */
  predicate Absent<T, C>(ds: seq<Division<T, C>>, index: Int32)
  {
    forall i :: 0 <= i < |ds| ==> ds[i].divisionIndex != index
  }

  /** The sorted map after `put` of a division under an index it does not hold yet. */
  function Insert<T, C>(ds: seq<Division<T, C>>, d: Division<T, C>): (r: seq<Division<T, C>>)
    requires Ordered(ds) && Absent(ds, d.divisionIndex)
    ensures Ordered(r)
    ensures |r| == |ds| + 1
    ensures multiset(r) == multiset(ds) + multiset{d}
  {
    if ds == [] || d.divisionIndex < ds[0].divisionIndex then
      OrderedCons(d, ds);
      [d] + ds
    else
      TailOrdered(ds, d.divisionIndex);
      var rest := Insert(ds[1..], d);
      InsertStep(ds, d, rest);
      [ds[0]] + rest
  }

  /** The tail of a sorted sequence is sorted, lies above its head and lacks what it lacks. */
  lemma TailOrdered<T, C>(ds: seq<Division<T, C>>, index: Int32)
    requires ds != [] && Ordered(ds) && Absent(ds, index)
    ensures Ordered(ds[1..]) && Absent(ds[1..], index)
    ensures forall i :: 0 <= i < |ds| - 1 ==> ds[0].divisionIndex < ds[1..][i].divisionIndex
  {
    var tail := ds[1..];
    assert forall i :: 0 <= i < |tail| ==> tail[i] == ds[i + 1];
  }

  /** Putting the head back in front of an insertion into the tail gives an insertion into the whole. */
  lemma InsertStep<T, C>(ds: seq<Division<T, C>>, d: Division<T, C>, rest: seq<Division<T, C>>)
    requires ds != [] && ds[0].divisionIndex < d.divisionIndex
    requires forall i :: 0 <= i < |ds| - 1 ==> ds[0].divisionIndex < ds[1..][i].divisionIndex
    requires Ordered(rest) && multiset(rest) == multiset(ds[1..]) + multiset{d}
    ensures Ordered([ds[0]] + rest)
    ensures multiset([ds[0]] + rest) == multiset(ds) + multiset{d}
  {
    InsertAbove(ds[0], ds[1..], d, rest);
    OrderedCons(ds[0], rest);
    assert ds == [ds[0]] + ds[1..];
  }

  /** A division below every division of a sorted sequence can be put in front of it. */
  lemma OrderedCons<T, C>(head: Division<T, C>, ds: seq<Division<T, C>>)
    requires Ordered(ds)
    requires forall i :: 0 <= i < |ds| ==> head.divisionIndex < ds[i].divisionIndex
    ensures Ordered([head] + ds)
  {
    var r := [head] + ds;
    forall i, j | 0 <= i < j < |r|
      ensures r[i].divisionIndex < r[j].divisionIndex
    {
      assert r[j] == ds[j - 1];
      if i > 0 {
        assert r[i] == ds[i - 1];
      }
    }
  }

  /**
   * Every division of an insertion into `tail` lies above `head` when both
   * the inserted division and those of `tail` do.
   */
  lemma InsertAbove<T, C>(head: Division<T, C>, tail: seq<Division<T, C>>, d: Division<T, C>, rest: seq<Division<T, C>>)
    requires forall i :: 0 <= i < |tail| ==> head.divisionIndex < tail[i].divisionIndex
    requires head.divisionIndex < d.divisionIndex
    requires multiset(rest) == multiset(tail) + multiset{d}
    ensures forall i :: 0 <= i < |rest| ==> head.divisionIndex < rest[i].divisionIndex
  {
    forall i | 0 <= i < |rest|
      ensures head.divisionIndex < rest[i].divisionIndex
    {
      assert rest[i] in multiset(rest);
      if rest[i] != d {
        assert rest[i] in multiset(tail);
      }
    }
  }

  /**
   * `searchNearest`'s loop over the answers of the divisions it consults:
   * the first exact answer (no distance) decides; otherwise the first answer
   * whose distance is the least; nothing when no division answered.
   */
  function MergeAnswers<T>(answers: seq<Option<MeasuredItem<T>>>): (r: Option<T>)
  {
    var e := FirstExact(answers);
    if e < |answers| then answers[e].value.item
    else
      var found := Answered(answers);
      if found == [] then None else found[FirstLeast(AnswerDistances(found))].item
  }

  /** The position of the first exact answer, or the length when there is none. */
  function FirstExact<T>(answers: seq<Option<MeasuredItem<T>>>): (e: nat)
    ensures e <= |answers|
    ensures e < |answers| ==> IsExact(answers[e])
    ensures forall j :: 0 <= j < e ==> !IsExact(answers[j])
  {
    if answers == [] then 0
    else if IsExact(answers[0]) then 0
    else 1 + FirstExact(answers[1..])
  }

  /** The answers that are not null, in order. */
  function Answered<T>(answers: seq<Option<MeasuredItem<T>>>): (found: seq<MeasuredItem<T>>)
    ensures |found| <= |answers|
    ensures forall k :: 0 <= k < |found| ==> Some(found[k]) in answers
    decreases |answers|
  {
    if answers == [] then []
    else
      var n := |answers| - 1;
      Answered(answers[..n]) + (if answers[n].Some? then [answers[n].value] else [])
  }

  /** The distances of answers that are not exact. */
  function AnswerDistances<T>(found: seq<MeasuredItem<T>>): (ds: seq<int>)
    ensures |ds| == |found|
  {
    seq(|found|, i requires 0 <= i < |found| => if found[i].distance.Some? then found[i].distance.value else 0)
  }

  /** Nothing is found exactly when no consulted division answered. */
  lemma MergeAnswersNone<T>(answers: seq<Option<MeasuredItem<T>>>)
    requires forall j :: 0 <= j < |answers| && answers[j].Some? ==> answers[j].value.item.Some?
    ensures MergeAnswers(answers).None? <==> forall j :: 0 <= j < |answers| ==> answers[j].None?
  {
    if exists j :: 0 <= j < |answers| && answers[j].Some? {
      var j :| 0 <= j < |answers| && answers[j].Some?;
      AnsweredHas(answers, j);
      var found := Answered(answers);
      assert found != [];
      var k := FirstLeast(AnswerDistances(found));
      assert Some(found[k]) in answers;
    } else {
      AnsweredEmpty(answers);
    }
  }

  /** An answer that is not null is among the answers kept. */
  lemma {:induction false} AnsweredHas<T>(answers: seq<Option<MeasuredItem<T>>>, j: int)
    requires 0 <= j < |answers| && answers[j].Some?
    ensures answers[j].value in Answered(answers)
    decreases |answers|
  {
    var n := |answers| - 1;
    if j < n {
      assert answers[..n][j] == answers[j];
      AnsweredHas(answers[..n], j);
    }
  }

  /** With every answer null nothing is kept. */
  lemma {:induction false} AnsweredEmpty<T>(answers: seq<Option<MeasuredItem<T>>>)
    requires forall j :: 0 <= j < |answers| ==> answers[j].None?
    ensures Answered(answers) == []
    decreases |answers|
  {
    if answers != [] {
      var n := |answers| - 1;
      assert forall j :: 0 <= j < n ==> answers[..n][j] == answers[j];
      AnsweredEmpty(answers[..n]);
    }
  }

  /**
   * Without an exact answer, the found item is that of an answer whose
   * distance no other answer beats, and which strictly beats every answer
   * before it: ties go to the division consulted first.
   */
  lemma MergeAnswersLeast<T>(answers: seq<Option<MeasuredItem<T>>>)
    requires Measured(answers)
    requires exists j :: 0 <= j < |answers| && answers[j].Some?
    ensures exists k :: (0 <= k < |answers| && answers[k].Some? && MergeAnswers(answers) == answers[k].value.item &&
      (forall j :: 0 <= j < |answers| && answers[j].Some? ==> answers[k].value.distance.value <= answers[j].value.distance.value) &&
      (forall j :: 0 <= j < k && answers[j].Some? ==> answers[k].value.distance.value < answers[j].value.distance.value))
  {
    var k := FirstLeastAnswer(answers);
    assert FirstExact(answers) == |answers|;
    assert answers[k].Some?;
  }

  /** Every answer given carries a distance. */
  predicate Measured<T>(answers: seq<Option<MeasuredItem<T>>>)
  {
    forall j :: 0 <= j < |answers| && answers[j].Some? ==> answers[j].value.distance.Some?
  }

  /**
   * `k` is the position of the answer `MergeAnswers` picks when none is
   * exact, with the first-least property over the answers themselves.
   */
  ghost predicate LeastAnswer<T>(answers: seq<Option<MeasuredItem<T>>>, k: int)
    requires Measured(answers)
  {
    0 <= k < |answers| && answers[k].Some? &&
    Answered(answers) != [] && answers[k].value == Answered(answers)[FirstLeast(AnswerDistances(Answered(answers)))] &&
    (forall j :: 0 <= j < |answers| && answers[j].Some? ==> answers[k].value.distance.value <= answers[j].value.distance.value) &&
    (forall j :: 0 <= j < k && answers[j].Some? ==> answers[k].value.distance.value < answers[j].value.distance.value)
  }

  /** Some answer given has the first-least property, by induction on the answers. */
  lemma {:induction false} FirstLeastAnswer<T>(answers: seq<Option<MeasuredItem<T>>>) returns (k: int)
    requires Measured(answers)
    requires exists j :: 0 <= j < |answers| && answers[j].Some?
    ensures LeastAnswer(answers, k)
    decreases |answers|
  {
    var n := |answers| - 1;
    var init := answers[..n];
    assert forall j :: 0 <= j < n ==> init[j] == answers[j];
    if !exists j :: 0 <= j < n && init[j].Some? {
      k := LeastAnswerFirst(answers);
    } else {
      var k0 := FirstLeastAnswer(init);
      if answers[n].None? {
        LeastAnswerSkip(answers, k0);
        k := k0;
      } else {
        k := LeastAnswerAppend(answers, k0);
      }
    }
  }

  /** `FirstLeastAnswer` when the last division is the only one that answered. */
  lemma LeastAnswerFirst<T>(answers: seq<Option<MeasuredItem<T>>>) returns (k: int)
    requires Measured(answers) && |answers| > 0 && answers[|answers| - 1].Some?
    requires forall j :: 0 <= j < |answers| - 1 ==> answers[j].None?
    ensures LeastAnswer(answers, k)
  {
    var n := |answers| - 1;
    var init := answers[..n];
    assert forall j :: 0 <= j < n ==> init[j] == answers[j];
    AnsweredEmpty(init);
    var found := Answered(answers);
    assert found == [answers[n].value];
    FirstLeastSingle(AnswerDistances(found)[0]);
    assert AnswerDistances(found) == [AnswerDistances(found)[0]];
    k := n;
  }

  /** `FirstLeastAnswer` when the last division did not answer. */
  lemma LeastAnswerSkip<T>(answers: seq<Option<MeasuredItem<T>>>, k0: int)
    requires Measured(answers) && |answers| > 0 && answers[|answers| - 1].None?
    requires Measured(answers[..|answers| - 1]) && LeastAnswer(answers[..|answers| - 1], k0)
    ensures LeastAnswer(answers, k0)
  {
    var n := |answers| - 1;
    var init := answers[..n];
    assert forall j :: 0 <= j < n ==> init[j] == answers[j];
    assert Answered(answers) == Answered(init);
  }

  /** `FirstLeastAnswer` when the last division answered and an earlier one did too. */
  lemma LeastAnswerAppend<T>(answers: seq<Option<MeasuredItem<T>>>, k0: int) returns (k: int)
    requires Measured(answers) && |answers| > 0 && answers[|answers| - 1].Some?
    requires Measured(answers[..|answers| - 1]) && LeastAnswer(answers[..|answers| - 1], k0)
    ensures LeastAnswer(answers, k)
  {
    var n := |answers| - 1;
    var init := answers[..n];
    assert forall j :: 0 <= j < n ==> init[j] == answers[j];
    var f0 := Answered(init);
    var found := Answered(answers);
    var d := answers[n].value.distance.value;
    assert found == f0 + [answers[n].value];
    assert AnswerDistances(found) == AnswerDistances(f0) + [d];
    FirstLeastAppend(AnswerDistances(f0), d);
    var i0 := FirstLeast(AnswerDistances(f0));
    assert AnswerDistances(f0)[i0] == answers[k0].value.distance.value;
    if d < answers[k0].value.distance.value {
      k := n;
    } else {
      k := k0;
    }
  }

  /**
   * `new RepoIndexKDBase(...)`: a negative division count makes
   * `new ArrayList<>(divisions)` throw `IllegalArgumentException` before the
   * range splitter is called; any other count gives the constructed index.
   */
  method NewRepoIndexKD<T(==), C(==)>(minRange: T, maxRange: T, divisions: Int32, measurer: (T, T) -> int,
                                     rangeSplitter: (T, T, Int32, bool) -> seq<T>, rangeFinder: (T, T, Int32, T) -> Int32,
                                     contentReader: C -> T,
                                     searchNearestInDivision: (T, Division<T, C>) -> Option<MeasuredItem<T>>)
    returns (r: Result<RepoIndexKDBase<T, C>>)
    ensures r.Err? <==> divisions < 0
    ensures r.Err? ==> r.error == IllegalArgument
    ensures r.Ok? ==> fresh(r.value) && r.value.Initial(minRange, maxRange, divisions, measurer, rangeSplitter,
                                                        rangeFinder, contentReader, searchNearestInDivision)
  {
    if divisions < 0 {
      return Err(IllegalArgument);
    }
    var index := new RepoIndexKDBase(minRange, maxRange, divisions, measurer, rangeSplitter, rangeFinder,
                                     contentReader, searchNearestInDivision);
    return Ok(index);
  }

  /**
   * `RepoIndexKDBase`: the divisions created so far, sorted by index, over
   * a range split into divisions. The content area of a division is the
   * repo's area as the trie add leaves it.
   */
  class RepoIndexKDBase<T(==), C(==)> {
    const minRange: T
    const maxRange: T
    const divisions: Int32
    /** The measurer; distances are compared in their natural order. */
    const measurer: (T, T) -> int
    /** The range finder's `findIndexInRange(minRange, maxRange, divisions, item)`. */
    const rangeFinder: (T, T, Int32, T) -> Int32
    /** The splits of the range, as the range splitter produced them. */
    const rangeSplits: seq<T>
    /** The content reader's `readItemFromContent`. */
    const contentReader: C -> T
    /** `searchNearestInDivision`: the trie search of one division. */
    const searchNearestInDivision: (T, Division<T, C>) -> Option<MeasuredItem<T>>
    /** `divisionsByIndex`: the divisions created so far, in increasing index order. */
    var divisionsByIndex: seq<Division<T, C>>

    /** The sorted map's order. */
    ghost predicate Valid()
      reads this
    {
      Ordered(divisionsByIndex)
    }

    /** The state the constructor leaves: the range is split (keeping the extra right-most split); there is no division yet. */
    ghost predicate Initial(minRange: T, maxRange: T, divisions: Int32, measurer: (T, T) -> int,
                            rangeSplitter: (T, T, Int32, bool) -> seq<T>, rangeFinder: (T, T, Int32, T) -> Int32,
                            contentReader: C -> T, searchNearestInDivision: (T, Division<T, C>) -> Option<MeasuredItem<T>>)
      reads this
    {
      && this.minRange == minRange && this.maxRange == maxRange && this.divisions == divisions
      && this.measurer == measurer && this.rangeFinder == rangeFinder
      && this.contentReader == contentReader && this.searchNearestInDivision == searchNearestInDivision
      && rangeSplits == rangeSplitter(minRange, maxRange, divisions, true)
      && divisionsByIndex == [] && Valid()
    }

    /**
     * The constructor, for a division count that `new ArrayList<>(divisions)`
     * accepts; `NewRepoIndexKD` is the call with its exception.
     */
    constructor (minRange: T, maxRange: T, divisions: Int32, measurer: (T, T) -> int,
                 rangeSplitter: (T, T, Int32, bool) -> seq<T>, rangeFinder: (T, T, Int32, T) -> Int32,
                 contentReader: C -> T, searchNearestInDivision: (T, Division<T, C>) -> Option<MeasuredItem<T>>)
      requires divisions >= 0
      ensures Initial(minRange, maxRange, divisions, measurer, rangeSplitter, rangeFinder, contentReader,
                      searchNearestInDivision)
    {
      this.minRange := minRange;
      this.maxRange := maxRange;
      this.divisions := divisions;
      this.measurer := measurer;
      this.rangeFinder := rangeFinder;
      this.rangeSplits := rangeSplitter(minRange, maxRange, divisions, true);
      this.contentReader := contentReader;
      this.searchNearestInDivision := searchNearestInDivision;
      this.divisionsByIndex := [];
    }

    /** `getDivisionMinRange`. */
    function GetDivisionMinRange(divisionIndex: Int32): (r: Result<T>)
      ensures r == DivisionMin(rangeSplits, divisionIndex)
    {
      DivisionMin(rangeSplits, divisionIndex)
    }

    /** `getDivisionMaxRange`. */
    function GetDivisionMaxRange(divisionIndex: Int32): (r: Result<T>)
      ensures r == DivisionMax(rangeSplits, divisionIndex)
    {
      DivisionMax(rangeSplits, divisionIndex)
    }

    /** `getDivision`: the division with that index, or null when it was never created. */
    function GetDivision(index: Int32): (r: Option<Division<T, C>>)
      reads this
      ensures r.None? <==> forall i :: 0 <= i < |divisionsByIndex| ==> divisionsByIndex[i].divisionIndex != index
      ensures r.Some? ==> r.value in divisionsByIndex && r.value.divisionIndex == index
    {
      Find(divisionsByIndex, index)
    }

    /**
     * `getOrCreateDivision`: the division already held under the index, or
     * else a new one with that index, the clamped bounds and an empty
     * content area, which the map then holds. Reading the bounds from an
     * empty list of splits fails, and then the map is left as it was.
     */
    method GetOrCreateDivision(index: Int32) returns (r: Result<Division<T, C>>)
      requires Valid()
      modifies this`divisionsByIndex
      ensures Valid()
      ensures old(GetDivision(index)).Some? ==> r == Ok(old(GetDivision(index)).value) && divisionsByIndex == old(divisionsByIndex)
      ensures old(GetDivision(index)).None? && rangeSplits == [] ==>
        r == Err(IndexOutOfBounds) && divisionsByIndex == old(divisionsByIndex)
      ensures old(GetDivision(index)).None? && rangeSplits != [] ==>
        r == Ok(Division(index, DivisionMin(rangeSplits, index).value, DivisionMax(rangeSplits, index).value, [])) &&
        multiset(divisionsByIndex) == multiset(old(divisionsByIndex)) + multiset{r.value}
      ensures r.Ok? ==> GetDivision(index) == Some(r.value)
    {
      var existing := GetDivision(index);
      if existing.Some? {
        return Ok(existing.value);
      }
      var minRangeOfDivision := GetDivisionMinRange(index);
      if minRangeOfDivision.Err? {
        return Err(minRangeOfDivision.error);
      }
      var maxRangeOfDivision := GetDivisionMaxRange(index);
      var division := Division(index, minRangeOfDivision.value, maxRangeOfDivision.value, []);
      divisionsByIndex := Insert(divisionsByIndex, division);
      assert division in multiset(divisionsByIndex);
      FindUnique(divisionsByIndex, division);
      r := Ok(division);
    }

    /** `getNearestLowerDivision`: the division of the greatest index below `index`, or null. */
    function GetNearestLowerDivision(index: Int32): (r: Option<Division<T, C>>)
      requires Valid()
      reads this
      ensures r == Lower(divisionsByIndex, index)
    {
      Lower(divisionsByIndex, index)
    }

    /** `getNearestHigherDivision`: the division of the least index above `index`, or null. */
    function GetNearestHigherDivision(index: Int32): (r: Option<Division<T, C>>)
      requires Valid()
      reads this
      ensures r == Higher(divisionsByIndex, index)
    {
      Higher(divisionsByIndex, index)
    }

    /** The division an item falls in, as the range finder computes it. */
    function DivisionOf(item: T): Int32
    {
      rangeFinder(minRange, maxRange, divisions, item)
    }

    /** The divisions `searchNearest` consults, in order: own, nearest lower, nearest higher, skipping null ones. */
    function DivisionsToSearch(index: Int32): (ds: seq<Division<T, C>>)
      requires Valid()
      reads this
      ensures |ds| <= 3
      ensures ds == [] <==> divisionsByIndex == []
      ensures GetDivision(index).Some? ==> ds[0] == GetDivision(index).value
    {
      var own := GetDivision(index);
      var lower := GetNearestLowerDivision(index);
      var higher := GetNearestHigherDivision(index);
      assert divisionsByIndex != [] ==> own.Some? || lower.Some? || higher.Some?;
      (if own.Some? then [own.value] else [])
      + (if lower.Some? then [lower.value] else [])
      + (if higher.Some? then [higher.value] else [])
    }

    /** What each consulted division answers. */
    function Answers(item: T, ds: seq<Division<T, C>>): (answers: seq<Option<MeasuredItem<T>>>)
      ensures |answers| == |ds|
      ensures forall k :: 0 <= k < |ds| ==> answers[k] == searchNearestInDivision(item, ds[k])
    {
      seq(|ds|, k requires 0 <= k < |ds| => searchNearestInDivision(item, ds[k]))
    }

    /**
     * `searchNearest`: null when no division is consulted; otherwise the
     * answers of the consulted divisions merged in consultation order.
     */
    method SearchNearest(item: T) returns (r: Option<T>)
      requires Valid()
      ensures r == MergeAnswers(Answers(item, DivisionsToSearch(DivisionOf(item))))
    {
      var bestItemSoFar: Option<T> := None;
      var bestDistanceSoFar: Option<int> := None;
      var divisionIndex := DivisionOf(item);
      var divisionsToSearch := DivisionsToSearch(divisionIndex);
      ghost var answers := Answers(item, divisionsToSearch);
      if |divisionsToSearch| == 0 {
        return None;
      }
      assert answers[..0] == [];
      for i := 0 to |divisionsToSearch|
        invariant MergedSoFar(answers, i, bestItemSoFar, bestDistanceSoFar)
      {
        var measuredItem := searchNearestInDivision(item, divisionsToSearch[i]);
        MergeStep(answers, i, bestItemSoFar, bestDistanceSoFar);
        if measuredItem.Some? {
          if measuredItem.value.distance.None? {
            return measuredItem.value.item;
          }
          if bestDistanceSoFar.None? || measuredItem.value.distance.value < bestDistanceSoFar.value {
            bestItemSoFar := measuredItem.value.item;
            bestDistanceSoFar := measuredItem.value.distance;
          }
        }
      }
      MergeDone(answers, bestItemSoFar, bestDistanceSoFar);
      r := bestItemSoFar;
    }

    /**
     * `searchDivisionWithFullScan`: the scan of the items stored in the
     * division's content area.
     */
    method SearchDivisionWithFullScan(itemToSearchFor: T, division: Division<T, C>) returns (r: Option<MeasuredItem<T>>)
      ensures r == ScanNearest(itemToSearchFor, ContentItems(division.contentArea, contentReader), measurer)
    {
      var bestItemSoFar: Option<T> := None;
      var bestDistanceSoFar: Option<int> := None;
      var area := division.contentArea;
      assert [] + ContentItems(area[..0], contentReader) == [];
      for i := 0 to |area|
        invariant itemToSearchFor !in [] + ContentItems(area[..i], contentReader)
        invariant BestSoFar(itemToSearchFor, [] + ContentItems(area[..i], contentReader), measurer, bestItemSoFar, bestDistanceSoFar)
      {
        var entry := area[i];
        if EndsWith(entry.path, CONTENT_PATH_NAME) {
          var item := contentReader(entry.content);
          if item == itemToSearchFor {
            ContentItemsMembers(area, contentReader, item);
            assert IsItemEntry(area[i]) && item == contentReader(area[i].content);
            return Some(MeasuredItem(Some(item), None));
          }
          ScanMeasured(itemToSearchFor, [], area, i, contentReader, measurer, bestItemSoFar, bestDistanceSoFar);
          var distance := measurer(item, itemToSearchFor);
          if bestDistanceSoFar.None? || distance < bestDistanceSoFar.value {
            bestItemSoFar := Some(item);
            bestDistanceSoFar := Some(distance);
          }
        } else {
          ScanSkipped(itemToSearchFor, [], area, i, contentReader, measurer, bestItemSoFar, bestDistanceSoFar);
        }
      }
      assert area[..|area|] == area;
      assert [] + ContentItems(area[..|area|], contentReader) == ContentItems(area, contentReader);
      BestSoFarIsScan(itemToSearchFor, ContentItems(area, contentReader), measurer, bestItemSoFar, bestDistanceSoFar);
      if bestItemSoFar.Some? {
        return Some(MeasuredItem(bestItemSoFar, bestDistanceSoFar));
      } else {
        return None;
      }
    }

    /**
     * `searchIndexWithFullScan`: the scan of the items of every division,
     * division by division in index order.
     */
    method SearchIndexWithFullScan(itemToSearchFor: T) returns (r: Option<MeasuredItem<T>>)
      ensures r == ScanNearest(itemToSearchFor, IndexItems(divisionsByIndex, contentReader), measurer)
    {
      var bestItemSoFar: Option<T> := None;
      var bestDistanceSoFar: Option<int> := None;
      var all := divisionsByIndex;
      assert all[..0] == [];
      for j := 0 to |all|
        invariant itemToSearchFor !in IndexItems(all[..j], contentReader)
        invariant BestSoFar(itemToSearchFor, IndexItems(all[..j], contentReader), measurer, bestItemSoFar, bestDistanceSoFar)
      {
        var area := all[j].contentArea;
        ghost var before := IndexItems(all[..j], contentReader);
        IndexItemsNext(all, j, contentReader);
        assert before + ContentItems(area[..0], contentReader) == before;
        for i := 0 to |area|
          invariant itemToSearchFor !in before + ContentItems(area[..i], contentReader)
          invariant BestSoFar(itemToSearchFor, before + ContentItems(area[..i], contentReader), measurer, bestItemSoFar, bestDistanceSoFar)
        {
          var entry := area[i];
          if EndsWith(entry.path, CONTENT_PATH_NAME) {
            var item := contentReader(entry.content);
            if item == itemToSearchFor {
              ContentItemsMembers(area, contentReader, item);
              assert IsItemEntry(area[i]) && item == contentReader(area[i].content);
              IndexItemsHas(all, j, contentReader, item);
              return Some(MeasuredItem(Some(item), None));
            }
            ScanMeasured(itemToSearchFor, before, area, i, contentReader, measurer, bestItemSoFar, bestDistanceSoFar);
            var distance := measurer(item, itemToSearchFor);
            if bestDistanceSoFar.None? || distance < bestDistanceSoFar.value {
              bestItemSoFar := Some(item);
              bestDistanceSoFar := Some(distance);
            }
          } else {
            ScanSkipped(itemToSearchFor, before, area, i, contentReader, measurer, bestItemSoFar, bestDistanceSoFar);
          }
        }
        assert area[..|area|] == area;
      }
      assert all[..|all|] == all;
      BestSoFarIsScan(itemToSearchFor, IndexItems(all, contentReader), measurer, bestItemSoFar, bestDistanceSoFar);
      if bestItemSoFar.Some? {
        return Some(MeasuredItem(bestItemSoFar, bestDistanceSoFar));
      } else {
        return None;
      }
    }
  }

  /** In a sorted map the division found under an index is the one held under it. */
  lemma FindUnique<T, C>(ds: seq<Division<T, C>>, d: Division<T, C>)
    requires Ordered(ds) && d in ds
    ensures Find(ds, d.divisionIndex) == Some(d)
  {
    var r := Find(ds, d.divisionIndex);
    var i :| 0 <= i < |ds| && ds[i] == r.value;
    var j :| 0 <= j < |ds| && ds[j] == d;
    assert i == j;
  }

  /**
   * One item entry of a full scan whose item differs from the query, after
   * the items `before` of earlier divisions and those of the first `i`
   * entries of `area`: the item is measured and replaces the best only
   * when strictly nearer.
   */
  lemma ScanMeasured<T, C>(query: T, before: seq<T>, area: seq<AreaEntry<C>>, i: int, reader: C -> T, measure: (T, T) -> int,
                           bestItem: Option<T>, bestDistance: Option<int>)
    requires 0 <= i < |area| && IsItemEntry(area[i]) && reader(area[i].content) != query
    requires query !in before + ContentItems(area[..i], reader)
    requires BestSoFar(query, before + ContentItems(area[..i], reader), measure, bestItem, bestDistance)
    ensures var x := reader(area[i].content);
      var d := measure(x, query);
      query !in before + ContentItems(area[..i + 1], reader) &&
      if bestDistance.None? || d < bestDistance.value
      then BestSoFar(query, before + ContentItems(area[..i + 1], reader), measure, Some(x), Some(d))
      else BestSoFar(query, before + ContentItems(area[..i + 1], reader), measure, bestItem, bestDistance)
  {
    var seen := before + ContentItems(area[..i], reader);
    var x := reader(area[i].content);
    ContentItemsNext(area, i, reader);
    assert before + ContentItems(area[..i + 1], reader) == seen + [x];
    BestSoFarStep(query, seen, x, measure, bestItem, bestDistance);
  }

  /** An entry of a full scan that holds no item leaves the scan's state as it was. */
  lemma ScanSkipped<T, C>(query: T, before: seq<T>, area: seq<AreaEntry<C>>, i: int, reader: C -> T, measure: (T, T) -> int,
                          bestItem: Option<T>, bestDistance: Option<int>)
    requires 0 <= i < |area| && !IsItemEntry(area[i])
    requires query !in before + ContentItems(area[..i], reader)
    requires BestSoFar(query, before + ContentItems(area[..i], reader), measure, bestItem, bestDistance)
    ensures query !in before + ContentItems(area[..i + 1], reader)
    ensures BestSoFar(query, before + ContentItems(area[..i + 1], reader), measure, bestItem, bestDistance)
  {
    ContentItemsNext(area, i, reader);
    assert ContentItems(area[..i + 1], reader) == ContentItems(area[..i], reader);
  }

  /** The items of the first `i + 1` entries: those of the first `i`, then what entry `i` holds. */
  lemma ContentItemsNext<T, C>(area: seq<AreaEntry<C>>, i: int, reader: C -> T)
    requires 0 <= i < |area|
    ensures ContentItems(area[..i + 1], reader) == ContentItems(area[..i], reader) + ItemOf(area[i], reader)
  {
    var p := area[..i + 1];
    assert p[..i] == area[..i];
    assert p[i] == area[i];
  }

  /**
   * The items of the divisions up to `j` are those before `j` followed by
   * those of division `j`.
   */
  lemma IndexItemsNext<T, C>(all: seq<Division<T, C>>, j: int, reader: C -> T)
    requires 0 <= j < |all|
    ensures IndexItems(all[..j + 1], reader) == IndexItems(all[..j], reader) + ContentItems(all[j].contentArea, reader)
  {
    assert all[..j + 1][..j] == all[..j];
    assert all[..j + 1][j] == all[j];
  }

  /**
   * The state of `searchNearest`'s loop after the first `i` answers: none
   * of them exact, and the best-so-far variables hold the first least of
   * those that are not null.
   */
  ghost predicate MergedSoFar<T>(answers: seq<Option<MeasuredItem<T>>>, i: int, bestItem: Option<T>, bestDistance: Option<int>)
  {
    0 <= i <= |answers| &&
    FirstExact(answers[..i]) == i &&
    (forall k :: 0 <= k < |Answered(answers[..i])| ==> Answered(answers[..i])[k].distance.Some?) &&
    BestAnswer(Answered(answers[..i]), bestItem, bestDistance)
  }

  /**
   * One answer of `searchNearest`'s loop: an exact answer is the merged
   * result; a null answer changes nothing; any other replaces the best
   * only when strictly nearer.
   */
  lemma MergeStep<T>(answers: seq<Option<MeasuredItem<T>>>, i: int, bestItem: Option<T>, bestDistance: Option<int>)
    requires MergedSoFar(answers, i, bestItem, bestDistance) && i < |answers|
    ensures IsExact(answers[i]) ==> MergeAnswers(answers) == answers[i].value.item
    ensures answers[i].None? ==> MergedSoFar(answers, i + 1, bestItem, bestDistance)
    ensures answers[i].Some? && !IsExact(answers[i]) ==>
      var m := answers[i].value;
      if bestDistance.None? || m.distance.value < bestDistance.value
      then MergedSoFar(answers, i + 1, m.item, m.distance)
      else MergedSoFar(answers, i + 1, bestItem, bestDistance)
  {
    var a := answers[i];
    var found := Answered(answers[..i]);
    assert answers[..i + 1] == answers[..i] + [a];
    assert answers[..i + 1][..i] == answers[..i];
    if IsExact(a) {
      ExactAt(answers, i);
    } else {
      FirstExactExtend(answers[..i], a);
      if a.Some? {
        assert Answered(answers[..i + 1]) == found + [a.value];
        BestAnswerStep(found, a.value, bestItem, bestDistance);
      } else {
        assert Answered(answers[..i + 1]) == found;
      }
    }
  }

  /** At the end of `searchNearest`'s loop the best item is the merged result. */
  lemma MergeDone<T>(answers: seq<Option<MeasuredItem<T>>>, bestItem: Option<T>, bestDistance: Option<int>)
    requires MergedSoFar(answers, |answers|, bestItem, bestDistance)
    ensures bestItem == MergeAnswers(answers)
  {
    assert answers[..|answers|] == answers;
  }

  /**
   * The best-so-far variables of `searchNearest` after the answers `found`
   * (none of them exact): nothing before the first, and afterwards the
   * item and distance of the first least answer.
   */
  ghost predicate BestAnswer<T>(found: seq<MeasuredItem<T>>, bestItem: Option<T>, bestDistance: Option<int>)
  {
    (bestDistance.None? <==> found == []) &&
    (found == [] ==> bestItem.None?) &&
    (found != [] ==>
      var k := FirstLeast(AnswerDistances(found));
      bestItem == found[k].item && bestDistance == found[k].distance)
  }

  /** One more non-exact answer: a strictly smaller distance takes over. */
  lemma BestAnswerStep<T>(found: seq<MeasuredItem<T>>, m: MeasuredItem<T>, bestItem: Option<T>, bestDistance: Option<int>)
    requires m.distance.Some?
    requires forall k :: 0 <= k < |found| ==> found[k].distance.Some?
    requires BestAnswer(found, bestItem, bestDistance)
    ensures if bestDistance.None? || m.distance.value < bestDistance.value
      then BestAnswer(found + [m], m.item, m.distance)
      else BestAnswer(found + [m], bestItem, bestDistance)
  {
    var ds := AnswerDistances(found);
    assert AnswerDistances(found + [m]) == ds + [m.distance.value];
    if found == [] {
      FirstLeastSingle(m.distance.value);
    } else {
      FirstLeastAppend(ds, m.distance.value);
    }
  }

  /** An exact answer at `i` after none before it is the first exact answer. */
  lemma ExactAt<T>(answers: seq<Option<MeasuredItem<T>>>, i: int)
    requires 0 <= i < |answers| && IsExact(answers[i])
    requires FirstExact(answers[..i]) == i
    ensures FirstExact(answers) == i
  {
  }

  /** A non-exact answer appended after no exact one leaves none exact. */
  lemma FirstExactExtend<T>(answers: seq<Option<MeasuredItem<T>>>, a: Option<MeasuredItem<T>>)
    requires FirstExact(answers) == |answers| && !IsExact(a)
    ensures FirstExact(answers + [a]) == |answers| + 1
  {
  }
}
