/**
 * `BinaryTreeIndex1DBase`: a binary search tree over an item comparator.
 * Items comparing equal to a node's item share that node (its `moreItems`
 * bucket); smaller items go left and larger items right. A search walks the
 * single root-to-leaf path the query would take and returns an equal item
 * met on it, or else the nearest item on that path.
 */
module BinaryTreeIndexes {
  import opened Wrappers
  import opened JavaLang
  import opened Nearest

  /**
   * A tree node: its depth (the root is at depth 0), its item, the bucket of
   * further equal items (absent until first needed) and its two subtrees.
   * `Empty` stands for a missing child and for the root before any `add`.
   */
  datatype Tree<T> =
    | Empty
    | Node(depth: int, item: T, moreItems: Option<seq<T>>, left: Tree<T>, right: Tree<T>)

  /** The bucket of a node as a list (empty when it was never created). */
  function Bucket<T>(moreItems: Option<seq<T>>): seq<T>
  {
    if moreItems.Some? then moreItems.value else []
  }

  /** How many times `y` is stored in the tree, as a node's item or in its bucket. */
  function Count<T(==)>(t: Tree<T>, y: T): nat
  {
    match t
    case Empty => 0
    case Node(_, x, more, l, r) =>
      (if x == y then 1 else 0) + multiset(Bucket(more))[y] + Count(l, y) + Count(r, y)
  }

  /** The number of nodes. */
  function NodeCount<T>(t: Tree<T>): nat
  {
    match t
    case Empty => 0
    case Node(_, _, _, l, r) => 1 + NodeCount(l) + NodeCount(r)
  }

  /**
   * The search-tree invariant: a bucket holds only items equal to its
   * node's item, the left subtree only smaller items and the right subtree
   * only larger ones; a bucket, once created, is never empty.
   */
  ghost predicate Ordered<T(!new)>(t: Tree<T>, cmp: (T, T) -> int)
  {
    match t
    case Empty => true
    case Node(_, x, more, l, r) =>
      (more.Some? ==> |more.value| > 0)
      && (forall y :: y in Bucket(more) ==> cmp(y, x) == 0)
      && (forall y :: Count(l, y) > 0 ==> cmp(y, x) < 0)
      && (forall y :: Count(r, y) > 0 ==> cmp(y, x) > 0)
      && Ordered(l, cmp) && Ordered(r, cmp)
  }

  /** Depths count down from the node: each child is one deeper than its parent. */
  predicate DepthsFrom<T>(t: Tree<T>, depth: int)
  {
    match t
    case Empty => true
    case Node(d, _, _, l, r) => d == depth && DepthsFrom(l, depth + 1) && DepthsFrom(r, depth + 1)
  }

  /**
   * `addRecursively`: an empty place gets a node holding the item at the
   * given depth; an equal item joins the node's bucket; otherwise the item
   * goes down the left or right subtree. The result always has a node at
   * its top.
   */
  function AddRecursively<T>(item: T, t: Tree<T>, depth: int, cmp: (T, T) -> int): (r: Tree<T>)
    ensures r.Node?
    decreases t
  {
    match t
    case Empty => Node(depth, item, None, Empty, Empty)
    case Node(d, x, more, l, rt) =>
      var itemComparison := cmp(item, x);
      if itemComparison == 0 then
        Node(d, x, Some(Bucket(more) + [item]), l, rt)
      else if itemComparison < 0 then
        Node(d, x, more, AddRecursively(item, l, d + 1, cmp), rt)
      else
        Node(d, x, more, l, AddRecursively(item, rt, d + 1, cmp))
  }

  /** Every added item is stored exactly once more than before, and nothing else changes count. */
  lemma {:induction false} AddStoresOnce<T>(item: T, t: Tree<T>, depth: int, cmp: (T, T) -> int, y: T)
    ensures Count(AddRecursively(item, t, depth, cmp), y) == Count(t, y) + if y == item then 1 else 0
    decreases t
  {
    match t
    case Empty =>
    case Node(d, x, more, l, r) =>
      if cmp(item, x) < 0 {
        AddStoresOnce(item, l, d + 1, cmp, y);
      } else if cmp(item, x) > 0 {
        AddStoresOnce(item, r, d + 1, cmp, y);
      } else {
        assert multiset(Bucket(more) + [item]) == multiset(Bucket(more)) + multiset{item};
      }
  }

  /** Adding keeps the search-tree invariant. */
  lemma {:induction false} AddKeepsOrdered<T(!new)>(item: T, t: Tree<T>, depth: int, cmp: (T, T) -> int)
    requires Ordered(t, cmp)
    ensures Ordered(AddRecursively(item, t, depth, cmp), cmp)
    decreases t
  {
    match t
    case Empty =>
    case Node(d, x, more, l, r) =>
      if cmp(item, x) < 0 {
        AddKeepsOrdered(item, l, d + 1, cmp);
        AddLeftKeepsOrdered(item, t, depth, cmp);
      } else if cmp(item, x) > 0 {
        AddKeepsOrdered(item, r, d + 1, cmp);
        AddRightKeepsOrdered(item, t, depth, cmp);
      } else {
        assert AddRecursively(item, t, depth, cmp) == Node(d, x, Some(Bucket(more) + [item]), l, r);
        OrderedNode(d, x, Some(Bucket(more) + [item]), l, r, cmp);
      }
  }

  /** The step of `AddKeepsOrdered` for an item going left. */
  lemma AddLeftKeepsOrdered<T(!new)>(item: T, t: Tree<T>, depth: int, cmp: (T, T) -> int)
    requires Ordered(t, cmp) && t.Node? && cmp(item, t.item) < 0
    requires Ordered(AddRecursively(item, t.left, t.depth + 1, cmp), cmp)
    ensures Ordered(AddRecursively(item, t, depth, cmp), cmp)
  {
    var l' := AddRecursively(item, t.left, t.depth + 1, cmp);
    assert AddRecursively(item, t, depth, cmp) == t.(left := l');
    forall y | Count(l', y) > 0 ensures cmp(y, t.item) < 0 {
      AddStoresOnce(item, t.left, t.depth + 1, cmp, y);
    }
    OrderedNode(t.depth, t.item, t.moreItems, l', t.right, cmp);
  }

  /** The step of `AddKeepsOrdered` for an item going right. */
  lemma AddRightKeepsOrdered<T(!new)>(item: T, t: Tree<T>, depth: int, cmp: (T, T) -> int)
    requires Ordered(t, cmp) && t.Node? && cmp(item, t.item) > 0
    requires Ordered(AddRecursively(item, t.right, t.depth + 1, cmp), cmp)
    ensures Ordered(AddRecursively(item, t, depth, cmp), cmp)
  {
    var r' := AddRecursively(item, t.right, t.depth + 1, cmp);
    assert AddRecursively(item, t, depth, cmp) == t.(right := r');
    forall y | Count(r', y) > 0 ensures cmp(y, t.item) > 0 {
      AddStoresOnce(item, t.right, t.depth + 1, cmp, y);
    }
    OrderedNode(t.depth, t.item, t.moreItems, t.left, r', cmp);
  }

  /** The search-tree invariant of a node, from its parts. */
  lemma OrderedNode<T(!new)>(d: int, x: T, more: Option<seq<T>>, l: Tree<T>, r: Tree<T>, cmp: (T, T) -> int)
    requires more.Some? ==> |more.value| > 0
    requires forall y :: y in Bucket(more) ==> cmp(y, x) == 0
    requires forall y :: Count(l, y) > 0 ==> cmp(y, x) < 0
    requires forall y :: Count(r, y) > 0 ==> cmp(y, x) > 0
    requires Ordered(l, cmp) && Ordered(r, cmp)
    ensures Ordered(Node(d, x, more, l, r), cmp)
  {
  }

  /** Adding keeps the depths: a new node is one deeper than its parent. */
  lemma {:induction false} AddKeepsDepths<T>(item: T, t: Tree<T>, depth: int, cmp: (T, T) -> int)
    requires DepthsFrom(t, depth)
    ensures DepthsFrom(AddRecursively(item, t, depth, cmp), depth)
    decreases t
  {
    match t
    case Empty =>
    case Node(d, x, more, l, r) =>
      if cmp(item, x) < 0 {
        AddKeepsDepths(item, l, d + 1, cmp);
      } else if cmp(item, x) > 0 {
        AddKeepsDepths(item, r, d + 1, cmp);
      }
  }

  /**
   * The items of the nodes a search for `query` visits, root first: it
   * stops at a node comparing equal to the query, and otherwise goes on
   * left or right until a missing child.
   */
  function SearchPath<T>(query: T, t: Tree<T>, cmp: (T, T) -> int): (p: seq<T>)
    ensures |p| == 0 <==> t.Empty?
    decreases t
  {
    match t
    case Empty => []
    case Node(_, x, _, l, r) =>
      var c := cmp(query, x);
      if c == 0 then [x]
      else if c < 0 then [x] + SearchPath(query, l, cmp)
      else [x] + SearchPath(query, r, cmp)
  }

  /** The search path is made of stored items. */
  lemma {:induction false} SearchPathIsStored<T>(query: T, t: Tree<T>, cmp: (T, T) -> int)
    ensures forall y :: y in SearchPath(query, t, cmp) ==> Count(t, y) > 0
    decreases t
  {
    match t
    case Empty =>
    case Node(_, x, _, l, r) =>
      var c := cmp(query, x);
      if c != 0 {
        var child := if c < 0 then l else r;
        SearchPathIsStored(query, child, cmp);
        assert SearchPath(query, t, cmp) == [x] + SearchPath(query, child, cmp);
      }
  }

  /** No item of `p` but the last compares equal to the query. */
  predicate EqualOnlyAtEnd<T>(query: T, p: seq<T>, cmp: (T, T) -> int)
  {
    forall i :: 0 <= i < |p| - 1 ==> cmp(query, p[i]) != 0
  }

  /** Only the last node of the search path can compare equal to the query. */
  lemma {:induction false} OnlyLastOfPathIsEqual<T>(query: T, t: Tree<T>, cmp: (T, T) -> int)
    ensures EqualOnlyAtEnd(query, SearchPath(query, t, cmp), cmp)
    decreases t
  {
    match t
    case Empty =>
    case Node(_, x, _, l, r) =>
      var c := cmp(query, x);
      if c != 0 {
        var child := if c < 0 then l else r;
        OnlyLastOfPathIsEqual(query, child, cmp);
        var pc := SearchPath(query, child, cmp);
        var p := [x] + pc;
        assert SearchPath(query, t, cmp) == p;
        forall i | 0 <= i < |p| - 1 ensures cmp(query, p[i]) != 0 {
          if i > 0 {
            assert p[i] == pc[i - 1];
          }
        }
      }
  }

  /** Whether the search path ends at a node whose item compares equal to the query. */
  predicate ExactOnPath<T>(query: T, t: Tree<T>, cmp: (T, T) -> int)
  {
    var p := SearchPath(query, t, cmp);
    |p| > 0 && cmp(query, p[|p| - 1]) == 0
  }

  /**
   * An equal item is found, and nothing else is added to the tree, exactly
   * when the search path of the new item ends at an equal node; otherwise
   * the tree gains one node.
   */
  lemma {:induction false} AddGrowsUnlessEqual<T>(item: T, t: Tree<T>, depth: int, cmp: (T, T) -> int)
    ensures NodeCount(AddRecursively(item, t, depth, cmp)) ==
      NodeCount(t) + if ExactOnPath(item, t, cmp) then 0 else 1
    decreases t
  {
    match t
    case Empty =>
    case Node(d, x, more, l, r) =>
      if cmp(item, x) < 0 {
        AddGrowsUnlessEqual(item, l, d + 1, cmp);
        assert SearchPath(item, t, cmp) == [x] + SearchPath(item, l, cmp);
      } else if cmp(item, x) > 0 {
        AddGrowsUnlessEqual(item, r, d + 1, cmp);
        assert SearchPath(item, t, cmp) == [x] + SearchPath(item, r, cmp);
      }
  }

  /**
   * Adding an item and then searching for it ends at a node equal to it
   * (for a comparator under which the item equals itself).
   */
  lemma {:induction false} AddThenSearchIsExact<T>(item: T, t: Tree<T>, depth: int, cmp: (T, T) -> int)
    requires cmp(item, item) == 0
    ensures ExactOnPath(item, AddRecursively(item, t, depth, cmp), cmp)
    decreases t
  {
    match t
    case Empty =>
    case Node(d, x, more, l, r) =>
      var t' := AddRecursively(item, t, depth, cmp);
      if cmp(item, x) < 0 {
        AddThenSearchIsExact(item, l, d + 1, cmp);
        assert SearchPath(item, t', cmp) == [x] + SearchPath(item, t'.left, cmp);
      } else if cmp(item, x) > 0 {
        AddThenSearchIsExact(item, r, d + 1, cmp);
        assert SearchPath(item, t', cmp) == [x] + SearchPath(item, t'.right, cmp);
      }
  }

  /** The fields of `SearchContext`, as a value. */
  datatype Context<T> = Context(isExactMatch: bool, shortestDistance: Option<int>, nearestNode: Option<T>)

  /**
   * What `searchNearestRecursively` leaves in the context: an equal node is
   * flagged and stops the search; otherwise, after the recursive call has
   * returned without an exact match, the node replaces the best so far when
   * its distance `measure(query, item)` is not greater.
   */
  function SearchFrom<T>(query: T, t: Tree<T>, st: Context<T>, cmp: (T, T) -> int, measure: (T, T) -> int): (r: Context<T>)
    ensures t.Empty? ==> r == st
    ensures !st.isExactMatch && r.isExactMatch ==> r.nearestNode.Some? && cmp(query, r.nearestNode.value) == 0
    decreases t
  {
    match t
    case Empty => st
    case Node(_, x, _, l, rt) =>
      var c := cmp(query, x);
      if c == 0 then st.(isExactMatch := true, nearestNode := Some(x))
      else
        var after := SearchFrom(query, if c < 0 then l else rt, st, cmp, measure);
        if after.isExactMatch then after
        else
          var distance := measure(query, x);
          if after.shortestDistance.None? || distance <= after.shortestDistance.value
          then after.(shortestDistance := Some(distance), nearestNode := Some(x))
          else after
  }

  /**
   * The outcome of a search from a fresh context, read off the search path:
   * the equal item ending the path (with no distance measured), or else the
   * first nearest item of the path in root-first order with its distance.
   */
  function PathOutcome<T>(query: T, t: Tree<T>, cmp: (T, T) -> int, measure: (T, T) -> int): Context<T>
    requires t.Node?
  {
    var p := SearchPath(query, t, cmp);
    var ds := DistancesTo(p, query, measure);
    if cmp(query, p[|p| - 1]) == 0 then Context(true, None, Some(p[|p| - 1]))
    else Context(false, Some(ds[FirstLeast(ds)]), Some(p[FirstLeast(ds)]))
  }

  /**
   * Unwinding the recursion from a fresh context gives the path outcome:
   * ties go to the node nearest the root, because a node replaces the best
   * so far on an equal distance after its subtree has been searched.
   */
  lemma {:induction false} SearchFromFresh<T>(query: T, t: Tree<T>, cmp: (T, T) -> int, measure: (T, T) -> int)
    requires t.Node?
    ensures SearchFrom(query, t, Context(false, None, None), cmp, measure) == PathOutcome(query, t, cmp, measure)
    decreases t
  {
    var c := cmp(query, t.item);
    if c != 0 {
      var child := if c < 0 then t.left else t.right;
      if child.Empty? {
        SearchLeafStep(query, t, cmp, measure);
      } else {
        SearchFromFresh(query, child, cmp, measure);
        SearchInnerStep(query, t, cmp, measure);
      }
    }
  }

  /** The step of `SearchFromFresh` at a node whose next child is missing. */
  lemma SearchLeafStep<T>(query: T, t: Tree<T>, cmp: (T, T) -> int, measure: (T, T) -> int)
    requires t.Node? && cmp(query, t.item) != 0
    requires (if cmp(query, t.item) < 0 then t.left else t.right).Empty?
    ensures SearchFrom(query, t, Context(false, None, None), cmp, measure) == PathOutcome(query, t, cmp, measure)
  {
    var child := if cmp(query, t.item) < 0 then t.left else t.right;
    assert SearchPath(query, t, cmp) == [t.item] + SearchPath(query, child, cmp);
    assert SearchPath(query, t, cmp) == [t.item];
    assert DistancesTo([t.item], query, measure) == [measure(query, t.item)];
  }

  /** The step of `SearchFromFresh` at a node whose next child holds a subtree. */
  lemma SearchInnerStep<T>(query: T, t: Tree<T>, cmp: (T, T) -> int, measure: (T, T) -> int)
    requires t.Node? && cmp(query, t.item) != 0
    requires var child := if cmp(query, t.item) < 0 then t.left else t.right;
      child.Node? && SearchFrom(query, child, Context(false, None, None), cmp, measure) == PathOutcome(query, child, cmp, measure)
    ensures SearchFrom(query, t, Context(false, None, None), cmp, measure) == PathOutcome(query, t, cmp, measure)
  {
    var child := if cmp(query, t.item) < 0 then t.left else t.right;
    var p := SearchPath(query, t, cmp);
    var pc := SearchPath(query, child, cmp);
    assert p == [t.item] + pc;
    if cmp(query, pc[|pc| - 1]) == 0 {
      assert p[|p| - 1] == pc[|pc| - 1];
    } else {
      SearchInnerNear(query, t, child, p, pc, cmp, measure);
    }
  }

  /** `SearchInnerStep` when the path below the node ends without an equal item. */
  lemma SearchInnerNear<T>(query: T, t: Tree<T>, child: Tree<T>, p: seq<T>, pc: seq<T>, cmp: (T, T) -> int, measure: (T, T) -> int)
    requires t.Node? && cmp(query, t.item) != 0
    requires child == if cmp(query, t.item) < 0 then t.left else t.right
    requires child.Node? && SearchFrom(query, child, Context(false, None, None), cmp, measure) == PathOutcome(query, child, cmp, measure)
    requires p == SearchPath(query, t, cmp) && pc == SearchPath(query, child, cmp)
    requires p == [t.item] + pc && cmp(query, pc[|pc| - 1]) != 0
    ensures SearchFrom(query, t, Context(false, None, None), cmp, measure) == PathOutcome(query, t, cmp, measure)
  {
    var dc := DistancesTo(pc, query, measure);
    var k := FirstLeast(dc);
    var d := measure(query, t.item);
    SearchFromNode(query, t, child, cmp, measure);
    PathOutcomeNode(query, t, p, pc, cmp, measure);
    assert PathOutcome(query, child, cmp, measure) == Context(false, Some(dc[k]), Some(pc[k]));
  }

  /** One unwinding step of `SearchFrom` from a fresh context at a node that is not equal to the query. */
  lemma SearchFromNode<T>(query: T, t: Tree<T>, child: Tree<T>, cmp: (T, T) -> int, measure: (T, T) -> int)
    requires t.Node? && cmp(query, t.item) != 0
    requires child == if cmp(query, t.item) < 0 then t.left else t.right
    ensures var after := SearchFrom(query, child, Context(false, None, None), cmp, measure);
      var d := measure(query, t.item);
      SearchFrom(query, t, Context(false, None, None), cmp, measure) ==
        if after.isExactMatch then after
        else if after.shortestDistance.None? || d <= after.shortestDistance.value
        then after.(shortestDistance := Some(d), nearestNode := Some(t.item))
        else after
  {
  }

  /** The path outcome at a node that is not equal to the query, from the path below it. */
  lemma PathOutcomeNode<T>(query: T, t: Tree<T>, p: seq<T>, pc: seq<T>, cmp: (T, T) -> int, measure: (T, T) -> int)
    requires t.Node? && p == SearchPath(query, t, cmp)
    requires |pc| > 0 && p == [t.item] + pc && cmp(query, pc[|pc| - 1]) != 0
    ensures var dc := DistancesTo(pc, query, measure);
      var k := FirstLeast(dc);
      var d := measure(query, t.item);
      PathOutcome(query, t, cmp, measure) ==
        if d <= dc[k] then Context(false, Some(d), Some(t.item)) else Context(false, Some(dc[k]), Some(pc[k]))
  {
    var dc := DistancesTo(pc, query, measure);
    DistancesToCons(t.item, pc, query, measure);
    FirstLeastCons(measure(query, t.item), dc);
    assert p[|p| - 1] == pc[|pc| - 1];
  }

  /**
   * `searchNearest`'s answer: a tree without items has no nearest node, and
   * reading its item fails; otherwise an item equal to the query met on the
   * search path, or else the path's item at least distance (the one nearest
   * the root on ties).
   */
  function TreeNearest<T(==)>(query: T, t: Tree<T>, cmp: (T, T) -> int, measure: (T, T) -> int): (r: Result<T>)
    ensures r.Err? <==> t.Empty?
    ensures r.Err? ==> r.error == NullPointer
    ensures r.Ok? ==> Count(t, r.value) > 0
    ensures r.Ok? && ExactOnPath(query, t, cmp) ==> cmp(query, r.value) == 0
    ensures r.Ok? && !ExactOnPath(query, t, cmp) ==>
      IsFirstNearestTo(query, SearchPath(query, t, cmp), r.value, measure)
  {
    if t.Empty? then Err(NullPointer)
    else
      var p := SearchPath(query, t, cmp);
      SearchPathIsStored(query, t, cmp);
      if cmp(query, p[|p| - 1]) == 0 then
        assert p[|p| - 1] in p;
        Ok(p[|p| - 1])
      else
        var ds := DistancesTo(p, query, measure);
        var k := FirstLeast(ds);
        assert p[k] in p;
        Ok(p[k])
  }

  /** `SearchContext`: the state a search updates as it unwinds. */
  class SearchContext<T> {
    var isExactMatch: bool
    var shortestDistance: Option<int>
    /** The item of the nearest node so far. */
    var nearestNode: Option<T>

    constructor ()
      ensures State() == Context(false, None, None)
    {
      isExactMatch := false;
      shortestDistance := None;
      nearestNode := None;
    }

    function State(): Context<T>
      reads this
    {
      Context(isExactMatch, shortestDistance, nearestNode)
    }
  }

  /** `searchNearestRecursively`: descends first, then considers the node on the way back. */
  method SearchNearestRecursively<T>(item: T, currentNode: Tree<T>, searchContext: SearchContext<T>,
                                     cmp: (T, T) -> int, measure: (T, T) -> int)
    modifies searchContext
    ensures searchContext.State() == SearchFrom(item, currentNode, old(searchContext.State()), cmp, measure)
    decreases currentNode
  {
    if currentNode.Empty? {
      return;
    }
    var itemComparison := Sign(cmp(item, currentNode.item));
    if itemComparison == 0 {
      searchContext.isExactMatch := true;
      searchContext.nearestNode := Some(currentNode.item);
      return;
    } else if itemComparison == -1 {
      SearchNearestRecursively(item, currentNode.left, searchContext, cmp, measure);
    } else {
      SearchNearestRecursively(item, currentNode.right, searchContext, cmp, measure);
    }
    if searchContext.isExactMatch {
      return;
    }
    var distance := measure(item, currentNode.item);
    if searchContext.shortestDistance.None? || distance <= searchContext.shortestDistance.value {
      searchContext.shortestDistance := Some(distance);
      searchContext.nearestNode := Some(currentNode.item);
    }
  }

  /** The index: a root that starts without an item, and the two strategies. */
  class BinaryTreeIndex1DBase<T(==,!new)> {
    /** Decides left or right, and equality with a node's item. */
    const itemComparator: (T, T) -> int
    /** The measurer; distances are compared in their natural order. */
    const measurer: (T, T) -> int
    var root: Tree<T>
    /** Every item added so far, with multiplicity. */
    ghost var Contents: multiset<T>

    ghost predicate Valid()
      reads this
    {
      (forall y :: Count(root, y) == Contents[y]) && Ordered(root, itemComparator) && DepthsFrom(root, 0)
    }

    constructor (itemComparator: (T, T) -> int, measurer: (T, T) -> int)
      ensures Valid() && Contents == multiset{} && root == Empty
      ensures this.itemComparator == itemComparator && this.measurer == measurer
    {
      this.itemComparator := itemComparator;
      this.measurer := measurer;
      root := Empty;
      Contents := multiset{};
    }

    /** `add`: the item is stored once more, the invariants hold, and the first item lands at the root. */
    method Add(item: T)
      requires Valid()
      modifies this
      ensures Valid() && Contents == old(Contents) + multiset{item}
      ensures root == AddRecursively(item, old(root), 0, itemComparator)
      ensures old(root).Empty? ==> root == Node(0, item, None, Empty, Empty)
    {
      AddKeepsOrdered(item, root, 0, itemComparator);
      forall y ensures Count(AddRecursively(item, root, 0, itemComparator), y) == Count(root, y) + if y == item then 1 else 0 {
        AddStoresOnce(item, root, 0, itemComparator, y);
      }
      AddKeepsDepths(item, root, 0, itemComparator);
      root := AddRecursively(item, root, 0, itemComparator);
      Contents := Contents + multiset{item};
    }

    /** `searchNearest`: a fresh context, the recursive search, and the nearest node's item. */
    method SearchNearest(item: T) returns (r: Result<T>)
      ensures r == TreeNearest(item, root, itemComparator, measurer)
    {
      var searchContext := new SearchContext<T>();
      SearchNearestRecursively(item, root, searchContext, itemComparator, measurer);
      if root.Node? {
        SearchFromFresh(item, root, itemComparator, measurer);
        assert searchContext.State() == PathOutcome(item, root, itemComparator, measurer);
      }
      if searchContext.nearestNode.None? {
        return Err(NullPointer);
      }
      r := Ok(searchContext.nearestNode.value);
    }
  }
}
