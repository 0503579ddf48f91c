/**
 * `RepoPathTree` and `RepoPathNode`: a trie of repository path segments.
 * A repo path is modelled as its sequence of segments; the root path is
 * the empty sequence and resolving a name appends it.
 */
module RepoPathTrees {
  import opened Wrappers
  import opened JavaLang

  type RepoPath = seq<JString>

  class RepoPathNode {
    /** The parent node; null for the root. */
    const parent: RepoPathNode?
    /** The name of this node (its last path segment; `""` for the root). */
    const name: JString
    /** The path this node stands for, fixed when it is created. */
    ghost const path: RepoPath
    /** The number of ancestors. */
    ghost const depth: nat
    /** All proper ancestors. */
    ghost const ancestors: set<RepoPathNode>

    /** The cached repo path (`repoPath`), null until first asked for. */
    var repoPath: Option<RepoPath>
    /** The lazily created map of children by name (`childrenByName`). */
    var childrenByName: Option<map<JString, RepoPathNode>>

    /** The path, depth and ancestors of this node follow from its parent's. */
    ghost predicate Local()
    {
      if parent == null then path == [] && depth == 0 && ancestors == {}
      else parent.depth < depth && path == parent.path + [name] && ancestors == {parent} + parent.ancestors
    }

    /** The whole parent chain is consistent with the paths. */
    ghost predicate Linked()
      decreases depth
    {
      Local() && (parent != null ==> parent.Linked())
    }

    /** A cached repo path, when present, is the node's path. */
    ghost predicate CacheOk()
      reads this
    {
      repoPath.Some? ==> repoPath.value == path
    }

    constructor (parent: RepoPathNode?, name: JString)
      requires parent != null ==> parent.Linked()
      ensures this.parent == parent && this.name == name && Linked()
      ensures parent != null ==> path == parent.path + [name]
      ensures repoPath.None? && childrenByName.None?
    {
      this.parent := parent;
      this.name := name;
      if parent == null {
        path := [];
        depth := 0;
        ancestors := {};
      } else {
        path := parent.path + [name];
        depth := parent.depth + 1;
        ancestors := {parent} + parent.ancestors;
      }
      repoPath := None;
      childrenByName := None;
    }

    /** The children map, empty before it is created. */
    function Children(): map<JString, RepoPathNode>
      reads this
    {
      if childrenByName.None? then map[] else childrenByName.value
    }

    /** `isRootNode`: true iff there is no parent, i.e. iff this is the root path. */
    function IsRootNode(): (r: bool)
      requires Linked()
      ensures r <==> path == []
    {
      parent == null
    }

    /** `hasChildren`: the map exists and holds at least one child. */
    function HasChildren(): (r: bool)
      reads this
      ensures r <==> Children().Keys != {}
    {
      childrenByName.Some? && |childrenByName.value| > 0
    }

    /**
     * `getRepoPath`: the root path for the root, otherwise the parent's path
     * resolved with the name. The result is cached here and in every
     * ancestor it had to compute.
     */
    method GetRepoPath() returns (r: RepoPath)
      requires Linked()
      requires CacheOk() && forall a :: a in ancestors ==> a.CacheOk()
      modifies {this} + ancestors
      ensures r == path && repoPath == Some(path)
      ensures CacheOk() && forall a :: a in ancestors ==> a.CacheOk()
      ensures forall a :: a in {this} + ancestors ==> a.childrenByName == old(a.childrenByName)
      ensures old(repoPath).Some? ==> forall a :: a in {this} + ancestors ==> a.repoPath == old(a.repoPath)
      decreases depth
    {
      if repoPath.None? {
        if parent == null {
          repoPath := Some([]);
        } else {
          var parentRepoPath := parent.GetRepoPath();
          repoPath := Some(parentRepoPath + [name]);
        }
      }
      r := repoPath.value;
    }

    /** `getChildrenByName`: creates an empty map on first use, then returns the same one. */
    method GetChildrenByName() returns (m: map<JString, RepoPathNode>)
      modifies this
      ensures old(childrenByName).None? ==> m == map[] && childrenByName == Some(m)
      ensures old(childrenByName).Some? ==> m == old(childrenByName).value && childrenByName == old(childrenByName)
      ensures m == Children() == old(Children())
      ensures repoPath == old(repoPath)
    {
      if childrenByName.Some? {
        return childrenByName.value;
      }
      childrenByName := Some(map[]);
      m := childrenByName.value;
    }
  }


  /** The children map of each node of a tree; its keys are the nodes. */
  type Kids = map<RepoPathNode, map<JString, RepoPathNode>>

  /**
   * The shape of a path tree over its bookkeeping: the keys of `kids` are
   * the nodes and `kids` holds the children of each by name, `nodeAt`
   * holds the node of each path. Every node is linked to its ancestors,
   * each child is filed under its name in its parent's map, each map entry
   * is a child of that node, and each path of the tree has exactly one node.
   */
  ghost predicate Trie(root: RepoPathNode, nodeAt: map<RepoPath, RepoPathNode>, kids: Kids)
  {
    root in kids && root.parent == null && root.name == []
    && (forall n {:trigger n.Local()} :: n in kids ==> n.Local())
    && ParentsFiled(kids) && ChildrenOwned(kids) && Indexed(kids, nodeAt)
  }

  /** Each non-root node is filed under its name in its parent's map. */
  ghost predicate ParentsFiled(kids: Kids)
  {
    forall n {:trigger n.parent} :: n in kids && n.parent != null ==>
      n.parent in kids && n.name in kids[n.parent] && kids[n.parent][n.name] == n
  }

  /** Each map entry is a node whose parent and name match the entry. */
  ghost predicate ChildrenOwned(kids: Kids)
  {
    forall n, k {:trigger kids[n][k]} :: n in kids && k in kids[n] ==>
      kids[n][k] in kids && kids[n][k].parent == n && kids[n][k].name == k
  }

  /** `nodeAt` maps the path of each node, and only those, to that node. */
  ghost predicate Indexed(kids: Kids, nodeAt: map<RepoPath, RepoPathNode>)
  {
    (forall n {:trigger n in kids} :: n in kids ==> n.path in nodeAt && nodeAt[n.path] == n)
    && (forall p {:trigger p in nodeAt} :: p in nodeAt ==> nodeAt[p] in kids && nodeAt[p].path == p)
  }

  /** Every node of a tree hangs from the root through nodes of the tree. */
  lemma {:induction false} NodesAreLinked(root: RepoPathNode, nodeAt: map<RepoPath, RepoPathNode>, kids: Kids, n: RepoPathNode)
    requires Trie(root, nodeAt, kids) && n in kids
    ensures n.Linked()
    decreases n.depth
  {
    assert n.Local();
    if n.parent != null {
      assert n.parent in kids;
      NodesAreLinked(root, nodeAt, kids, n.parent);
    }
  }

  /** The ancestors of every node of a tree are nodes of the tree. */
  lemma {:induction false} AncestorsInTree(root: RepoPathNode, nodeAt: map<RepoPath, RepoPathNode>, kids: Kids, n: RepoPathNode)
    requires Trie(root, nodeAt, kids) && n in kids
    ensures n.ancestors <= kids.Keys
    decreases n.depth
  {
    assert n.Local();
    if n.parent != null {
      assert n.parent in kids;
      AncestorsInTree(root, nodeAt, kids, n.parent);
    }
  }

  /**
   * A tree has a node for the path that extends `n`'s by one name exactly
   * when `n`'s map has that name, and that node is the one filed there.
   */
  lemma ExtendedPathIsChild(root: RepoPathNode, nodeAt: map<RepoPath, RepoPathNode>, kids: Kids,
                            n: RepoPathNode, name: JString)
    requires Trie(root, nodeAt, kids) && n in kids
    ensures n.path + [name] in nodeAt <==> name in kids[n]
    ensures name in kids[n] ==> nodeAt[n.path + [name]] == kids[n][name]
  {
    if n.path + [name] in nodeAt {
      var b := nodeAt[n.path + [name]];
      assert b in kids && b.Local();
      var p := b.parent.path;
      assert b.path == p + [b.name];
      assert |p| == |n.path|;
      assert p == b.path[..|p|] == n.path;
      assert b.parent == n;
      assert b.name == b.path[|p|] == name;
    }
    if name in kids[n] {
      var c := kids[n][name];
      assert c in kids && c.parent == n && c.name == name && c.Local();
    }
  }

  /** Filing a new child of `n` under a name `n` lacks keeps the shape of the tree. */
  lemma AttachKeepsTrie(root: RepoPathNode, nodeAt: map<RepoPath, RepoPathNode>, kids: Kids,
                        n: RepoPathNode, child: RepoPathNode, kids': Kids)
    requires Trie(root, nodeAt, kids) && n in kids && child !in kids
    requires child.parent == n && child.Local() && child.name !in kids[n]
    requires kids' == kids[n := kids[n][child.name := child]][child := map[]]
    ensures child.path !in nodeAt && Trie(root, nodeAt[child.path := child], kids')
  {
    ExtendedPathIsChild(root, nodeAt, kids, n, child.name);
    AttachFilesParent(kids, n, child, kids');
    AttachOwnsChildren(kids, n, child, kids');
    AttachIndexes(kids, nodeAt, child, kids');
  }

  lemma AttachFilesParent(kids: Kids, n: RepoPathNode, child: RepoPathNode, kids': Kids)
    requires ParentsFiled(kids) && n in kids && child !in kids
    requires child.parent == n && child.name !in kids[n]
    requires kids' == kids[n := kids[n][child.name := child]][child := map[]]
    ensures ParentsFiled(kids')
  {
    forall m | m in kids' && m.parent != null
      ensures m.parent in kids' && m.name in kids'[m.parent] && kids'[m.parent][m.name] == m
    {
      if m != child {
        assert m.parent in kids && m.name in kids[m.parent] && kids[m.parent][m.name] == m;
        if m.parent == n {
          assert m.name != child.name;
        }
      }
    }
  }

  lemma AttachOwnsChildren(kids: Kids, n: RepoPathNode, child: RepoPathNode, kids': Kids)
    requires ChildrenOwned(kids) && n in kids && child !in kids && child.parent == n
    requires kids' == kids[n := kids[n][child.name := child]][child := map[]]
    ensures ChildrenOwned(kids')
  {
    forall m, k | m in kids' && k in kids'[m]
      ensures kids'[m][k] in kids' && kids'[m][k].parent == m && kids'[m][k].name == k
    {
      if m != child && !(m == n && k == child.name) {
        assert m in kids && k in kids[m] && kids'[m][k] == kids[m][k];
      }
    }
  }

  lemma AttachIndexes(kids: Kids, nodeAt: map<RepoPath, RepoPathNode>, child: RepoPathNode, kids': Kids)
    requires Indexed(kids, nodeAt) && child !in kids && child.path !in nodeAt
    requires kids'.Keys == kids.Keys + {child}
    ensures Indexed(kids', nodeAt[child.path := child])
  {
    var nodeAt' := nodeAt[child.path := child];
    forall m | m in kids'
      ensures m.path in nodeAt' && nodeAt'[m.path] == m
    {
      if m != child {
        assert m in kids && m.path in nodeAt && m.path != child.path;
      }
    }
    forall p | p in nodeAt'
      ensures nodeAt'[p] in kids' && nodeAt'[p].path == p
    {
      if p != child.path {
        assert nodeAt[p] in kids;
      }
    }
  }

  /** `nodeAt` keeps the node of every path of `nodeAt0`. */
  ghost predicate Keeps(nodeAt0: map<RepoPath, RepoPathNode>, nodeAt: map<RepoPath, RepoPathNode>)
  {
    forall p {:trigger p in nodeAt0} :: p in nodeAt0 ==> p in nodeAt && nodeAt[p] == nodeAt0[p]
  }

  /** `nodeAt` keeps `nodeAt0` and its other paths are prefixes of `path`. */
  ghost predicate GrownAlong(nodeAt0: map<RepoPath, RepoPathNode>, nodeAt: map<RepoPath, RepoPathNode>, path: RepoPath)
  {
    Keeps(nodeAt0, nodeAt) && forall p {:trigger p in nodeAt} :: p in nodeAt && p !in nodeAt0 ==> p <= path
  }

  /** Adding at most one new prefix of `path` keeps a map grown along `path`. */
  lemma GrownAlongStep(nodeAt0: map<RepoPath, RepoPathNode>, before: map<RepoPath, RepoPathNode>,
                       after: map<RepoPath, RepoPathNode>, path: RepoPath, q: RepoPath, c: RepoPathNode)
    requires GrownAlong(nodeAt0, before, path) && q <= path
    requires after == before || (q !in before && after == before[q := c])
    ensures GrownAlong(nodeAt0, after, path)
  {
  }

  /** Every prefix of a path of a tree is a path of the tree. */
  lemma {:induction false} PrefixClosed(root: RepoPathNode, nodeAt: map<RepoPath, RepoPathNode>, kids: Kids, p: RepoPath, j: nat)
    requires Trie(root, nodeAt, kids) && p in nodeAt && j <= |p|
    ensures p[..j] in nodeAt
    decreases |p| - j
  {
    if j < |p| {
      var b := nodeAt[p];
      assert b in kids && b.Local() && b.path == p;
      var q := b.parent.path;
      assert b.parent in kids && q in nodeAt;
      assert q == p[..|p| - 1];
      PrefixClosed(root, nodeAt, kids, q, j);
      assert q[..j] == p[..j];
    } else {
      assert p[..j] == p;
    }
  }

  /** A tree that keeps the node of every path keeps every child entry. */
  lemma ChildrenKept(root: RepoPathNode, nodeAt: map<RepoPath, RepoPathNode>, kids: Kids,
                     nodeAt': map<RepoPath, RepoPathNode>, kids': Kids)
    requires Trie(root, nodeAt, kids) && Trie(root, nodeAt', kids')
    requires Keeps(nodeAt, nodeAt')
    ensures forall n, k :: n in kids && k in kids[n] ==> n in kids' && k in kids'[n] && kids'[n][k] == kids[n][k]
  {
    forall n, k | n in kids && k in kids[n]
      ensures n in kids' && k in kids'[n] && kids'[n][k] == kids[n][k]
    {
      ExtendedPathIsChild(root, nodeAt, kids, n, k);
      ExtendedPathIsChild(root, nodeAt', kids', n, k);
    }
  }

  /**
   * A tree that has grown from another while keeping its paths, and that
   * has `path`, has every prefix of `path` and every child entry of the
   * tree it grew from.
   */
  lemma GrownKeepsTree(root: RepoPathNode, nodeAt0: map<RepoPath, RepoPathNode>, kids0: Kids,
                       nodeAt: map<RepoPath, RepoPathNode>, kids: Kids, path: RepoPath)
    requires Trie(root, nodeAt0, kids0) && Trie(root, nodeAt, kids)
    requires Keeps(nodeAt0, nodeAt) && path in nodeAt
    ensures forall j :: 0 <= j <= |path| ==> path[..j] in nodeAt
    ensures forall n, k {:trigger k in kids0[n]} :: n in kids0 && k in kids0[n] ==>
              n in kids && k in kids[n] && kids[n][k] == kids0[n][k]
  {
    forall j | 0 <= j <= |path|
      ensures path[..j] in nodeAt
    {
      PrefixClosed(root, nodeAt, kids, path, j);
    }
    ChildrenKept(root, nodeAt0, kids0, nodeAt, kids);
  }

  class RepoPathTree {
    /** The root node, named `""`. */
    const rootNode: RepoPathNode
    /** The children map of every node of the tree; its keys are the nodes. */
    ghost var Kids: Kids
    /** The node standing for each path of the tree. */
    ghost var NodeAt: map<RepoPath, RepoPathNode>

    /** The nodes form a trie whose child maps are the ones the nodes hold. */
    ghost predicate Valid()
      reads this, Kids.Keys
    {
      Trie(rootNode, NodeAt, Kids) && Coupled() && CachesOk()
    }

    /** Every cached repo path in the tree is its node's path. */
    ghost predicate CachesOk()
      reads this, Kids.Keys
    {
      forall n {:trigger n.CacheOk()} :: n in Kids ==> n.CacheOk()
    }

    /** `Kids` holds the children map of each node. */
    ghost predicate Coupled()
      reads this, Kids.Keys
    {
      forall n {:trigger n.Children()} :: n in Kids ==> n.Children() == Kids[n]
    }

    constructor ()
      ensures Valid() && Kids.Keys == {rootNode} && NodeAt == map[[] := rootNode] && rootNode.path == []
      ensures fresh(rootNode) && rootNode.repoPath.None? && rootNode.childrenByName.None?
    {
      rootNode := new RepoPathNode(null, []);
      new;
      NodeAt := map[[] := rootNode];
      Kids := map[rootNode := map[]];
    }

    /**
     * `addPath`: walks the segments from the root, creating each missing
     * child, and returns the node for the path; a null path gives null and
     * changes nothing. Afterwards every prefix of the path has a node, the
     * only nodes created are those of prefixes that had none, and nodes
     * only gain children.
     */
    method AddPath(path: Option<RepoPath>) returns (node: RepoPathNode?)
      requires Valid()
      modifies this, Kids.Keys
      ensures Valid()
      ensures path.None? ==> node == null && Kids == old(Kids) && NodeAt == old(NodeAt)
      ensures path.None? ==> forall n {:trigger old(n.childrenByName)} :: n in Kids ==> n.childrenByName == old(n.childrenByName)
      ensures path.Some? ==> node != null && node in Kids && node.path == path.value
      ensures path.Some? ==> node.Linked() && node.ancestors <= Kids.Keys
      ensures path.Some? ==> forall j :: 0 <= j <= |path.value| ==> path.value[..j] in NodeAt
      ensures forall n, k {:trigger k in old(Kids[n])} :: n in old(Kids) && k in old(Kids[n]) ==>
                n in Kids && k in Kids[n] && Kids[n][k] == old(Kids[n][k])
      ensures path.Some? && path.value in old(NodeAt) ==>
                node == old(NodeAt[path.value]) && Kids == old(Kids) && NodeAt == old(NodeAt)
      ensures GrownAlong(old(NodeAt), NodeAt, if path.Some? then path.value else [])
      ensures forall n {:trigger n in Kids} :: n in Kids ==> n in old(Kids) || (fresh(n) && n.repoPath.None?)
      ensures forall n {:trigger old(n.childrenByName)} :: n in old(Kids) && !(path.Some? && n.path <= path.value) ==>
                n.childrenByName == old(n.childrenByName)
      ensures forall n {:trigger old(n.repoPath)} :: n in old(Kids) ==> n.repoPath == old(n.repoPath)
    {
      if path.None? {
        return null;
      }
      var segments := path.value;
      ghost var cbn0 := map m | m in Kids :: m.childrenByName;
      var currenNode := rootNode;
      var i := 0;
      assert segments[..0] == [] && rootNode.Local();
      while i < |segments|
        invariant 0 <= i <= |segments|
        invariant Valid()
        invariant currenNode in Kids && currenNode.path == segments[..i]
        invariant GrownAlong(old(NodeAt), NodeAt, segments)
        invariant segments in old(NodeAt) ==> Kids == old(Kids) && NodeAt == old(NodeAt)
        invariant forall n {:trigger n in Kids} :: n in Kids ==> n in old(Kids) || (fresh(n) && n.repoPath.None?)
        invariant forall n {:trigger cbn0[n]} :: n in cbn0 && !(n.path <= segments) ==> n.childrenByName == cbn0[n]
        invariant forall n {:trigger old(n.repoPath)} :: n in old(Kids) ==> n.repoPath == old(n.repoPath)
      {
        ghost var beforeKids := Kids;
        currenNode := Descend(segments, i, currenNode, old(NodeAt), old(Kids), cbn0);
        forall m {:trigger m in Kids} | m in Kids
          ensures m in old(Kids) || (fresh(m) && m.repoPath.None?)
        {
          assert m in beforeKids || m == currenNode;
        }
        i := i + 1;
      }
      assert segments[..i] == segments;
      node := currenNode;
      forall m {:trigger old(m.childrenByName)} | m in old(Kids) && !(m.path <= segments)
        ensures m.childrenByName == old(m.childrenByName)
      {
        assert m in cbn0 && cbn0[m] == old(m.childrenByName);
      }
      GrownKeepsTree(rootNode, old(NodeAt), old(Kids), NodeAt, Kids, segments);
      NodesAreLinked(rootNode, NodeAt, Kids, node);
      AncestorsInTree(rootNode, NodeAt, Kids, node);
    }

    /**
     * The body of the loop of `addPath`: moves from the node of the first
     * `i` segments to the node of the first `i + 1`, keeping what the loop
     * promises about the tree it started from (`nodeAt0`, `kids0`, `cbn0`).
     */
    method Descend(segments: RepoPath, i: nat, n: RepoPathNode, ghost nodeAt0: map<RepoPath, RepoPathNode>,
                   ghost kids0: Kids, ghost cbn0: map<RepoPathNode, Option<map<JString, RepoPathNode>>>)
      returns (child: RepoPathNode)
      requires Valid() && i < |segments| && n in Kids && n.path == segments[..i]
      requires GrownAlong(nodeAt0, NodeAt, segments)
      requires segments in nodeAt0 ==> Kids == kids0 && NodeAt == nodeAt0
      requires forall m {:trigger cbn0[m]} :: m in cbn0 && !(m.path <= segments) ==> m.childrenByName == cbn0[m]
      requires forall m {:trigger m in Kids} :: m in Kids && m !in kids0 ==> m.repoPath.None?
      modifies this, n
      ensures Valid() && child in Kids && child.path == segments[..i + 1]
      ensures GrownAlong(nodeAt0, NodeAt, segments)
      ensures segments in nodeAt0 ==> Kids == kids0 && NodeAt == nodeAt0
      ensures forall m {:trigger cbn0[m]} :: m in cbn0 && !(m.path <= segments) ==> m.childrenByName == cbn0[m]
      ensures Kids.Keys <= old(Kids).Keys + {child} && (child in old(Kids) || fresh(child))
      ensures forall m {:trigger m in Kids} :: m in Kids && m !in kids0 ==> m.repoPath.None?
      ensures n.repoPath == old(n.repoPath)
    {
      PrefixStep(segments, i);
      ghost var before := NodeAt;
      if segments in nodeAt0 {
        PrefixClosed(rootNode, NodeAt, Kids, segments, i + 1);
      }
      child := GetOrCreateChild(n, segments[i]);
      GrownAlongStep(nodeAt0, before, NodeAt, segments, child.path, child);
      forall m {:trigger cbn0[m]} | m in cbn0 && !(m.path <= segments)
        ensures m.childrenByName == cbn0[m]
      {
        assert m != n;
      }
    }

    /**
     * One step of `addPath`: the child of `n` with the name, created and
     * filed under the name when the tree has no node for that path.
     */
    method GetOrCreateChild(n: RepoPathNode, pathName: JString) returns (child: RepoPathNode)
      requires Valid() && n in Kids
      modifies this, n
      ensures Valid() && child in Kids && child.path == n.path + [pathName] && child.parent == n
      ensures Kids.Keys <= old(Kids).Keys + {child} && (child in old(Kids) || fresh(child))
      ensures old(n.path + [pathName] in NodeAt) ==>
                child == old(NodeAt[n.path + [pathName]]) && Kids == old(Kids) && NodeAt == old(NodeAt)
      ensures !old(n.path + [pathName] in NodeAt) ==>
                fresh(child) && child.path !in old(NodeAt) && NodeAt == old(NodeAt)[child.path := child]
                && Kids == old(Kids)[n := old(Kids[n])[pathName := child]][child := map[]]
                && child.repoPath.None?
      ensures n.repoPath == old(n.repoPath)
    {
      var childrenByName := n.GetChildrenByName();
      assert Valid() by {
        forall m | m in Kids
          ensures m.Children() == Kids[m] && m.CacheOk()
        {
          assert old(m.CacheOk());
          if m != n {
            assert m.Children() == old(m.Children());
          }
        }
      }
      ExtendedPathIsChild(rootNode, NodeAt, Kids, n, pathName);
      if pathName in childrenByName {
        child := childrenByName[pathName];
        assert child in Kids && child.parent == n && child.name == pathName && child.Local();
      } else {
        NodesAreLinked(rootNode, NodeAt, Kids, n);
        assert Kids[n] == childrenByName;
        ghost var nodeAt, kids := NodeAt, Kids;
        child := AttachNewChild(n, pathName, childrenByName);
        AttachKeepsTrie(rootNode, nodeAt, kids, n, child, Kids);
      }
    }

    /** Creates the child of `n` with the name and puts it in `n`'s map. */
    method AttachNewChild(n: RepoPathNode, pathName: JString, childrenByName: map<JString, RepoPathNode>)
      returns (child: RepoPathNode)
      requires Coupled() && CachesOk() && n in Kids && n.Linked() && n.childrenByName == Some(childrenByName)
      modifies this, n
      ensures Coupled() && CachesOk() && fresh(child) && child.parent == n && child.name == pathName && child.Local()
      ensures child.repoPath.None?
      ensures child.path == n.path + [pathName]
      ensures NodeAt == old(NodeAt)[child.path := child]
      ensures Kids == old(Kids)[n := childrenByName[pathName := child]][child := map[]]
      ensures n.childrenByName == Some(childrenByName[pathName := child]) && n.repoPath == old(n.repoPath)
    {
      child := new RepoPathNode(n, pathName);
      n.childrenByName := Some(childrenByName[pathName := child]);
      NodeAt := NodeAt[child.path := child];
      Kids := Kids[n := childrenByName[pathName := child]][child := map[]];
      forall m | m in Kids
        ensures m.Children() == Kids[m] && m.CacheOk()
      {
        if m != child {
          assert m in old(Kids) && old(m.CacheOk());
        }
        if m != n && m != child {
          assert m.Children() == old(m.Children());
        }
      }
    }

    /** The prefix of length i + 1 is the prefix of length i and element i. */
    static lemma PrefixStep(s: RepoPath, i: nat)
      requires i < |s|
      ensures s[..i + 1] == s[..i] + [s[i]]
      ensures s[..i] <= s && s[..i + 1] <= s
    {
    }
  }

  /**
   * `addPath(path)` followed by `getRepoPath()` on the node it returns:
   * the node is named by the last segment and answers the path, and the
   * tree stays well formed with the caches filled in.
   */
  method AddPathThenGetRepoPath(tree: RepoPathTree, path: RepoPath) returns (name: JString, r: RepoPath)
    requires tree.Valid() && path != []
    modifies tree, tree.Kids.Keys
    ensures tree.Valid()
    ensures forall n {:trigger n in tree.Kids} :: n in tree.Kids ==> n in old(tree.Kids) || fresh(n)
    ensures name == path[|path| - 1] && r == path
  {
    var node := tree.AddPath(Some(path));
    assert node.Local();
    name := node.name;
    ghost var kids := tree.Kids;
    ghost var children := map m | m in kids :: m.Children();
    r := node.GetRepoPath();
    assert tree.Valid() by {
      forall m | m in tree.Kids
        ensures m.Children() == tree.Kids[m] && m.CacheOk()
      {
        assert children[m] == kids[m];
      }
    }
  }

  /**
   * A fresh tree, `addPath(/a)` and `getRepoPath()` on the node it returns,
   * then `addPath(/a/b)` and `getRepoPath()` again: each node carries its
   * own name and answers its own path, whether the path was cached or not.
   */
  method AddPathsThenGetRepoPaths(a: JString, b: JString)
    returns (name1: JString, path1: RepoPath, name2: JString, path2: RepoPath)
    ensures name1 == a && path1 == [a]
    ensures name2 == b && path2 == [a, b]
  {
    var tree := new RepoPathTree();
    name1, path1 := AddPathThenGetRepoPath(tree, [a]);
    name2, path2 := AddPathThenGetRepoPath(tree, [a, b]);
  }
}
