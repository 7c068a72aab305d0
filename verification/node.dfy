/**
 * The routing trie (src/node.rs). A node owns an optional route and a map
 * from segment to child node; since all wildcards are one key, a node has
 * at most one wildcard child.
 *
 * Seen from outside, a trie is a `Table`: for every node reachable from the
 * root, the key path that reaches it and the route it carries. `Insert` is
 * what `append` does to that table; the `Node` class carries the source's
 * own fields, and `Node.Append` walks a cursor down them as the source does
 * and is proved to perform `Insert`. A ghost map from key paths to node
 * objects witnesses that the objects form a tree (`Shaped`).
 */
module Nodes {
  import opened Wrappers
  import opened Segments
  import opened Paths
  import opened Routes

  /** Every reachable node by the key path that reaches it, with its route. */
  type Table = map<seq<Key>, Option<Route>>

  /** A trie with only the default root: no route and no children. */
  const EmptyTable: Table := map[[] := None]

  function Prefixes(ks: seq<Key>): set<seq<Key>> {
    set j | 0 <= j <= |ks| :: ks[..j]
  }

  /** `append` as seen from outside: every prefix of the route's key path becomes a node, and the last one carries the route. */
  function Insert(t: Table, r: Route): Table {
    var ks := KeysOf(r.path);
    (map k | k in t.Keys + Prefixes(ks) :: if k in t then t[k] else None)[ks := Some(r)]
  }

  /** The tables a trie built by `append` from the default node can have. */
  ghost predicate TableOk(t: Table) {
    && [] in t
    && (forall ks, k | ks + [k] in t :: ks in t)
    && (forall ks | ks in t && t[ks].Some? :: KeysOf(t[ks].value.path) == ks)
  }

  /** The key paths of a node's children in the table. */
  function ChildKeys(t: Table, ks: seq<Key>): set<Key> {
    set c | c in t.Keys && |c| == |ks| + 1 && c[..|ks|] == ks :: c[|ks|]
  }

  lemma EmptyTableOk()
    ensures TableOk(EmptyTable)
    ensures EmptyTable[[]] == None && ChildKeys(EmptyTable, []) == {}
  {
  }

  lemma InsertKeys(t: Table, r: Route)
    ensures Insert(t, r).Keys == t.Keys + Prefixes(KeysOf(r.path))
  {
    var keys := KeysOf(r.path);
    assert keys[..|keys|] == keys;
  }

  /** After `append(r)` the node reached by `r`'s key path carries `r`. */
  lemma InsertReaches(t: Table, r: Route)
    ensures KeysOf(r.path) in Insert(t, r)
    ensures Insert(t, r)[KeysOf(r.path)] == Some(r)
  {
  }

  /** `append` only grows the trie: every node stays, and every route but the terminal one is unchanged. */
  lemma InsertOnlyGrows(t: Table, r: Route)
    ensures t.Keys <= Insert(t, r).Keys
    ensures forall ks | ks in t && ks != KeysOf(r.path) :: Insert(t, r)[ks] == t[ks]
  {
  }

  /** The nodes `append` creates are the missing prefixes of the route's key path, and carry no route except the last. */
  lemma InsertCreatesOnlyPrefixes(t: Table, r: Route)
    ensures forall ks | ks in Insert(t, r) && ks !in t ::
      |ks| <= |r.path| && ks == KeysOf(r.path)[..|ks|]
      && (ks != KeysOf(r.path) ==> Insert(t, r)[ks] == None)
  {
    var keys := KeysOf(r.path);
    InsertKeys(t, r);
    forall ks | ks in Insert(t, r) && ks !in t
      ensures |ks| <= |r.path| && ks == keys[..|ks|]
    {
      assert ks in Prefixes(keys);
      var j :| 0 <= j <= |keys| && ks == keys[..j];
    }
  }

  /** In a prefix-closed table every prefix of a present key path is present. */
  lemma {:induction false} PrefixesPresent(t: Table, ks: seq<Key>)
    requires TableOk(t) && ks in t
    ensures Prefixes(ks) <= t.Keys
    decreases |ks|
  {
    if ks != [] {
      var parent := ks[..|ks| - 1];
      assert ks == parent + [ks[|ks| - 1]];
      PrefixesPresent(t, parent);
      forall p | p in Prefixes(ks) ensures p in t {
        var j :| 0 <= j <= |ks| && p == ks[..j];
        if j < |ks| {
          assert p == parent[..j];
          assert p in Prefixes(parent);
        } else {
          assert p == ks;
        }
      }
    }
  }

  /** Appending along a path that already exists creates no node (existing children are reused). */
  lemma InsertReusesNodes(t: Table, r: Route)
    requires TableOk(t) && KeysOf(r.path) in t
    ensures Insert(t, r).Keys == t.Keys
  {
    PrefixesPresent(t, KeysOf(r.path));
  }

  /** Appending keeps the trie well formed: rooted, prefix-closed, each route at its own key path. */
  lemma InsertPreservesOk(t: Table, r: Route)
    requires TableOk(t)
    ensures TableOk(Insert(t, r))
  {
    var keys := KeysOf(r.path);
    var t' := Insert(t, r);
    InsertKeys(t, r);
    assert keys[..0] == [];
    forall ks, k | ks + [k] in t' ensures ks in t' {
      if ks + [k] !in t {
        assert ks + [k] in Prefixes(keys);
        var j :| 0 <= j <= |keys| && ks + [k] == keys[..j];
        assert ks == (ks + [k])[..|ks|] == keys[..j - 1];
        assert ks in Prefixes(keys);
      } else {
        assert ks in t;
      }
    }
  }

  /**
   * Appending a route whose path equals an earlier one's (wildcard names
   * aside) creates no node and replaces only the terminal route.
   */
  lemma InsertOverwrites(t: Table, r1: Route, r2: Route)
    requires PathEq(r1.path, r2.path)
    ensures Insert(Insert(t, r1), r2).Keys == Insert(t, r1).Keys
    ensures Insert(Insert(t, r1), r2) == Insert(t, r2)
  {
    PathEqIsKeysEq(r1.path, r2.path);
    var t1 := Insert(t, r1);
    var keys := KeysOf(r1.path);
    assert Prefixes(keys) <= t1.Keys;
    assert Insert(t1, r2).Keys == t1.Keys;
  }

  /** The `insert_root` test: a route with the empty path becomes the root's own route. */
  lemma InsertRoot(t: Table, r: Route)
    requires r.path == []
    ensures Insert(t, r)[[]] == Some(r)
  {
    assert KeysOf(r.path) == [];
  }

  /**
   * The `insert_create_nested` test: a two-literal path appended to the
   * default node makes a chain of one child per level, and only the last
   * node carries the route.
   */
  lemma InsertChainExample(r: Route, a: string, b: string)
    requires r.path == [Literal(a), Literal(b)]
    ensures Insert(EmptyTable, r) == map[[] := None, [LitKey(a)] := None, [LitKey(a), LitKey(b)] := Some(r)]
    ensures ChildKeys(Insert(EmptyTable, r), []) == {LitKey(a)}
    ensures ChildKeys(Insert(EmptyTable, r), [LitKey(a)]) == {LitKey(b)}
    ensures ChildKeys(Insert(EmptyTable, r), [LitKey(a), LitKey(b)]) == {}
  {
    var keys := KeysOf(r.path);
    assert keys == [LitKey(a), LitKey(b)];
    assert Prefixes(keys) == {[], [LitKey(a)], [LitKey(a), LitKey(b)]} by {
      assert keys[..0] == [] && keys[..1] == [LitKey(a)] && keys[..2] == keys;
    }
    var t := Insert(EmptyTable, r);
    assert t == map[[] := None, [LitKey(a)] := None, [LitKey(a), LitKey(b)] := Some(r)];
    assert ChildKeys(t, []) == {LitKey(a)} by {
      assert [LitKey(a)][..0] == [];
      assert [LitKey(a), LitKey(b)] in t.Keys;
    }
    assert ChildKeys(t, [LitKey(a)]) == {LitKey(b)} by {
      assert [LitKey(a), LitKey(b)][..1] == [LitKey(a)];
    }
  }

  /** The source's `Node`: an optional route and the children by segment key. */
  class Node {
    var route: Option<Route>
    var children: map<Key, Node>

    /** `Node::default`. */
    constructor ()
      ensures route == None && children == map[]
    {
      route := None;
      children := map[];
    }

    /**
     * `self.children.entry(k).or_insert(Node::default())`: the child under
     * `k`, created empty if there was none. `ks` is this node's key path.
     */
    method EntryOrInsert(k: Key, ghost root: Node, ghost ks: seq<Key>, ghost paths: map<seq<Key>, Node>)
      returns (child: Node, ghost paths': map<seq<Key>, Node>)
      requires Shaped(root, paths) && ks in paths && paths[ks] == this
      modifies this`children
      ensures Shaped(root, paths')
      ensures ks + [k] in paths' && paths'[ks + [k]] == child
      ensures paths'.Keys == paths.Keys + {ks + [k]}
      ensures Extends(paths, paths')
      ensures child in paths.Values || fresh(child)
      ensures forall n | n in paths'.Values && n !in paths.Values :: fresh(n)
      ensures TableOf(paths') == Pad(old(TableOf(paths)), paths'.Keys)
    {
      paths' := paths;
      ghost var kids := KidsOf(paths);
      ghost var t := TableOf(paths);
      NamedIffChild(root, paths, kids, ks, k);
      if k !in children {
        var n := new Node();
        children := children[k := n];
        paths' := paths[ks + [k] := n];
        ghost var kids' := kids[ks := kids[ks][k := n]][ks + [k] := map[]];
        forall p | p in paths'
          ensures paths'[p].children == kids'[p] && paths'[p].route == t[ks + [k] := None][p]
        {
          if p != ks && p != ks + [k] {
            assert paths'[p] == paths[p] != this;
          }
        }
        assert KidsOf(paths') == kids';
        assert TableOf(paths') == t[ks + [k] := None];
        AddChild(root, paths, kids, t, ks, k, n);
      } else {
        assert KidsOf(paths') == kids;
        assert TableOf(paths') == t == Pad(t, paths'.Keys);
      }
      child := children[k];
    }

    /**
     * `Node::append`: walks a cursor from this node along the route's
     * segments, creating each missing child, and sets the route of the node
     * it stops at. `paths` names every node of the tree by its key path.
     */
    method Append(r: Route, ghost paths: map<seq<Key>, Node>) returns (ghost paths': map<seq<Key>, Node>)
      requires Shaped(this, paths)
      modifies paths.Values
      ensures Shaped(this, paths')
      ensures TableOf(paths') == Insert(old(TableOf(paths)), r)
      ensures Extends(paths, paths')
      ensures forall n | n in paths'.Values && n !in paths.Values :: fresh(n)
    {
      ghost var t0 := TableOf(paths);
      var current := this;
      paths' := paths;
      for i := 0 to |r.path|
        invariant Walked(this, paths, t0, r.path, i, paths', current)
        invariant current in paths.Values || fresh(current)
        invariant forall n | n in paths'.Values && n !in paths.Values :: fresh(n)
      {
        current, paths' := current.Descend(r.path, i, this, paths, t0, paths');
      }
      WalkedAll(this, paths, t0, r, paths', current);
      current.SetRoute(Some(r), this, KeysOf(r.path), paths');
    }

    /**
     * One step of `append`'s cursor: `current = current.children.entry(seg).or_insert(..)`
     * for the `i`-th segment of `p`, seen as one more prefix of `p`'s key path.
     */
    method Descend(p: Path, i: nat, ghost root: Node, ghost paths: map<seq<Key>, Node>, ghost t0: Table,
                   ghost walked: map<seq<Key>, Node>)
      returns (child: Node, ghost walked': map<seq<Key>, Node>)
      requires i < |p| && Walked(root, paths, t0, p, i, walked, this)
      modifies this`children
      ensures Walked(root, paths, t0, p, i + 1, walked', child)
      ensures child in paths.Values || fresh(child)
      ensures forall n | n in walked'.Values && n !in walked.Values :: fresh(n)
    {
      ghost var keys := KeysOf(p);
      child, walked' := EntryOrInsert(KeyOf(p[i]), root, keys[..i], walked);
      PrefixesUpToStep(paths.Keys, walked.Keys, walked'.Keys, keys, i);
      PadPad(t0, walked.Keys, walked'.Keys);
      ExtendsTrans(paths, walked, walked');
      if keys[..i + 1] in walked {
        assert keys[..i + 1] in paths;
      }
    }

    /** `self.route = route`, on the node named `ks`; only its table entry changes. */
    method SetRoute(route: Option<Route>, ghost root: Node, ghost ks: seq<Key>, ghost paths: map<seq<Key>, Node>)
      requires Shaped(root, paths) && ks in paths && paths[ks] == this
      modifies this`route
      ensures Shaped(root, paths)
      ensures TableOf(paths) == old(TableOf(paths))[ks := route]
    {
      ghost var t := TableOf(paths);
      this.route := route;
      forall p | p in paths ensures TableOf(paths)[p] == t[ks := route][p] {
        if p != ks {
          assert paths[p] != this;
        }
      }
    }
  }

  /**
   * The state of `append` after walking `i` segments of `p` from `root`:
   * the names have grown from `paths` by the first `i` prefixes of `p`'s key
   * path, the cursor is the node named by the `i`-th prefix, and the new
   * nodes carry no route.
   */
  ghost predicate Walked(root: Node, paths: map<seq<Key>, Node>, t0: Table, p: Path, i: nat,
                         walked: map<seq<Key>, Node>, current: Node)
    reads walked.Values`children, walked.Values`route
  {
    && i <= |p| && t0.Keys == paths.Keys
    && Shaped(root, walked)
    && KeysOf(p)[..i] in walked && walked[KeysOf(p)[..i]] == current
    && walked.Keys == paths.Keys + PrefixesUpTo(KeysOf(p), i)
    && Extends(paths, walked)
    && TableOf(walked) == Pad(t0, walked.Keys)
  }

  /** At the end of the walk the cursor is the node named by the whole key path, and setting its route performs `Insert`. */
  lemma WalkedAll(root: Node, paths: map<seq<Key>, Node>, t0: Table, r: Route, walked: map<seq<Key>, Node>, current: Node)
    requires Walked(root, paths, t0, r.path, |r.path|, walked, current)
    ensures KeysOf(r.path) in walked && walked[KeysOf(r.path)] == current
    ensures TableOf(walked)[KeysOf(r.path) := Some(r)] == Insert(t0, r)
  {
    var keys := KeysOf(r.path);
    assert keys[..|r.path|] == keys;
    PadInsert(t0, walked.Keys, r);
  }

  /** The table `t` grown to the key paths `keys`, new key paths carrying no route. */
  function Pad(t: Table, keys: set<seq<Key>>): Table {
    map k | k in keys :: if k in t then t[k] else None
  }

  lemma PadPad(t: Table, k1: set<seq<Key>>, k2: set<seq<Key>>)
    requires t.Keys <= k1 <= k2
    ensures Pad(Pad(t, k1), k2) == Pad(t, k2)
  {
  }

  lemma ExtendsTrans(a: map<seq<Key>, Node>, b: map<seq<Key>, Node>, c: map<seq<Key>, Node>)
    requires Extends(a, b) && Extends(b, c)
    ensures Extends(a, c)
  {
  }

  /** `paths'` keeps every name of `paths`. */
  ghost predicate Extends(paths: map<seq<Key>, Node>, paths': map<seq<Key>, Node>) {
    forall ks | ks in paths :: ks in paths' && paths'[ks] == paths[ks]
  }

  function PrefixesUpTo(ks: seq<Key>, i: nat): set<seq<Key>>
    requires i <= |ks|
  {
    set j | 0 <= j <= i :: ks[..j]
  }

  /** One more step of the cursor adds one more prefix of the key path to the names. */
  lemma PrefixesUpToStep(k0: set<seq<Key>>, k1: set<seq<Key>>, k2: set<seq<Key>>, ks: seq<Key>, i: nat)
    requires i < |ks|
    requires k1 == k0 + PrefixesUpTo(ks, i) && k2 == k1 + {ks[..i] + [ks[i]]}
    ensures k2 == k0 + PrefixesUpTo(ks, i + 1)
    ensures ks[..i + 1] == ks[..i] + [ks[i]]
  {
    assert ks[..i + 1] == ks[..i] + [ks[i]];
  }

  /** Padding the old table to the walked prefixes and setting the terminal route is `Insert`. */
  lemma PadInsert(t: Table, keys: set<seq<Key>>, r: Route)
    requires keys == t.Keys + PrefixesUpTo(KeysOf(r.path), |r.path|)
    ensures Pad(t, keys)[KeysOf(r.path) := Some(r)] == Insert(t, r)
  {
    PrefixesUpToAll(KeysOf(r.path));
    InsertKeys(t, r);
  }

  lemma PrefixesUpToAll(ks: seq<Key>)
    ensures PrefixesUpTo(ks, |ks|) == Prefixes(ks)
  {
  }

  /** A one-key extension of a node's path is named exactly when the node has that child, and names that child. */
  lemma NamedIffChild(root: Node, paths: map<seq<Key>, Node>, kids: map<seq<Key>, map<Key, Node>>, ks: seq<Key>, k: Key)
    requires TreeShape(root, paths, kids) && ks in paths
    ensures ks + [k] in paths <==> k in kids[ks]
    ensures k in kids[ks] ==> paths[ks + [k]] == kids[ks][k]
  {
  }

  /** What hanging a new, empty node `n` under the missing key `k` of the node at `ks` does to the names, children and table. */
  lemma AddChild(root: Node, paths: map<seq<Key>, Node>, kids: map<seq<Key>, map<Key, Node>>, t: Table,
                 ks: seq<Key>, k: Key, n: Node)
    requires TreeShape(root, paths, kids) && t.Keys == paths.Keys
    requires ks in paths && ks + [k] !in paths && n !in paths.Values
    ensures TreeShape(root, paths[ks + [k] := n], kids[ks := kids[ks][k := n]][ks + [k] := map[]])
    ensures Extends(paths, paths[ks + [k] := n])
    ensures paths[ks + [k] := n].Values - paths.Values <= {n}
    ensures t[ks + [k] := None] == Pad(t, paths.Keys + {ks + [k]})
  {
    TreeShapeAddChild(root, paths, kids, ks, k, n);
  }

  /** Hanging a new, empty node under a missing key keeps the tree shape. */
  lemma TreeShapeAddChild(root: Node, paths: map<seq<Key>, Node>, kids: map<seq<Key>, map<Key, Node>>,
                          ks: seq<Key>, k: Key, n: Node)
    requires TreeShape(root, paths, kids)
    requires ks in paths && ks + [k] !in paths && n !in paths.Values
    ensures TreeShape(root, paths[ks + [k] := n], kids[ks := kids[ks][k := n]][ks + [k] := map[]])
  {
    var paths' := paths[ks + [k] := n];
    ChildrenNamedAddChild(paths, kids, ks, k, n);
    ParentsNamedAddChild(paths, kids, ks, k, n);
    assert Injective(paths') by {
      forall p, q | p in paths' && q in paths' && p != q ensures paths'[p] != paths'[q] {
        if p != ks + [k] && q != ks + [k] {
          assert paths'[p] == paths[p] && paths'[q] == paths[q];
        }
      }
    }
  }

  lemma ChildrenNamedAddChild(paths: map<seq<Key>, Node>, kids: map<seq<Key>, map<Key, Node>>,
                              ks: seq<Key>, k: Key, n: Node)
    requires ChildrenNamed(paths, kids) && paths.Keys == kids.Keys
    requires ks in paths && ks + [k] !in paths
    ensures ChildrenNamed(paths[ks + [k] := n], kids[ks := kids[ks][k := n]][ks + [k] := map[]])
  {
    var paths' := paths[ks + [k] := n];
    var kids' := kids[ks := kids[ks][k := n]][ks + [k] := map[]];
    forall p, c | p in kids' && c in kids'[p]
      ensures p + [c] in paths' && paths'[p + [c]] == kids'[p][c]
    {
      if p == ks && c == k {
      } else {
        assert p != ks + [k];
        assert p in kids && c in kids[p];
        assert kids'[p][c] == kids[p][c];
        assert p + [c] in paths;
        assert p + [c] != ks + [k];
      }
    }
  }

  lemma ParentsNamedAddChild(paths: map<seq<Key>, Node>, kids: map<seq<Key>, map<Key, Node>>,
                             ks: seq<Key>, k: Key, n: Node)
    requires ParentsNamed(paths, kids) && paths.Keys == kids.Keys
    requires ks in paths && ks + [k] !in paths
    ensures ParentsNamed(paths[ks + [k] := n], kids[ks := kids[ks][k := n]][ks + [k] := map[]])
  {
    var paths' := paths[ks + [k] := n];
    var kids' := kids[ks := kids[ks][k := n]][ks + [k] := map[]];
    forall p, c | p + [c] in paths'
      ensures p in kids' && c in kids'[p]
    {
      if p + [c] == ks + [k] {
        assert p == (p + [c])[..|p|] == (ks + [k])[..|ks|] == ks;
        assert c == (p + [c])[|p|] == (ks + [k])[|ks|] == k;
      } else {
        assert p + [c] in paths;
        assert p in kids && c in kids[p];
        assert p != ks + [k];
      }
    }
  }

  /** Every child of a named node is named by its parent's path and one more key. */
  ghost predicate ChildrenNamed(paths: map<seq<Key>, Node>, kids: map<seq<Key>, map<Key, Node>>) {
    forall ks, k | ks in kids && k in kids[ks] :: ks + [k] in paths && paths[ks + [k]] == kids[ks][k]
  }

  /** Every named node other than the root is a child of the node named by its path's prefix. */
  ghost predicate ParentsNamed(paths: map<seq<Key>, Node>, kids: map<seq<Key>, map<Key, Node>>) {
    forall ks, k | ks + [k] in paths :: ks in kids && k in kids[ks]
  }

  /**
   * `paths` names a tree of nodes rooted at `root` whose children maps are
   * `kids`: each node's children are exactly the one-key extensions of its
   * path, and no node has two names.
   */
  ghost predicate TreeShape(root: Node, paths: map<seq<Key>, Node>, kids: map<seq<Key>, map<Key, Node>>) {
    && [] in paths && paths[[]] == root
    && paths.Keys == kids.Keys
    && ChildrenNamed(paths, kids)
    && ParentsNamed(paths, kids)
    && Injective(paths)
  }

  /** No node has two names. */
  ghost predicate Injective(paths: map<seq<Key>, Node>) {
    forall p, q | p in paths && q in paths && p != q :: paths[p] != paths[q]
  }

  /** The children map of every named node. */
  ghost function KidsOf(paths: map<seq<Key>, Node>): (kids: map<seq<Key>, map<Key, Node>>)
    reads paths.Values`children
    ensures kids.Keys == paths.Keys
    ensures forall ks | ks in paths :: kids[ks] == paths[ks].children
  {
    map ks | ks in paths :: paths[ks].children
  }

  /** The objects named by `paths` form a tree rooted at `root`. */
  ghost predicate Shaped(root: Node, paths: map<seq<Key>, Node>)
    reads paths.Values`children
  {
    TreeShape(root, paths, KidsOf(paths))
  }

  /** The table of a tree of nodes. */
  ghost function TableOf(paths: map<seq<Key>, Node>): (t: Table)
    reads paths.Values`route
    ensures t.Keys == paths.Keys
    ensures forall ks | ks in paths :: t[ks] == paths[ks].route
  {
    map ks | ks in paths :: paths[ks].route
  }
}
