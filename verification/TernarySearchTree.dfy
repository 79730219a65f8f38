/** The ternary search tree in memory, and the linked result list of its searches. */
module TernarySearchTree {
  import opened SearchTree
  import opened Wrappers
  import Trees = SearchTree

  class Node {
    const c: Char
    var left: Node?
    var center: Node?
    var right: Node?
    var data: Option<NodeData>
    ghost var Repr: set<Node>
    ghost var tree: Tree

    /** The nodes below are a tree, and `tree` is its meaning. */
    ghost predicate Valid()
      reads this, Repr
      decreases Repr
    {
      && this in Repr
      && (left != null ==> left in Repr && left.Repr < Repr && this !in left.Repr && left.Valid())
      && (center != null ==> center in Repr && center.Repr < Repr && this !in center.Repr && center.Valid())
      && (right != null ==> right in Repr && right.Repr < Repr && this !in right.Repr && right.Valid())
      && ReprOf(left) !! ReprOf(center) && ReprOf(left) !! ReprOf(right) && ReprOf(center) !! ReprOf(right)
      && tree == Tree.Node(c, data, TreeOf(left), TreeOf(center), TreeOf(right))
    }

    constructor (c: Char)
      ensures Valid() && fresh(Repr) && Repr == {this} && this.c == c && data == None
      ensures left == null && center == null && right == null
    {
      this.c, left, center, right, data := c, null, null, null, None;
      Repr, tree := {this}, Tree.Node(c, None, Nil, Nil, Nil);
    }

    /** Three trees, apart from each other and from this node. */
    ghost predicate Apart(l: Node?, m: Node?, r: Node?)
      reads l, m, r, ReprOf(l), ReprOf(m), ReprOf(r)
    {
      && IsTree(l) && IsTree(m) && IsTree(r)
      && this !in ReprOf(l) && this !in ReprOf(m) && this !in ReprOf(r)
      && ReprOf(l) !! ReprOf(m) && ReprOf(l) !! ReprOf(r) && ReprOf(m) !! ReprOf(r)
    }

    method SetBelow(l: Node?, m: Node?, r: Node?, ghost all: set<Node>)
      requires Apart(l, m, r) && this in all && ReprOf(l) <= all && ReprOf(m) <= all && ReprOf(r) <= all
      modifies this
      ensures Valid() && Repr == all && tree == Tree.Node(c, old(data), TreeOf(l), TreeOf(m), TreeOf(r))
    {
      left, center, right, Repr, tree := l, m, r, all, Tree.Node(c, data, TreeOf(l), TreeOf(m), TreeOf(r));
    }
  }

  ghost function ReprOf(np: Node?): set<Node>
    reads np
  {
    if np == null then {} else np.Repr
  }

  ghost function TreeOf(np: Node?): Tree
    reads np
  {
    if np == null then Nil else np.tree
  }

  ghost predicate IsTree(np: Node?)
    reads np, ReprOf(np)
  {
    np != null ==> np.Valid()
  }

  /** The tree that `np` points to, if it is one. */
  ghost function Meaning(np: Node?): Option<Tree>
    reads np, ReprOf(np)
  {
    if IsTree(np) then Some(TreeOf(np)) else None
  }

  lemma MeaningBelow(np: Node)
    requires np.Valid()
    ensures Meaning(np.left) == Some(np.tree.left)
    ensures Meaning(np.center) == Some(np.tree.center)
    ensures Meaning(np.right) == Some(np.tree.right)
  {
  }

  /** Insert below `np`. The node that takes the data is reported, and null if the key is there already. */
  method InsertAt(np: Node?, key: Key, pos: nat, data: NodeData) returns (r: Node, npp: Node?)
    requires IsTree(np) && pos < |key|
    modifies ReprOf(np)
    ensures r.Valid() && fresh(r.Repr - old(ReprOf(np))) && (np != null ==> r == np)
    ensures r.tree == Trees.Insert(old(TreeOf(np)), key[pos..], data)
    ensures npp != null <==> Lookup(old(TreeOf(np)), key[pos..]).None?
    ensures npp != null ==> npp in r.Repr && npp.data == Some(data)
    decreases |key| - pos, TreeOf(np), 3
  {
    if np == null {
      r := new Node(key[pos]);
      npp := StartBranch(r, key, pos, data);
    } else {
      r := np;
      npp := InsertBelow(np, key, pos, data);
    }
  }

  /** The first node of a new branch. */
  method StartBranch(r: Node, key: Key, pos: nat, data: NodeData) returns (npp: Node?)
    requires pos < |key| && r.Valid() && r.Repr == {r} && r.tree == Tree.Node(key[pos], None, Nil, Nil, Nil)
    modifies r
    ensures r.Valid() && fresh(r.Repr - {r}) && r.tree == Branch(key[pos..], data)
    ensures npp != null && npp in r.Repr && npp.data == Some(data)
    decreases |key| - pos, Nil, 0
  {
    ghost var rest := key[pos..];
    if pos + 1 == |key| {
      r.data, npp := Some(data), r;
    } else {
      assert rest[1..] == key[pos + 1..];
      r.center, npp := InsertAt(r.center, key, pos + 1, data);
    }
    r.Repr := {r} + ReprOf(r.center);
    r.tree := Tree.Node(r.c, r.data, Nil, TreeOf(r.center), Nil);
  }

  /** Insert into `sub`, and leave two other trees and the node `np` alone. */
  method InsertApart(np: Node, sub: Node?, ghost x: Node?, ghost y: Node?, key: Key, pos: nat, data: NodeData)
    returns (r: Node, npp: Node?)
    requires np.Apart(sub, x, y) && pos < |key|
    modifies ReprOf(sub)
    ensures np.Apart(r, x, y) && fresh(r.Repr - old(ReprOf(sub)))
    ensures TreeOf(x) == old(TreeOf(x)) && ReprOf(x) == old(ReprOf(x))
    ensures TreeOf(y) == old(TreeOf(y)) && ReprOf(y) == old(ReprOf(y))
    ensures r.tree == Trees.Insert(old(TreeOf(sub)), key[pos..], data)
    ensures npp != null <==> Lookup(old(TreeOf(sub)), key[pos..]).None?
    ensures npp != null ==> npp in r.Repr && npp.data == Some(data)
    decreases |key| - pos, TreeOf(sub), 4
  {
    r, npp := InsertAt(sub, key, pos, data);
  }

  lemma PartsInside(np: Node)
    requires np.Valid()
    ensures ReprOf(np.left) <= np.Repr && ReprOf(np.center) <= np.Repr && ReprOf(np.right) <= np.Repr
    ensures np.Apart(np.left, np.center, np.right) && np in np.Repr
    ensures np.tree == Tree.Node(np.c, np.data, TreeOf(np.left), TreeOf(np.center), TreeOf(np.right))
  {
  }

  method InsertLeft(np: Node, key: Key, pos: nat, data: NodeData) returns (npp: Node?)
    requires np.Valid() && pos < |key| && key[pos] < np.c
    modifies np.Repr
    ensures np.Valid() && fresh(np.Repr - old(np.Repr))
    ensures np.tree == old(np.tree).(left := Trees.Insert(old(np.tree).left, key[pos..], data))
    ensures npp != null <==> Lookup(old(np.tree).left, key[pos..]).None?
    ensures npp != null ==> npp in np.Repr && npp.data == Some(data)
    decreases |key| - pos, np.tree, 1
  {
    ghost var was := np.Repr;
    PartsInside(np);
    var l;
    l, npp := InsertApart(np, np.left, np.center, np.right, key, pos, data);
    np.SetBelow(l, np.center, np.right, was + l.Repr);
  }

  method InsertRight(np: Node, key: Key, pos: nat, data: NodeData) returns (npp: Node?)
    requires np.Valid() && pos < |key| && key[pos] > np.c
    modifies np.Repr
    ensures np.Valid() && fresh(np.Repr - old(np.Repr))
    ensures np.tree == old(np.tree).(right := Trees.Insert(old(np.tree).right, key[pos..], data))
    ensures npp != null <==> Lookup(old(np.tree).right, key[pos..]).None?
    ensures npp != null ==> npp in np.Repr && npp.data == Some(data)
    decreases |key| - pos, np.tree, 1
  {
    ghost var was := np.Repr;
    PartsInside(np);
    var r;
    r, npp := InsertApart(np, np.right, np.left, np.center, key, pos, data);
    np.SetBelow(np.left, np.center, r, was + r.Repr);
  }

  method InsertCenter(np: Node, key: Key, pos: nat, data: NodeData) returns (npp: Node?)
    requires np.Valid() && pos < |key| && key[pos] == np.c && pos + 1 < |key|
    modifies np.Repr
    ensures np.Valid() && fresh(np.Repr - old(np.Repr))
    ensures np.tree == old(np.tree).(center := Trees.Insert(old(np.tree).center, key[pos + 1..], data))
    ensures npp != null <==> Lookup(old(np.tree).center, key[pos + 1..]).None?
    ensures npp != null ==> npp in np.Repr && npp.data == Some(data)
    decreases |key| - pos, np.tree, 1
  {
    ghost var was := np.Repr;
    PartsInside(np);
    var m;
    m, npp := InsertApart(np, np.center, np.left, np.right, key, pos + 1, data);
    np.SetBelow(np.left, m, np.right, was + m.Repr);
  }

  method InsertBelow(np: Node, key: Key, pos: nat, data: NodeData) returns (npp: Node?)
    requires np.Valid() && pos < |key|
    modifies np.Repr
    ensures np.Valid() && fresh(np.Repr - old(np.Repr))
    ensures np.tree == Trees.Insert(old(np.tree), key[pos..], data)
    ensures npp != null <==> Lookup(old(np.tree), key[pos..]).None?
    ensures npp != null ==> npp in np.Repr && npp.data == Some(data)
    decreases |key| - pos, np.tree, 2
  {
    ghost var rest := key[pos..];
    npp := null;
    if key[pos] < np.c {
      npp := InsertLeft(np, key, pos, data);
    } else if key[pos] > np.c {
      npp := InsertRight(np, key, pos, data);
    } else if pos + 1 == |key| {
      if np.data.None? {
        np.data, npp := Some(data), np;
        np.tree := np.tree.(data := np.data);
      }
    } else {
      assert rest[1..] == key[pos + 1..];
      npp := InsertCenter(np, key, pos, data);
    }
  }

  // ---- The longest prefix ------------------------------------------------------------------

  /** The record that a search for one result writes to. */
  class Found {
    var data: NodeData

    constructor ()
      ensures data == NodeData([], 0)
    {
      data := NodeData([], 0);
    }
  }

  method SearchBelow(np: Node?, key: Key, pos: nat, ndp: Found)
    requires IsTree(np) && pos < |key|
    modifies ndp
    ensures Some(ndp.data) == Trees.SearchOne(TreeOf(np), key[pos..], Some(old(ndp.data)))
    decreases |key| - pos, TreeOf(np)
  {
    ghost var rest := key[pos..];
    if np == null {
      return;
    }
    if key[pos] < np.c {
      SearchBelow(np.left, key, pos, ndp);
    } else if key[pos] > np.c {
      SearchBelow(np.right, key, pos, ndp);
    } else {
      if np.data.Some? {
        ndp.data := np.data.value;
      }
      if pos + 1 < |key| {
        assert rest[1..] == key[pos + 1..];
        SearchBelow(np.center, key, pos + 1, ndp);
      }
    }
  }

  // ---- Result lists ------------------------------------------------------------------------

  class ResultNode {
    var next: ResultNode?
    var prev: ResultNode?
    const data: NodeData

    constructor (data: NodeData)
      ensures this.data == data && next == null && prev == null
    {
      this.data, next, prev := data, null, null;
    }
  }

  class Result {
    var list: ResultNode?
    var tail: ResultNode?
    var count: int
    const limit: int
    ghost var nodes: seq<ResultNode>
    ghost var contents: seq<NodeData>
    ghost var Repr: set<ResultNode>

    /** A doubly linked list of `count` nodes that carry `contents`. */
    ghost predicate Valid()
      reads this, Repr
    {
      && |nodes| == |contents| == count
      && (forall i | 0 <= i < count :: nodes[i] in Repr && nodes[i].data == contents[i])
      && (forall i, j | 0 <= i < j < count :: nodes[i] != nodes[j])
      && (if count == 0 then list == null && tail == null else list == nodes[0] && tail == nodes[count - 1])
      && (count > 0 ==> list.prev == null && tail.next == null)
      && (forall i, j | 0 <= i < j < count && j == i + 1 :: nodes[i].next == nodes[j] && nodes[j].prev == nodes[i])
    }

    constructor (limit: int)
      ensures Valid() && this.limit == limit && contents == [] && Repr == {}
    {
      list, tail, count, this.limit, nodes, contents, Repr := null, null, 0, limit, [], [], {};
    }

    method Add(data: NodeData)
      requires Valid()
      modifies this, Repr
      ensures Valid() && contents == old(contents) + [data] && fresh(Repr - old(Repr))
    {
      var node := new ResultNode(data);
      if tail == null {
        list, tail := node, node;
      } else {
        node.prev := tail;
        tail.next := node;
        tail := node;
      }
      count := count + 1;
      nodes, contents, Repr := nodes + [node], contents + [data], Repr + {node};
      assert forall i | 0 <= i < count - 1 :: nodes[i] == old(nodes[i]);
    }
  }

  /** What the traversal of `t` adds behind its left subtree. */
  function TraverseRest(t: Tree, l: seq<NodeData>, limit: int): seq<NodeData>
    requires t.Node?
  {
    if t.data.Some? && |l| + 1 > limit then l + Opt(t.data)
    else Trees.Traverse(t.right, Trees.Traverse(t.center, l + Opt(t.data), limit), limit)
  }

  lemma TraverseSteps(t: Tree, list: seq<NodeData>, limit: int)
    requires t.Node?
    ensures Trees.Traverse(t, list, limit) == TraverseRest(t, Trees.Traverse(t.left, list, limit), limit)
  {
    var l := Trees.Traverse(t.left, list, limit);
    assert l + [] == l;
  }

  method TraverseBelow(np: Node?, rp: Result, ghost t: Tree)
    requires Meaning(np) == Some(t) && rp.Valid()
    modifies rp, rp.Repr
    ensures rp.Valid() && fresh(rp.Repr - old(rp.Repr))
    ensures rp.contents == Trees.Traverse(t, old(rp.contents), rp.limit)
    decreases t, 2
  {
    if np == null {
      return;
    }
    MeaningBelow(np);
    TraverseSteps(t, rp.contents, rp.limit);
    TraverseBelow(np.left, rp, t.left);
    TraverseOn(np, rp, t);
  }

  /** A node, what is below it, and its right subtree. */
  method TraverseOn(np: Node, rp: Result, ghost t: Tree)
    requires Meaning(np) == Some(t) && rp.Valid()
    modifies rp, rp.Repr
    ensures rp.Valid() && fresh(rp.Repr - old(rp.Repr))
    ensures rp.contents == TraverseRest(t, old(rp.contents), rp.limit)
    decreases t, 1
  {
    MeaningBelow(np);
    var stop := TraverseHere(np, rp, t);
    if !stop {
      TraverseBelow(np.right, rp, t.right);
    }
  }

  /** The data of a node and what is below it. */
  method TraverseHere(np: Node, rp: Result, ghost t: Tree) returns (stop: bool)
    requires Meaning(np) == Some(t) && rp.Valid()
    modifies rp, rp.Repr
    ensures rp.Valid() && fresh(rp.Repr - old(rp.Repr))
    ensures stop <==> t.data.Some? && |old(rp.contents)| + 1 > rp.limit
    ensures rp.contents == var list := old(rp.contents) + Opt(t.data);
                           if stop then list else Trees.Traverse(t.center, list, rp.limit)
    decreases t, 0
  {
    MeaningBelow(np);
    if np.data.None? {
      assert rp.contents + [] == rp.contents;
      TraverseBelow(np.center, rp, t.center);
    } else {
      rp.Add(np.data.value);
      if rp.count > rp.limit {
        return true;
      }
      if np.center != null {
        TraverseBelow(np.center, rp, t.center);
      }
    }
    return false;
  }

  method SearchAll(np: Node?, key: Key, pos: nat, rp: Result, ghost t: Tree)
    requires Meaning(np) == Some(t) && rp.Valid() && pos < |key|
    modifies rp, rp.Repr
    ensures rp.Valid() && rp.contents == Trees.Search(t, key[pos..], old(rp.contents), rp.limit)
    decreases |key| - pos, t
  {
    ghost var rest := key[pos..];
    if np == null {
      return;
    }
    MeaningBelow(np);
    if key[pos] < np.c {
      SearchAll(np.left, key, pos, rp, t.left);
    } else if key[pos] > np.c {
      SearchAll(np.right, key, pos, rp, t.right);
    } else if pos + 1 == |key| {
      if np.data.Some? {
        rp.Add(np.data.value);
      } else {
        assert rp.contents + [] == rp.contents;
      }
      TraverseBelow(np.center, rp, t.center);
    } else {
      assert rest[1..] == key[pos + 1..];
      SearchAll(np.center, key, pos + 1, rp, t.center);
    }
  }

  // ---- The tree object ---------------------------------------------------------------------

  class TernarySearchTree {
    var root: Node?
    /** What the tree stands for. */
    ghost var bindings: map<Key, NodeData>

    ghost predicate Valid()
      reads this, root, ReprOf(root)
    {
      IsTree(root) && Grown(TreeOf(root), bindings)
    }

    constructor ()
      ensures Valid() && bindings == map[] && root == null
    {
      root, bindings := null, map[];
    }

    /** A key keeps its first binding. */
    method Insert(data: NodeData) returns (r: Node, npp: Node?)
      requires Valid() && data.str != []
      modifies this, ReprOf(root)
      ensures Valid() && fresh(ReprOf(root) - old(ReprOf(root)))
      ensures bindings == if data.str in old(bindings) then old(bindings) else old(bindings)[data.str := data]
      ensures r == root && (npp == null <==> data.str in old(bindings))
      ensures npp != null ==> npp in r.Repr && npp.data == Some(data)
    {
      ghost var t := TreeOf(root);
      GrowsBy(t, bindings, data);
      root, npp := InsertAt(root, data.str, 0, data);
      assert data.str[0..] == data.str;
      if data.str !in bindings {
        bindings := bindings[data.str := data];
      }
      r := root;
    }

    /** The binding of the longest prefix of `str` that has one, or an empty record. */
    method SearchOne(str: Key) returns (result: NodeData)
      requires Valid() && str != []
      ensures exists n: nat :: LongestIn(bindings, str, n) &&
                          result == if n == 0 then NodeData([], 0) else bindings[str[..n]]
    {
      var ndp := new Found();
      SearchBelow(root, str, 0, ndp);
      assert str[0..] == str;
      ghost var n := SearchOneLongest(TreeOf(root), str, Some(NodeData([], 0)));
      LongestGrown(TreeOf(root), bindings, str, n);
      result := ndp.data;
    }

    /** The bindings of the keys that start with `str`: if there are no more than `limit`, all of them, once
        each, in strictly increasing order. */
    method Search(str: Key, limit: int) returns (result: Result)
      requires Valid() && str != []
      ensures fresh(result) && result.Valid() && result.limit == limit
      ensures |KeysFrom(bindings, str)| <= limit ==>
        && Sorted(result.contents)
        && forall d :: d in result.contents <==> str <= d.str && d.str in bindings && bindings[d.str] == d
    {
      result := new Result(limit);
      SearchAll(root, str, 0, result, TreeOf(root));
      assert str[0..] == str;
      if |KeysFrom(bindings, str)| <= limit {
        MatchesCounted(TreeOf(root), bindings, str);
        SearchComplete(TreeOf(root), str, limit);
      }
    }
  }

  /** `t` has the order and the names of a tree that has grown by insertion, and its bindings are `m`. */
  ghost predicate Grown(t: Tree, m: map<Key, NodeData>) {
    && Ordered(t) && Named(t, []) && (forall k | k in m :: m[k].str == k)
    && forall k :: Lookup(t, k) == if k in m then Some(m[k]) else None
  }

  lemma GrowsBy(t: Tree, m: map<Key, NodeData>, d: NodeData)
    requires Grown(t, m) && d.str != []
    ensures Grown(Trees.Insert(t, d.str, d), if d.str in m then m else m[d.str := d])
  {
    InsertOrdered(t, d.str, d);
    assert [] + d.str == d.str;
    InsertNamed(t, d.str, d, []);
    var m' := if d.str in m then m else m[d.str := d];
    forall k ensures Lookup(Trees.Insert(t, d.str, d), k) == if k in m' then Some(m'[k]) else None {
      LookupInsert(t, d.str, d, k);
    }
  }

  /** The keys of `m` that start with `str`. */
  function KeysFrom(m: map<Key, NodeData>, str: Key): set<Key> { set k | k in m && str <= k }

  function KeysOf(s: seq<NodeData>): set<Key> { set d | d in s :: d.str }

  lemma {:induction false} LessIsStrict(a: Key)
    ensures !Less(a, a)
    decreases |a|
  {
    if a != [] {
      LessIsStrict(a[1..]);
    }
  }

  lemma {:induction false} SortedCounted(s: seq<NodeData>)
    requires Sorted(s)
    ensures |KeysOf(s)| == |s|
    decreases |s|
  {
    if s != [] {
      SortedCounted(s[1..]);
      assert s == [s[0]] + s[1..];
      assert KeysOf(s) == {s[0].str} + KeysOf(s[1..]);
      forall i | 0 < i < |s| ensures s[i].str != s[0].str {
        LessIsStrict(s[0].str);
      }
    }
  }

  /** The search has one match for every key of the map that starts with the string. */
  lemma MatchesCounted(t: Tree, m: map<Key, NodeData>, str: Key)
    requires Grown(t, m) && str != []
    ensures |Matches(t, str)| == |KeysFrom(m, str)|
  {
    var found := Matches(t, str);
    SearchMatches(t, str, [], |found|);
    assert [] + found == found;
    SearchComplete(t, str, |found|);
    SortedCounted(found);
    forall k ensures k in KeysOf(found) <==> k in KeysFrom(m, str) {
      if k in KeysFrom(m, str) {
        assert m[k] in found;
      }
    }
    assert KeysOf(found) == KeysFrom(m, str);
  }

  /** `n` is the length of the longest prefix of `str` that `m` binds, or 0. */
  ghost predicate LongestIn(m: map<Key, NodeData>, str: Key, n: nat) {
    && n <= |str| && (n > 0 ==> str[..n] in m)
    && forall k: nat | n < k <= |str| :: str[..k] !in m
  }

  lemma LongestGrown(t: Tree, m: map<Key, NodeData>, str: Key, n: nat)
    requires Grown(t, m) && LongestBound(t, str, n)
    ensures LongestIn(m, str, n)
  {
  }
}
