/** Routing: which handler serves a path. */
module Routing {
  import opened SearchTree
  import opened TernarySearchTree

  /** A registration. */
  datatype Route = Route(path: Key, func: Func)

  /** Whether the first route of `routes` for the path `p` is the `i`th. */
  predicate FirstFor(routes: seq<Route>, p: Key, i: nat) {
    i < |routes| && routes[i].path == p && forall j | 0 <= j < i :: routes[j].path != p
  }

  /** Whether `func` is the answer for `path`: the handler registered first for the longest registered prefix,
      or null if no prefix is registered. */
  ghost predicate Serves(routes: seq<Route>, path: Key, func: Func) {
    || (func == 0 && forall r | r in routes :: !(r.path <= path))
    || (exists i: nat ::
          && i < |routes| && FirstFor(routes, routes[i].path, i) && routes[i].path <= path && func == routes[i].func
          && forall r | r in routes && r.path <= path :: |r.path| <= |routes[i].path|)
  }

  /** The bindings that the registrations leave behind. */
  function Bindings(routes: seq<Route>): map<Key, NodeData> {
    if routes == [] then map[]
    else
      var m, r := Bindings(routes[..|routes| - 1]), routes[|routes| - 1];
      if r.path in m then m else m[r.path := NodeData(r.path, r.func)]
  }

  /** A path is bound by its first registration. */
  lemma {:induction false} BindingsAreFirst(routes: seq<Route>, p: Key)
    ensures p in Bindings(routes) <==> exists r :: r in routes && r.path == p
    ensures p in Bindings(routes) ==>
              exists i: nat :: FirstFor(routes, p, i) && Bindings(routes)[p] == NodeData(p, routes[i].func)
  {
    if routes != [] {
      var n := |routes| - 1;
      var front := routes[..n];
      BindingsAreFirst(front, p);
      if p in Bindings(front) {
        var i: nat :| FirstFor(front, p, i) && Bindings(front)[p] == NodeData(p, front[i].func);
        assert FirstFor(routes, p, i);
      } else {
        forall j | 0 <= j < n ensures routes[j].path != p {
          assert front[j] in front;
        }
        if routes[n].path == p {
          assert FirstFor(routes, p, n);
        }
      }
    }
  }

  /** Longest bound prefix and first registration together are the answer. */
  lemma LongestServes(routes: seq<Route>, path: Key, n: nat)
    requires LongestIn(Bindings(routes), path, n) && forall r | r in routes :: r.path != []
    ensures Serves(routes, path, if n == 0 then 0 else Bindings(routes)[path[..n]].func)
  {
    forall r | r in routes && r.path <= path ensures |r.path| <= n {
      BindingsAreFirst(routes, r.path);
      assert path[..|r.path|] == r.path;
    }
    if n > 0 {
      BindingsAreFirst(routes, path[..n]);
      var i: nat :| FirstFor(routes, path[..n], i) && Bindings(routes)[path[..n]].func == routes[i].func;
      assert routes[i].path == path[..n];
    }
  }

  class HTTPHandler {
    const func_tree: TernarySearchTree
    /** All registrations, in order. */
    ghost var routes: seq<Route>

    ghost predicate Valid()
      reads this, func_tree, func_tree.root, ReprOf(func_tree.root)
    {
      && func_tree.Valid() && func_tree.bindings == Bindings(routes)
      && forall r | r in routes :: r.path != []
    }

    constructor ()
      ensures Valid() && routes == []
    {
      func_tree := new TernarySearchTree();
      routes := [];
    }

    method SetHandleFunc(path: Key, func: Func)
      requires Valid()
      modifies this, func_tree, ReprOf(func_tree.root)
      ensures Valid() && routes == old(routes) + (if path == [] then [] else [Route(path, func)])
    {
      if path == [] {
        return;
      }
      var r, npp := func_tree.Insert(NodeData(path, func));
      ghost var before := routes;
      routes := routes + [Route(path, func)];
      assert routes[..|routes| - 1] == before;
    }

    method GetHandleFunc(path: Key) returns (func: Func)
      requires Valid()
      ensures Serves(routes, path, func)
    {
      func := 0;
      if path == [] {
        return 0;
      }
      var data := func_tree.SearchOne(path);
      ghost var n: nat :| LongestIn(func_tree.bindings, path, n) &&
                          data == if n == 0 then NodeData([], 0) else func_tree.bindings[path[..n]];
      LongestServes(routes, path, n);
      if data.func != 0 {
        func := data.func;
      }
    }
  }
}
