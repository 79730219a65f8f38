/** Ternary search trees as values: what the tree in memory means, and the laws of its operations. */
module SearchTree {
  import opened Wrappers

  /** A C `char`, and a string of them without NUL. */
  type Char = c: int | -0x80 <= c < 0x80 && c != 0 witness 1
  type Key = seq<Char>

  /** A handler; 0 is the null handler. */
  type Func = nat

  datatype NodeData = NodeData(str: Key, func: Func)
  datatype Tree = Nil | Node(c: Char, data: Option<NodeData>, left: Tree, center: Tree, right: Tree)

  // ---- Insertion and lookup ----------------------------------------------------------------

  /** The branch for the characters of `key` alone. */
  function Branch(key: Key, d: NodeData): Tree
    requires key != []
  {
    if |key| == 1 then Node(key[0], Some(d), Nil, Nil, Nil)
    else Node(key[0], None, Nil, Branch(key[1..], d), Nil)
  }

  function Insert(t: Tree, key: Key, d: NodeData): Tree
    requires key != []
    decreases |key|, t
  {
    match t
    case Nil => Branch(key, d)
    case Node(c, data, left, center, right) =>
      if key[0] < c then Node(c, data, Insert(left, key, d), center, right)
      else if key[0] > c then Node(c, data, left, center, Insert(right, key, d))
      else if |key| == 1 then (if data.None? then Node(c, Some(d), left, center, right) else t)
      else Node(c, data, left, Insert(center, key[1..], d), right)
  }

  function Lookup(t: Tree, key: Key): Option<NodeData>
    decreases |key|, t
  {
    if key == [] || t.Nil? then None
    else if key[0] < t.c then Lookup(t.left, key)
    else if key[0] > t.c then Lookup(t.right, key)
    else if |key| == 1 then t.data
    else Lookup(t.center, key[1..])
  }

  lemma {:induction false} LookupBranch(key: Key, d: NodeData, other: Key)
    requires key != []
    ensures Lookup(Branch(key, d), other) == if other == key then Some(d) else None
    decreases |key|
  {
    if |key| > 1 && |other| > 1 && other[0] == key[0] {
      LookupBranch(key[1..], d, other[1..]);
      SameTail(key, other);
    }
  }

  lemma SameTail(a: Key, b: Key)
    requires a != [] && b != [] && a[0] == b[0]
    ensures a == b <==> a[1..] == b[1..]
  {
    assert a == [a[0]] + a[1..] && b == [b[0]] + b[1..];
  }

  /** The first binding of a key stays, and no other binding changes. */
  lemma {:induction false} LookupInsert(t: Tree, key: Key, d: NodeData, other: Key)
    requires key != []
    ensures Lookup(Insert(t, key, d), other) ==
              if other == key && Lookup(t, key).None? then Some(d) else Lookup(t, other)
    decreases |key|, t
  {
    if t.Nil? {
      LookupBranch(key, d, other);
    } else if key[0] < t.c {
      LookupInsert(t.left, key, d, other);
    } else if key[0] > t.c {
      LookupInsert(t.right, key, d, other);
    } else if |key| > 1 {
      if |other| > 1 && other[0] == key[0] {
        LookupInsert(t.center, key[1..], d, other[1..]);
        SameTail(key, other);
      }
    } else if |other| == 1 && other[0] == key[0] {
      assert other == key;
    }
  }

  // ---- Order -------------------------------------------------------------------------------

  /** The characters that alternate at one place. */
  function Chars(t: Tree): set<int> {
    if t.Nil? then {} else {t.c as int} + Chars(t.left) + Chars(t.right)
  }

  predicate Below(s: set<int>, c: int) { forall x | x in s :: x < c }
  predicate Above(s: set<int>, c: int) { forall x | x in s :: x > c }

  predicate Ordered(t: Tree) {
    t.Node? ==>
      && Ordered(t.left) && Ordered(t.center) && Ordered(t.right)
      && Below(Chars(t.left), t.c) && Above(Chars(t.right), t.c)
  }

  lemma {:induction false} InsertChars(t: Tree, key: Key, d: NodeData)
    requires key != []
    ensures Chars(Insert(t, key, d)) == Chars(t) + {key[0] as int}
    decreases |key|, t
  {
    if t.Node? && key[0] < t.c {
      InsertChars(t.left, key, d);
    } else if t.Node? && key[0] > t.c {
      InsertChars(t.right, key, d);
    }
  }

  lemma {:induction false} BranchOrdered(key: Key, d: NodeData)
    requires key != []
    ensures Ordered(Branch(key, d))
    decreases |key|
  {
    if |key| > 1 {
      BranchOrdered(key[1..], d);
    }
  }

  /** Insertion keeps the three-way order. */
  lemma {:induction false} InsertOrdered(t: Tree, key: Key, d: NodeData)
    requires key != [] && Ordered(t)
    ensures Ordered(Insert(t, key, d))
    decreases |key|, t
  {
    if t.Nil? {
      BranchOrdered(key, d);
    } else if key[0] < t.c {
      InsertOrdered(t.left, key, d);
      InsertChars(t.left, key, d);
    } else if key[0] > t.c {
      InsertOrdered(t.right, key, d);
      InsertChars(t.right, key, d);
    } else if |key| > 1 {
      InsertOrdered(t.center, key[1..], d);
    }
  }

  // ---- The longest prefix ------------------------------------------------------------------

  /** What the search for one result holds at the end, if it holds `best` so far. */
  function SearchOne(t: Tree, key: Key, best: Option<NodeData>): Option<NodeData>
    requires key != []
    decreases |key|, t
  {
    if t.Nil? then best
    else if key[0] < t.c then SearchOne(t.left, key, best)
    else if key[0] > t.c then SearchOne(t.right, key, best)
    else
      var better := if t.data.Some? then t.data else best;
      if |key| > 1 then SearchOne(t.center, key[1..], better) else better
  }

  /** `n` is the length of the longest prefix of `key` that is bound, or 0. */
  predicate LongestBound(t: Tree, key: Key, n: nat) {
    && n <= |key| && (n > 0 ==> Lookup(t, key[..n]).Some?)
    && forall m: nat | n < m <= |key| :: Lookup(t, key[..m]).None?
  }

  /** Search for one result finds the binding of the longest bound prefix. */
  lemma {:induction false} SearchOneLongest(t: Tree, key: Key, best: Option<NodeData>) returns (n: nat)
    requires key != []
    ensures LongestBound(t, key, n)
    ensures SearchOne(t, key, best) == if n == 0 then best else Lookup(t, key[..n])
    decreases |key|, t
  {
    if t.Nil? {
      n := 0;
    } else if key[0] < t.c {
      n := SearchOneLongest(t.left, key, best);
      PrefixesInside(t, t.left, key);
    } else if key[0] > t.c {
      n := SearchOneLongest(t.right, key, best);
      PrefixesInside(t, t.right, key);
    } else {
      var better := if t.data.Some? then t.data else best;
      PrefixesDown(t, key);
      if |key| > 1 {
        var m := SearchOneLongest(t.center, key[1..], better);
        n := if m > 0 then m + 1 else if t.data.Some? then 1 else 0;
      } else {
        n := if t.data.Some? then 1 else 0;
      }
    }
  }

  lemma PrefixesInside(t: Tree, side: Tree, key: Key)
    requires t.Node? && key != [] && key[0] != t.c && side == if key[0] < t.c then t.left else t.right
    ensures forall m: nat | 0 < m <= |key| :: Lookup(t, key[..m]) == Lookup(side, key[..m])
  {
  }

  lemma PrefixesDown(t: Tree, key: Key)
    requires t.Node? && key != [] && key[0] == t.c
    ensures Lookup(t, key[..1]) == t.data
    ensures forall m: nat | 1 < m <= |key| :: Lookup(t, key[..m]) == Lookup(t.center, key[1..][..m - 1])
  {
    forall m: nat | 1 < m <= |key| ensures Lookup(t, key[..m]) == Lookup(t.center, key[1..][..m - 1]) {
      assert key[..m][1..] == key[1..][..m - 1];
    }
  }

  // ---- Enumeration -------------------------------------------------------------------------

  /** `t` sits below the characters `path`, and every binding in it carries its own key. */
  predicate Named(t: Tree, path: Key) {
    t.Node? ==>
      && (t.data.Some? ==> t.data.value.str == path + [t.c])
      && Named(t.left, path) && Named(t.center, path + [t.c]) && Named(t.right, path)
  }

  lemma {:induction false} BranchNamed(key: Key, d: NodeData, path: Key)
    requires key != [] && d.str == path + key
    ensures Named(Branch(key, d), path)
    decreases |key|
  {
    if |key| > 1 {
      assert path + [key[0]] + key[1..] == path + key;
      BranchNamed(key[1..], d, path + [key[0]]);
    } else {
      assert key == [key[0]];
    }
  }

  lemma {:induction false} InsertNamed(t: Tree, key: Key, d: NodeData, path: Key)
    requires key != [] && d.str == path + key && Named(t, path)
    ensures Named(Insert(t, key, d), path)
    decreases |key|, t
  {
    if t.Nil? {
      BranchNamed(key, d, path);
    } else if key[0] < t.c {
      InsertNamed(t.left, key, d, path);
    } else if key[0] > t.c {
      InsertNamed(t.right, key, d, path);
    } else if |key| > 1 {
      assert path + [t.c] + key[1..] == path + key;
      InsertNamed(t.center, key[1..], d, path + [t.c]);
    } else {
      assert key == [key[0]];
    }
  }

  function Opt(data: Option<NodeData>): seq<NodeData> { if data.Some? then [data.value] else [] }

  /** All bindings, in the order of the traversal. */
  function All(t: Tree): seq<NodeData> {
    if t.Nil? then [] else All(t.left) + (Opt(t.data) + (All(t.center) + All(t.right)))
  }

  /** Lexicographic order. */
  predicate Less(a: Key, b: Key) {
    b != [] && (a == [] || a[0] < b[0] || (a[0] == b[0] && Less(a[1..], b[1..])))
  }

  lemma {:induction false} LessAt(a: Key, b: Key, i: nat)
    requires i <= |a| && i < |b| && a[..i] == b[..i] && (i == |a| || a[i] < b[i])
    ensures Less(a, b)
    decreases i
  {
    if i > 0 {
      assert a[0] == a[..i][0] && b[0] == b[..i][0];
      assert a[1..][..i - 1] == a[..i][1..] && b[1..][..i - 1] == b[..i][1..];
      LessAt(a[1..], b[1..], i - 1);
    }
  }

  predicate Sorted(s: seq<NodeData>) { forall i, j | 0 <= i < j < |s| :: Less(s[i].str, s[j].str) }

  /** Every key in `s` goes on behind `path`, with a character in `xs`. */
  predicate AllBehind(s: seq<NodeData>, path: Key, xs: set<int>) {
    forall d | d in s :: path <= d.str && |path| < |d.str| && d.str[|path|] as int in xs
  }

  predicate Precede(a: seq<NodeData>, b: seq<NodeData>) {
    forall x, y | x in a && y in b :: Less(x.str, y.str)
  }

  lemma SortedSum(a: seq<NodeData>, b: seq<NodeData>)
    requires Sorted(a) && Sorted(b) && Precede(a, b)
    ensures Sorted(a + b)
  {
    forall i, j | 0 <= i < j < |a + b| ensures Less((a + b)[i].str, (a + b)[j].str) {
      if i < |a| <= j {
        assert a[i] in a && b[j - |a|] in b;
      }
    }
  }

  lemma LowerCharPrecedes(a: seq<NodeData>, b: seq<NodeData>, path: Key, xs: set<int>, ys: set<int>)
    requires AllBehind(a, path, xs) && AllBehind(b, path, ys)
    requires forall x, y | x in xs && y in ys :: x < y
    ensures Precede(a, b)
  {
    forall d, e | d in a && e in b ensures Less(d.str, e.str) {
      LessAt(d.str, e.str, |path|);
    }
  }

  lemma ShorterPrecedes(data: Option<NodeData>, b: seq<NodeData>, path: Key, xs: set<int>)
    requires data.Some? ==> data.value.str == path
    requires AllBehind(b, path, xs)
    ensures Precede(Opt(data), b)
  {
    forall d, e | d in Opt(data) && e in b ensures Less(d.str, e.str) {
      LessAt(d.str, e.str, |path|);
    }
  }

  lemma BehindLonger(s: seq<NodeData>, path: Key, c: Char, xs: set<int>)
    requires AllBehind(s, path + [c], xs)
    ensures AllBehind(s, path, {c as int})
  {
    forall d | d in s ensures path <= d.str && |path| < |d.str| && d.str[|path|] == c {
      assert d.str[..|path + [c]|] == path + [c];
      assert d.str[..|path|] == (path + [c])[..|path|];
      assert d.str[|path|] == (path + [c])[|path|];
    }
  }

  /** The traversal lists the bindings in strictly increasing order. */
  lemma {:induction false} AllSorted(t: Tree, path: Key)
    requires Ordered(t) && Named(t, path)
    ensures Sorted(All(t)) && AllBehind(All(t), path, Chars(t))
    decreases t
  {
    if t.Node? {
      var l, o, m, r := All(t.left), Opt(t.data), All(t.center), All(t.right);
      var c, down := {t.c as int}, path + [t.c];
      AllSorted(t.left, path);
      AllSorted(t.center, down);
      AllSorted(t.right, path);
      BehindLonger(m, path, t.c, Chars(t.center));
      assert AllBehind(o, path, c);
      LowerCharPrecedes(m, r, path, c, Chars(t.right));
      SortedSum(m, r);
      LowerCharPrecedes(o, r, path, c, Chars(t.right));
      ShorterPrecedes(t.data, m, down, Chars(t.center));
      SortedSum(o, m + r);
      LowerCharPrecedes(l, o, path, Chars(t.left), c);
      LowerCharPrecedes(l, m, path, Chars(t.left), c);
      LowerCharPrecedes(l, r, path, Chars(t.left), Chars(t.right));
      SortedSum(l, o + (m + r));
    }
  }

  lemma LookupSide(t: Tree, d: NodeData, path: Key)
    requires t.Node? && Ordered(t) && path <= d.str && |path| < |d.str|
    ensures var c := d.str[|path|];
            Lookup(t, d.str[|path|..]) ==
              if c < t.c then Lookup(t.left, d.str[|path|..])
              else if c > t.c then Lookup(t.right, d.str[|path|..])
              else if |d.str| == |path| + 1 then t.data
              else Lookup(t.center, d.str[|path + [t.c]|..])
  {
    assert d.str[|path|..][1..] == d.str[|path + [t.c]|..];
  }

  /** What the traversal lists is what lookup finds. */
  lemma {:induction false} AllFound(t: Tree, path: Key, d: NodeData)
    requires Ordered(t) && Named(t, path) && path <= d.str && |path| < |d.str|
    ensures d in All(t) <==> Lookup(t, d.str[|path|..]) == Some(d)
    decreases t
  {
    if t.Node? {
      var down := path + [t.c];
      AllSorted(t.left, path);
      AllSorted(t.center, down);
      AllSorted(t.right, path);
      BehindLonger(All(t.center), path, t.c, Chars(t.center));
      LookupSide(t, d, path);
      AllFound(t.left, path, d);
      AllFound(t.right, path, d);
      if d.str[|path|] == t.c && |d.str| > |path| + 1 {
        assert down <= d.str;
        AllFound(t.center, down, d);
      } else if d.str[|path|] == t.c {
        assert d.str == d.str[..|path|] + [t.c];
      }
    }
  }

  // ---- The bounded traversal ---------------------------------------------------------------

  /** The list after the traversal, if it is `list` before: over the limit, a node's center and right are
      skipped, but its ancestors go on. */
  function Traverse(t: Tree, list: seq<NodeData>, limit: int): seq<NodeData> {
    if t.Nil? then list
    else
      var l := Traverse(t.left, list, limit);
      if t.data.None? then Traverse(t.right, Traverse(t.center, l, limit), limit)
      else if |l| + 1 > limit then l + [t.data.value]
      else Traverse(t.right, Traverse(t.center, l + [t.data.value], limit), limit)
  }

  /** The list after the search for the keys that start with `key`. */
  function Search(t: Tree, key: Key, list: seq<NodeData>, limit: int): seq<NodeData>
    requires key != []
    decreases |key|, t
  {
    if t.Nil? then list
    else if key[0] < t.c then Search(t.left, key, list, limit)
    else if key[0] > t.c then Search(t.right, key, list, limit)
    else if |key| == 1 then Traverse(t.center, list + Opt(t.data), limit)
    else Search(t.center, key[1..], list, limit)
  }

  lemma Reassociate(a: seq<NodeData>, l: seq<NodeData>, o: seq<NodeData>, m: seq<NodeData>, r: seq<NodeData>)
    ensures a + l + o + m + r == a + (l + (o + (m + r)))
  {
  }

  /** Within the limit the traversal is complete. */
  lemma {:induction false} TraverseAll(t: Tree, list: seq<NodeData>, limit: int)
    requires |list| + |All(t)| <= limit
    ensures Traverse(t, list, limit) == list + All(t)
    decreases t
  {
    if t.Nil? {
      assert list + [] == list;
    } else {
      var l, o, m, r := All(t.left), Opt(t.data), All(t.center), All(t.right);
      TraverseAll(t.left, list, limit);
      TraverseAll(t.center, list + l + o, limit);
      TraverseAll(t.right, list + l + o + m, limit);
      Reassociate(list, l, o, m, r);
      assert t.data.None? ==> list + l + o == list + l;
    }
  }

  /** The bindings of the keys that start with `key`, in order. */
  function Matches(t: Tree, key: Key): seq<NodeData>
    requires key != []
    decreases |key|, t
  {
    if t.Nil? then []
    else if key[0] < t.c then Matches(t.left, key)
    else if key[0] > t.c then Matches(t.right, key)
    else if |key| == 1 then Opt(t.data) + All(t.center)
    else Matches(t.center, key[1..])
  }

  lemma {:induction false} SearchMatches(t: Tree, key: Key, list: seq<NodeData>, limit: int)
    requires key != [] && |list| + |Matches(t, key)| <= limit
    ensures Search(t, key, list, limit) == list + Matches(t, key)
    decreases |key|, t
  {
    if t.Nil? {
      assert list + [] == list;
    } else if key[0] < t.c {
      SearchMatches(t.left, key, list, limit);
    } else if key[0] > t.c {
      SearchMatches(t.right, key, list, limit);
    } else if |key| > 1 {
      SearchMatches(t.center, key[1..], list, limit);
    } else {
      TraverseAll(t.center, list + Opt(t.data), limit);
      assert list + Opt(t.data) + All(t.center) == list + (Opt(t.data) + All(t.center));
    }
  }

  lemma {:induction false} MatchesSorted(t: Tree, key: Key, path: Key)
    requires key != [] && Ordered(t) && Named(t, path)
    ensures Sorted(Matches(t, key))
    decreases |key|, t
  {
    if t.Node? {
      if key[0] < t.c {
        MatchesSorted(t.left, key, path);
      } else if key[0] > t.c {
        MatchesSorted(t.right, key, path);
      } else if |key| > 1 {
        MatchesSorted(t.center, key[1..], path + [t.c]);
      } else {
        AllSorted(t.center, path + [t.c]);
        ShorterPrecedes(t.data, All(t.center), path + [t.c], Chars(t.center));
        SortedSum(Opt(t.data), All(t.center));
      }
    }
  }

  /** A key that starts with `path + key`. */
  predicate Starts(d: NodeData, path: Key, key: Key) { path + key <= d.str }

  lemma StartsParts(d: NodeData, path: Key, key: Key)
    requires key != []
    ensures Starts(d, path, key) ==> path <= d.str && |path| < |d.str| && d.str[|path|] == key[0]
    ensures Starts(d, path, key) == Starts(d, path + [key[0]], key[1..])
  {
    assert path + [key[0]] + key[1..] == path + key;
    if Starts(d, path, key) {
      assert d.str[..|path + key|] == path + key;
      assert d.str[..|path|] == (path + key)[..|path|];
      assert d.str[|path|] == (path + key)[|path|];
    }
  }

  /** The matches are the bindings that lookup finds for the keys that start with `key`. */
  lemma {:induction false} MatchesFound(t: Tree, key: Key, path: Key, d: NodeData)
    requires key != [] && Ordered(t) && Named(t, path)
    ensures d in Matches(t, key) <==> Starts(d, path, key) && Lookup(t, d.str[|path|..]) == Some(d)
    decreases |key|, t
  {
    StartsParts(d, path, key);
    if t.Node? {
      if Starts(d, path, key) {
        LookupSide(t, d, path);
      }
      if key[0] < t.c {
        MatchesFound(t.left, key, path, d);
      } else if key[0] > t.c {
        MatchesFound(t.right, key, path, d);
      } else if |key| > 1 {
        MatchesFound(t.center, key[1..], path + [t.c], d);
      } else {
        MatchesFoundHere(t, key, path, d);
      }
    }
  }

  lemma MatchesFoundHere(t: Tree, key: Key, path: Key, d: NodeData)
    requires t.Node? && key == [t.c] && Ordered(t) && Named(t, path)
    ensures d in Matches(t, key) <==> Starts(d, path, key) && Lookup(t, d.str[|path|..]) == Some(d)
  {
    var down := path + [t.c];
    AllSorted(t.center, down);
    StartsParts(d, path, key);
    if Starts(d, path, key) {
      LookupSide(t, d, path);
      if |d.str| > |down| {
        AllFound(t.center, down, d);
      } else {
        assert d.str == down;
      }
    }
  }

  /** Search within the limit, on a tree that has grown from `Nil`: every binding whose key starts with
      `key`, once, in strictly increasing order. */
  lemma SearchComplete(t: Tree, key: Key, limit: int)
    requires key != [] && Ordered(t) && Named(t, []) && |Matches(t, key)| <= limit
    ensures var found := Search(t, key, [], limit);
            Sorted(found) && forall d :: d in found <==> key <= d.str && Lookup(t, d.str) == Some(d)
  {
    SearchMatches(t, key, [], limit);
    assert [] + Matches(t, key) == Matches(t, key);
    MatchesSorted(t, key, []);
    forall d ensures d in Matches(t, key) <==> key <= d.str && Lookup(t, d.str) == Some(d) {
      MatchesFound(t, key, [], d);
      assert [] + key == key && d.str[0..] == d.str;
    }
  }
}
