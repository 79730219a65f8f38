/** What the active list of the connection pool means: a sequence without duplicates, and a cursor in it. */
module Lists {
  /** The cursor points to the element `at`, or to nothing when `at` is the length. */
  datatype List<T> = List(items: seq<T>, at: nat)

  predicate Distinct<T(==)>(s: seq<T>) { forall i, j | 0 <= i < j < |s| :: s[i] != s[j] }

  predicate IsList<T(==)>(l: List<T>) { Distinct(l.items) && l.at <= |l.items| }

  function Remove<T>(s: seq<T>, i: nat): (r: seq<T>)
    requires i < |s|
    ensures |r| == |s| - 1
  {
    s[..i] + s[i + 1..]
  }

  function IndexOf<T(==)>(s: seq<T>, c: T): (i: nat)
    requires c in s
    ensures i < |s| && s[i] == c
  {
    if s[0] == c then 0 else 1 + IndexOf(s[1..], c)
  }

  /** A pushed element comes last. A cursor at the end stays there. */
  function Push<T>(l: List<T>, c: T): List<T> {
    List(l.items + [c], if l.at == |l.items| then l.at + 1 else l.at)
  }

  /** A cursor at an erased element moves on to the next. */
  function Erase<T(==)>(l: List<T>, c: T): List<T>
    requires c in l.items
  {
    var i := IndexOf(l.items, c);
    List(Remove(l.items, i), if i < l.at then l.at - 1 else l.at)
  }

  function Start<T>(l: List<T>): List<T> { l.(at := 0) }

  function Next<T>(l: List<T>): List<T> { if l.at < |l.items| then l.(at := l.at + 1) else l }

  lemma DistinctRemove<T>(s: seq<T>, i: nat)
    requires Distinct(s) && i < |s|
    ensures Distinct(Remove(s, i)) && s[i] !in Remove(s, i)
    ensures forall x | x in s && x != s[i] :: x in Remove(s, i)
    ensures forall x | x in Remove(s, i) :: x in s
  {
    forall x | x in s && x != s[i] ensures x in Remove(s, i) {
      var k :| 0 <= k < |s| && s[k] == x;
      assert Remove(s, i)[if k < i then k else k - 1] == x;
    }
  }

  lemma EraseCursor<T>(l: List<T>, c: T)
    requires IsList(l) && c in l.items
    ensures var i, l' := IndexOf(l.items, c), Erase(l, c);
            && (i != l.at ==> (l'.at < |l'.items| <==> l.at < |l.items|) &&
                              (l.at < |l.items| ==> l'.items[l'.at] == l.items[l.at] != c))
            && (i == l.at ==> (l'.at < |l'.items| <==> l.at + 1 < |l.items|) &&
                              (l.at + 1 < |l.items| ==> l'.items[l'.at] == l.items[l.at + 1]))
  {
  }

  // ---- A sweep among other operations ------------------------------------------------------

  /** One step of the pool while a sweep is under way. */
  datatype Event<T> = Pushed(c: T) | Erased(c: T) | Asked

  /** The list and what the sweep has returned so far. */
  datatype Sweep<T> = Sweep(l: List<T>, returned: seq<T>)

  predicate Enabled<T(==)>(l: List<T>, e: Event<T>) {
    match e
    case Pushed(c) => c !in l.items
    case Erased(c) => c in l.items
    case Asked => true
  }

  function Step<T(==)>(s: Sweep<T>, e: Event<T>): Sweep<T>
    requires Enabled(s.l, e)
  {
    match e
    case Pushed(c) => s.(l := Push(s.l, c))
    case Erased(c) => s.(l := Erase(s.l, c))
    case Asked => Sweep(Next(s.l), s.returned + (if s.l.at < |s.l.items| then [s.l.items[s.l.at]] else []))
  }

  predicate Possible<T(==)>(s: Sweep<T>, events: seq<Event<T>>)
    decreases |events|
  {
    events == [] || (Enabled(s.l, events[0]) && Possible(Step(s, events[0]), events[1..]))
  }

  function After<T(==)>(s: Sweep<T>, events: seq<Event<T>>): Sweep<T>
    requires Possible(s, events)
    decreases |events|
  {
    if events == [] then s else After(Step(s, events[0]), events[1..])
  }

  /** The elements of `s` that are in `u`, in order. */
  function Filter<T(==)>(s: seq<T>, u: set<T>): seq<T> {
    if s == [] then [] else (if s[0] in u then [s[0]] else []) + Filter(s[1..], u)
  }

  lemma {:induction false} FilterSum<T>(a: seq<T>, b: seq<T>, u: set<T>)
    ensures Filter(a + b, u) == Filter(a, u) + Filter(b, u)
  {
    if a == [] {
      assert a + b == b;
    } else {
      assert (a + b)[0] == a[0] && (a + b)[1..] == a[1..] + b;
      FilterSum(a[1..], b, u);
      var first := if a[0] in u then [a[0]] else [];
      assert first + (Filter(a[1..], u) + Filter(b, u)) == first + Filter(a[1..], u) + Filter(b, u);
    }
  }

  lemma FilterRemove<T>(s: seq<T>, i: nat, u: set<T>)
    requires i < |s| && s[i] !in u
    ensures Filter(Remove(s, i), u) == Filter(s, u)
  {
    assert s == s[..i] + ([s[i]] + s[i + 1..]);
    FilterSum(s[..i], [s[i]] + s[i + 1..], u);
    FilterSum([s[i]], s[i + 1..], u);
    FilterSum(s[..i], s[i + 1..], u);
    assert Filter([s[i]], u) == [];
  }

  /** The untouched elements: in the list, and not touched by `events`. */
  predicate Untouched<T(==)>(u: set<T>, events: seq<Event<T>>) {
    forall e | e in events && !e.Asked? :: e.c !in u
  }

  /** What the sweep has returned and will return of `u`. */
  function Swept<T(==)>(s: Sweep<T>, u: set<T>): seq<T>
    requires s.l.at <= |s.l.items|
  {
    Filter(s.returned, u) + Filter(s.l.items[s.l.at..], u)
  }

  lemma PushKeepsSwept<T>(s: Sweep<T>, c: T, u: set<T>)
    requires IsList(s.l) && c !in s.l.items && c !in u
    ensures IsList(Push(s.l, c)) && Swept(s.(l := Push(s.l, c)), u) == Swept(s, u)
  {
    var l, l' := s.l, Push(s.l, c);
    if l.at < |l.items| {
      assert l'.items[l'.at..] == l.items[l.at..] + [c];
      FilterSum(l.items[l.at..], [c], u);
      assert Filter([c], u) == [];
    }
  }

  lemma EraseKeepsSwept<T>(s: Sweep<T>, c: T, u: set<T>)
    requires IsList(s.l) && c in s.l.items && c !in u
    ensures IsList(Erase(s.l, c)) && Swept(s.(l := Erase(s.l, c)), u) == Swept(s, u)
  {
    var l, l', i := s.l, Erase(s.l, c), IndexOf(s.l.items, c);
    DistinctRemove(l.items, i);
    if i < l.at {
      assert l'.items[l'.at..] == l.items[l.at..];
    } else {
      assert l'.items[l'.at..] == Remove(l.items[l.at..], i - l.at);
      FilterRemove(l.items[l.at..], i - l.at, u);
    }
  }

  lemma NextKeepsSwept<T>(s: Sweep<T>, u: set<T>)
    requires IsList(s.l)
    ensures IsList(Next(s.l)) && Swept(Step(s, Asked), u) == Swept(s, u)
  {
    if s.l.at < |s.l.items| {
      var rest := s.l.items[s.l.at..];
      assert rest[1..] == Next(s.l).items[Next(s.l).at..];
      FilterSum(s.returned, [rest[0]], u);
      assert Filter([rest[0]], u) == if rest[0] in u then [rest[0]] else [];
    } else {
      assert s.returned + [] == s.returned;
    }
  }

  lemma {:induction false} SweptKept<T>(s: Sweep<T>, events: seq<Event<T>>, u: set<T>)
    requires IsList(s.l) && Possible(s, events) && Untouched(u, events)
    ensures IsList(After(s, events).l) && Swept(After(s, events), u) == Swept(s, u)
    decreases |events|
  {
    if events != [] {
      var e := events[0];
      match e {
        case Pushed(c) => PushKeepsSwept(s, c, u);
        case Erased(c) => EraseKeepsSwept(s, c, u);
        case Asked => NextKeepsSwept(s, u);
      }
      SweptKept(Step(s, e), events[1..], u);
    }
  }

  /** A sweep from the head, interleaved with any pushes and erasures, returns what is not touched meanwhile,
      in list order: the part returned so far, and, when the cursor is at the end, all of it. */
  lemma SweepReturnsUntouched<T>(l: List<T>, events: seq<Event<T>>, u: set<T>)
    requires IsList(l) && Possible(Sweep(Start(l), []), events) && Untouched(u, events)
    ensures var s := After(Sweep(Start(l), []), events);
            && IsList(s.l)
            && Filter(s.returned, u) <= Filter(l.items, u)
            && (s.l.at == |s.l.items| ==> Filter(s.returned, u) == Filter(l.items, u))
  {
    var s0 := Sweep(Start(l), []);
    SweptKept(s0, events, u);
    assert l.items[0..] == l.items;
    assert Swept(s0, u) == Filter(l.items, u);
  }
}
