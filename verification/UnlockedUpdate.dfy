/** `ActiveListUpdate` as the event thread calls it: two sections of the active list's mutex, an erasure and a
    push, before it has the connection's mutex, with steps of other threads between them. */
module UnlockedUpdate {
  import Lists
  import opened Lifecycle
  import opened Wrappers

  /** Thread `t` updates connection `c` while the other threads do `between`. */
  datatype Update = Update(t: nat, c: nat, between: seq<Action>)

  predicate UpdatePossible(s: State, u: Update, max_conn: int) {
    && u.t < |s.threads| && s.threads[u.t] == Idle && u.c < |s.conns| && ActiveMtx !in s.leaves
    && (forall a | a in u.between :: a.t != u.t)
    && Possible(EraseActive(s, u.c), u.between, max_conn)
    && ActiveMtx !in After(EraseActive(s, u.c), u.between, max_conn).leaves
  }

  function Updated(s: State, u: Update, max_conn: int): State
    requires UpdatePossible(s, u, max_conn)
  {
    PushActive(After(EraseActive(s, u.c), u.between, max_conn), u.c)
  }

  /** Thread `t` takes `c` off the active list in its next step, in a reset or an update of its own. */
  predicate Erases(s: State, t: nat, m: Move, c: nat) {
    && t < |s.threads| && m == Leave
    && (s.threads[t] == In(c, UpdateErase, true) || s.threads[t] == In(c, ResetErase, true))
  }

  predicate ErasedIn(s: State, run: seq<Action>, c: nat, max_conn: int)
    requires Possible(s, run, max_conn)
    decreases |run|
  {
    run != [] &&
    (Erases(s, run[0].t, run[0].m, c) ||
     ErasedIn(Step(s, run[0].t, run[0].m, max_conn), run[1..], c, max_conn))
  }

  /** The connection is active at the erasure, and no other thread erases it before the push. */
  predicate InContract(s: State, u: Update, max_conn: int)
    requires UpdatePossible(s, u, max_conn)
  {
    u.c in s.active.items && !ErasedIn(EraseActive(s, u.c), u.between, u.c, max_conn)
  }

  // ---- The state with the connection missing -----------------------------------------------

  /** `s'` is `s` without `c` on its active list. */
  ghost predicate Missing(s: State, s': State, c: nat) {
    && s' == s.(active := s'.active) && Lists.IsList(s'.active)
    && c in s.active.items && c !in s'.active.items
    && forall d | d != c :: d in s'.active.items <==> d in s.active.items
  }

  lemma ErasedIsMissing(s: State, c: nat)
    requires Lists.IsList(s.active) && c in s.active.items
    ensures Missing(s, EraseActive(s, c), c)
  {
    Lists.DistinctRemove(s.active.items, Lists.IndexOf(s.active.items, c));
  }

  lemma StepCorruptStays(s: State, t: nat, m: Move, max_conn: int)
    requires Enabled(s, t, m) && s.corrupt
    ensures Step(s, t, m, max_conn).corrupt
  {
  }

  lemma {:induction false} CorruptStays(s: State, run: seq<Action>, max_conn: int)
    requires Possible(s, run, max_conn) && s.corrupt
    ensures After(s, run, max_conn).corrupt
    decreases |run|
  {
    if run != [] {
      StepCorruptStays(s, run[0].t, run[0].m, max_conn);
      CorruptStays(Step(s, run[0].t, run[0].m, max_conn), run[1..], max_conn);
    }
  }

  /** A step that erases `c` where `c` is missing is outside the erasure's contract. */
  lemma ErasureFails(s: State, t: nat, m: Move, c: nat, max_conn: int)
    requires Enabled(s, t, m) && Erases(s, t, m, c) && c !in s.active.items
    ensures Step(s, t, m, max_conn).corrupt
  {
  }

  lemma EraseMissing(s: State, s': State, c: nat, d: nat)
    requires Lists.IsList(s.active) && Missing(s, s', c) && d in s.active.items && d != c
    ensures Missing(EraseActive(s, d), EraseActive(s', d), c)
  {
    Lists.DistinctRemove(s.active.items, Lists.IndexOf(s.active.items, d));
    Lists.DistinctRemove(s'.active.items, Lists.IndexOf(s'.active.items, d));
  }

  lemma PushMissing(s: State, s': State, c: nat, d: nat)
    requires Missing(s, s', c) && d !in s.active.items
    ensures Missing(PushActive(s, d), PushActive(s', d), c)
  {
  }

  /** Every other step goes on as if `c` were there. */
  lemma MissingStep(s: State, s': State, t: nat, m: Move, c: nat, max_conn: int)
    requires Inv(s, max_conn) && Missing(s, s', c) && Enabled(s', t, m) && !Erases(s', t, m, c)
    ensures Enabled(s, t, m) && Missing(Step(s, t, m, max_conn), Step(s', t, m, max_conn), c)
  {
    StepKeepsInv(s, t, m, max_conn);
    var pc := s.threads[t];
    if m == Leave && pc.In? {
      var r, r' := s.(leaves := s.leaves - {LeafOf(pc.op)}), s'.(leaves := s'.leaves - {LeafOf(pc.op)});
      match pc.op
      case AcceptPush | UpdatePush => PushMissing(r, r', c, pc.c);
      case UpdateErase | ResetErase => EraseMissing(r, r', c, pc.c);
      case _ =>
    }
  }

  lemma {:induction false} MissingRun(s: State, s': State, run: seq<Action>, c: nat, max_conn: int)
    requires Inv(s, max_conn) && Missing(s, s', c) && Possible(s', run, max_conn)
    ensures if ErasedIn(s', run, c, max_conn) then After(s', run, max_conn).corrupt
            else && Possible(s, run, max_conn) && Inv(After(s, run, max_conn), max_conn)
                 && Missing(After(s, run, max_conn), After(s', run, max_conn), c)
    decreases |run|
  {
    if run != [] {
      var t, m := run[0].t, run[0].m;
      if Erases(s', t, m, c) {
        ErasureFails(s', t, m, c, max_conn);
        CorruptStays(Step(s', t, m, max_conn), run[1..], max_conn);
      } else {
        MissingStep(s, s', t, m, c, max_conn);
        StepKeepsInv(s, t, m, max_conn);
        MissingRun(Step(s, t, m, max_conn), Step(s', t, m, max_conn), run[1..], c, max_conn);
      }
    }
  }

  /** The order of the active list and its cursor do not matter to the invariant. */
  lemma InvUpToOrder(s: State, s': State, max_conn: int)
    requires Inv(s, max_conn) && s' == s.(active := s'.active) && Lists.IsList(s'.active)
    requires forall d :: d in s'.active.items <==> d in s.active.items
    ensures Inv(s', max_conn)
  {
    forall d: nat, t: nat ensures Popped(s', t, d) == Popped(s, t, d) {
    }
    forall d: nat ensures Loose(s', d) == Loose(s, d) {
      if t: nat :| Popped(s, t, d) {
        assert Popped(s', t, d);
      }
      if t: nat :| Popped(s', t, d) {
        assert Popped(s, t, d);
      }
    }
    forall d | 0 <= d < |s'.conns| ensures Placed(s', d) {
      assert Placed(s, d);
    }
  }

  /** An unlocked update stays within the contracts of the active list if and only if its connection is active
      at the erasure and no other thread erases it before the push; and then the invariant is restored. */
  lemma UpdateInContract(s: State, u: Update, max_conn: int)
    requires Inv(s, max_conn) && UpdatePossible(s, u, max_conn)
    ensures !Updated(s, u, max_conn).corrupt <==> InContract(s, u, max_conn)
    ensures InContract(s, u, max_conn) ==> Inv(Updated(s, u, max_conn), max_conn)
  {
    var s', c := EraseActive(s, u.c), u.c;
    if c in s.active.items {
      ErasedIsMissing(s, c);
      MissingRun(s, s', u.between, c, max_conn);
      if InContract(s, u, max_conn) {
        InvUpToOrder(After(s, u.between, max_conn), Updated(s, u, max_conn), max_conn);
      }
    } else {
      CorruptStays(s', u.between, max_conn);
    }
  }

  // ---- Whole runs --------------------------------------------------------------------------

  /** A run of the server as the code is: steps as before, and unlocked updates of the one event thread. */
  datatype Event = Plain(a: Action) | Unlocked(u: Update)

  predicate EventPossible(s: State, e: Event, max_conn: int) {
    match e
    case Plain(a) => Enabled(s, a.t, a.m)
    case Unlocked(u) => UpdatePossible(s, u, max_conn)
  }

  function EventAfter(s: State, e: Event, max_conn: int): State
    requires EventPossible(s, e, max_conn)
  {
    match e
    case Plain(a) => Step(s, a.t, a.m, max_conn)
    case Unlocked(u) => Updated(s, u, max_conn)
  }

  predicate RunPossible(s: State, run: seq<Event>, max_conn: int)
    decreases |run|
  {
    run == [] ||
    (EventPossible(s, run[0], max_conn) && RunPossible(EventAfter(s, run[0], max_conn), run[1..], max_conn))
  }

  function RunAfter(s: State, run: seq<Event>, max_conn: int): State
    requires RunPossible(s, run, max_conn)
    decreases |run|
  {
    if run == [] then s else RunAfter(EventAfter(s, run[0], max_conn), run[1..], max_conn)
  }

  /** Every unlocked update of the run is within its contract. */
  predicate AllInContract(s: State, run: seq<Event>, max_conn: int)
    requires RunPossible(s, run, max_conn)
    decreases |run|
  {
    run == [] ||
    ((run[0].Unlocked? ==> InContract(s, run[0].u, max_conn)) &&
     AllInContract(EventAfter(s, run[0], max_conn), run[1..], max_conn))
  }

  lemma {:induction false} RunCorruptStays(s: State, run: seq<Event>, max_conn: int)
    requires RunPossible(s, run, max_conn) && s.corrupt
    ensures RunAfter(s, run, max_conn).corrupt
    decreases |run|
  {
    if run != [] {
      match run[0] {
        case Plain(a) => StepCorruptStays(s, a.t, a.m, max_conn);
        case Unlocked(u) => CorruptStays(EraseActive(s, u.c), u.between, max_conn);
      }
      RunCorruptStays(EventAfter(s, run[0], max_conn), run[1..], max_conn);
    }
  }

  lemma {:induction false} RunInContract(s: State, run: seq<Event>, max_conn: int)
    requires Inv(s, max_conn) && RunPossible(s, run, max_conn)
    ensures !RunAfter(s, run, max_conn).corrupt <==> AllInContract(s, run, max_conn)
    ensures AllInContract(s, run, max_conn) ==> Inv(RunAfter(s, run, max_conn), max_conn)
    decreases |run|
  {
    if run != [] {
      var e := run[0];
      var s' := EventAfter(s, e, max_conn);
      match e {
        case Plain(a) => StepKeepsInv(s, a.t, a.m, max_conn);
        case Unlocked(u) => UpdateInContract(s, u, max_conn);
      }
      if e.Unlocked? && !InContract(s, e.u, max_conn) {
        RunCorruptStays(s', run[1..], max_conn);
      } else {
        RunInContract(s', run[1..], max_conn);
      }
    }
  }

  /** The server with its unlocked updates, from the start: no list operation is ever called outside its
      contract if and only if no update meets a connection that is not active, or whose erasure by another
      thread falls between the two sections. Then all of `Lifecycle.Safety` holds. */
  lemma UnlockedSafety(threads: nat, run: seq<Event>, max_conn: int)
    requires 0 <= max_conn && RunPossible(Init(threads), run, max_conn)
    ensures var s := RunAfter(Init(threads), run, max_conn);
            && (!s.corrupt <==> AllInContract(Init(threads), run, max_conn))
            && (!s.corrupt ==> Inv(s, max_conn))
  {
    InitInv(threads, max_conn);
    RunInContract(Init(threads), run, max_conn);
  }

  /** For a connection whose mutex is free, active means open. */
  lemma FreeUpdateInContract(s: State, u: Update, max_conn: int)
    requires Inv(s, max_conn) && UpdatePossible(s, u, max_conn) && s.conns[u.c].mtx.None?
    ensures !Updated(s, u, max_conn).corrupt <==>
              s.conns[u.c].fd > 0 && !ErasedIn(EraseActive(s, u.c), u.between, u.c, max_conn)
  {
    UpdateInContract(s, u, max_conn);
    assert Placed(s, u.c);
  }

  // ---- A run that fails --------------------------------------------------------------------

  lemma OneMore(s: State, a: Action, rest: seq<Action>, max_conn: int)
    requires Enabled(s, a.t, a.m) && Possible(Step(s, a.t, a.m, max_conn), rest, max_conn)
    ensures Possible(s, [a] + rest, max_conn)
    ensures After(s, [a] + rest, max_conn) == After(Step(s, a.t, a.m, max_conn), rest, max_conn)
  {
    assert ([a] + rest)[1..] == rest;
  }

  lemma {:induction false} OneAfterOther(s: State, a: seq<Action>, b: seq<Action>, max_conn: int)
    requires Possible(s, a, max_conn) && Possible(After(s, a, max_conn), b, max_conn)
    ensures Possible(s, a + b, max_conn) && After(s, a + b, max_conn) == After(After(s, a, max_conn), b, max_conn)
    decreases |a|
  {
    if a == [] {
      assert a + b == b;
    } else {
      var s' := Step(s, a[0].t, a[0].m, max_conn);
      OneAfterOther(s', a[1..], b, max_conn);
      OneMore(s, a[0], a[1..] + b, max_conn);
      assert a + b == [a[0]] + (a[1..] + b);
    }
  }

  /** Thread 0 has a new connection in hand; it is set up; it is open, and nobody holds anything. */
  const HANDED: State := State([Conn(-1, None)], [], Lists.List([], 0), 1, [LockWant(0, true), Idle], map[], false)
  const READY: State := State([Conn(3, Some(0))], [], Lists.List([], 0), 1, [Opened(0), Idle], map[], false)
  const OPENED: State := State([Conn(3, None)], [], Lists.List([0], 1), 1, [Idle, Idle], map[], false)

  lemma HandedReachable()
    ensures var run := [Action(0, Begin(FreePop)), Action(0, Enter), Action(0, Leave)];
            Possible(Init(2), run, 0) && After(Init(2), run, 0) == HANDED
  {
    var s1 := Step(Init(2), 0, Begin(FreePop), 0);
    var s2 := Step(s1, 0, Enter, 0);
    assert Step(s2, 0, Leave, 0) == HANDED;
    OneMore(s2, Action(0, Leave), [], 0);
    OneMore(s1, Action(0, Enter), [Action(0, Leave)], 0);
    OneMore(Init(2), Action(0, Begin(FreePop)), [Action(0, Enter)] + [Action(0, Leave)], 0);
  }

  lemma ReadyReachable()
    ensures var run := [Action(0, Lock), Action(0, Open(3))];
            Possible(HANDED, run, 0) && After(HANDED, run, 0) == READY
  {
    var s1 := Step(HANDED, 0, Lock, 0);
    assert Step(s1, 0, Open(3), 0) == READY;
    OneMore(s1, Action(0, Open(3)), [], 0);
    OneMore(HANDED, Action(0, Lock), [Action(0, Open(3))], 0);
  }

  lemma OpenedReachable()
    ensures var run := [Action(0, Succeed), Action(0, Enter), Action(0, Leave), Action(0, Unlock)];
            Possible(READY, run, 0) && After(READY, run, 0) == OPENED
  {
    var s1 := Step(READY, 0, Succeed, 0);
    var s2 := Step(s1, 0, Enter, 0);
    var s3 := Step(s2, 0, Leave, 0);
    assert s3 == State([Conn(3, Some(0))], [], Lists.List([0], 1), 1, [Body(0), Idle], map[], false);
    assert Step(s3, 0, Unlock, 0) == OPENED;
    OneMore(s3, Action(0, Unlock), [], 0);
    OneMore(s2, Action(0, Leave), [Action(0, Unlock)], 0);
    OneMore(s1, Action(0, Enter), [Action(0, Leave)] + [Action(0, Unlock)], 0);
    OneMore(READY, Action(0, Succeed), [Action(0, Enter)] + ([Action(0, Leave)] + [Action(0, Unlock)]), 0);
  }

  lemma OneConnection() returns (run: seq<Action>)
    ensures Possible(Init(2), run, 0) && After(Init(2), run, 0) == OPENED
  {
    HandedReachable();
    ReadyReachable();
    OpenedReachable();
    var a := [Action(0, Begin(FreePop)), Action(0, Enter), Action(0, Leave)];
    var b := [Action(0, Lock), Action(0, Open(3))];
    var c := [Action(0, Succeed), Action(0, Enter), Action(0, Leave), Action(0, Unlock)];
    OneAfterOther(Init(2), a, b, 0);
    OneAfterOther(Init(2), a + b, c, 0);
    run := a + b + c;
  }

  /** Thread 0 is between the two sections of its update, and thread 1 has closed the connection. */
  const CLOSING: State :=
    State([Conn(-1, Some(1))], [], Lists.List([], 0), 1, [Idle, In(0, ResetFree, false)], map[], false)

  lemma ClosingReachable()
    ensures var run := [Action(1, Want(0)), Action(1, Lock), Action(1, Reset)];
            Possible(EraseActive(OPENED, 0), run, 0) && After(EraseActive(OPENED, 0), run, 0) == CLOSING
  {
    var t0 := EraseActive(OPENED, 0);
    var t1 := Step(t0, 1, Want(0), 0);
    var t2 := Step(t1, 1, Lock, 0);
    assert Step(t2, 1, Reset, 0) == CLOSING;
    OneMore(t2, Action(1, Reset), [], 0);
    OneMore(t1, Action(1, Lock), [Action(1, Reset)], 0);
    OneMore(t0, Action(1, Want(0)), [Action(1, Lock)] + [Action(1, Reset)], 0);
  }

  lemma ClosingCorrupts()
    ensures var run := [Action(1, Enter), Action(1, Leave), Action(1, Enter), Action(1, Leave)];
            Possible(CLOSING, run, 0) && After(CLOSING, run, 0).corrupt && After(CLOSING, run, 0).leaves == map[]
  {
    var t1 := Step(CLOSING, 1, Enter, 0);
    var t2 := Step(t1, 1, Leave, 0);
    assert t2 == State([Conn(-1, Some(1))], [0], Lists.List([], 0), 1, [Idle, In(0, ResetErase, false)], map[], false);
    var t3 := Step(t2, 1, Enter, 0);
    assert Step(t3, 1, Leave, 0).corrupt && Step(t3, 1, Leave, 0).leaves == map[];
    OneMore(t3, Action(1, Leave), [], 0);
    OneMore(t2, Action(1, Enter), [Action(1, Leave)], 0);
    OneMore(t1, Action(1, Leave), [Action(1, Enter)] + [Action(1, Leave)], 0);
    OneMore(CLOSING, Action(1, Enter), [Action(1, Leave)] + ([Action(1, Enter)] + [Action(1, Leave)]), 0);
  }

  /** An open connection with a free mutex is updated by thread 0; between the two sections thread 1 locks and
      resets it. Its erasure then meets a connection that is not on the list. */
  lemma FailingUpdate() returns (run: seq<Action>, u: Update)
    ensures Possible(Init(2), run, 0) && After(Init(2), run, 0) == OPENED && u.c == 0
    ensures UpdatePossible(OPENED, u, 0) && Updated(OPENED, u, 0).corrupt
  {
    run := OneConnection();
    ClosingReachable();
    ClosingCorrupts();
    var a := [Action(1, Want(0)), Action(1, Lock), Action(1, Reset)];
    var b := [Action(1, Enter), Action(1, Leave), Action(1, Enter), Action(1, Leave)];
    OneAfterOther(EraseActive(OPENED, 0), a, b, 0);
    u := Update.Update(0, 0, a + b);
  }
}
