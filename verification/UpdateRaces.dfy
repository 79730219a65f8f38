/** Whether an unlocked update can go wrong, told from the state in which it starts. */
module UpdateRaces {
  import Lists
  import opened Lifecycle
  import opened UnlockedUpdate
  import opened Wrappers

  // ---- A thread on its way to erase a connection -------------------------------------------

  /** What a thread at `pc` does next if it wants to reset connection `c`. */
  function Pick(pc: Pc, c: nat): Move {
    match pc
    case Idle => Want(c)
    case Out(_, entered) => if entered then Leave else Enter
    case In(_, _, entered) => if entered then Leave else Enter
    case LockWant(_, _) => Lock
    case Accepting(_) => Open(1)
    case Opened(_) => Succeed
    case Body(d) => if d == c then Reset else Unlock
  }

  /** How far it is from there to an erasure of `c`. */
  function Distance(pc: Pc, c: nat): nat {
    match pc
    case Idle => 9
    case Out(_, entered) => if entered then 18 else 19
    case LockWant(d, _) => if d == c then 8 else 17
    case Accepting(_) => 16
    case Opened(_) => 15
    case Body(d) => if d == c then 5 else 10
    case In(d, op, entered) =>
      (if entered then 0 else 1) +
      (if d != c then (if op.UpdateErase? || op.ResetFree? then 13 else 11)
       else if op.UpdateErase? || op.ResetErase? then 1
       else if op.ResetFree? then 3
       else 6)
  }

  /** Connection `c` is active, and no thread but `u` holds its mutex. */
  ghost predicate OnItsWay(s: State, u: nat, c: nat, max_conn: int) {
    && Inv(s, max_conn) && u < |s.threads| && c < |s.conns| && c in s.active.items
    && (s.conns[c].mtx == None || s.conns[c].mtx == Some(u))
  }

  /** Only an erasure takes a connection off the active list. */
  lemma StaysActive(s: State, t: nat, m: Move, c: nat, max_conn: int)
    requires Inv(s, max_conn) && Enabled(s, t, m) && !Erases(s, t, m, c) && c in s.active.items
    ensures c in Step(s, t, m, max_conn).active.items
  {
    var pc := s.threads[t];
    if m == Leave && pc.In? && (pc.op.UpdateErase? || pc.op.ResetErase?) && pc.c in s.active.items {
      Lists.DistinctRemove(s.active.items, Lists.IndexOf(s.active.items, pc.c));
    }
  }

  /** A thread that holds the mutex of an active connection is nowhere near its acceptance. */
  lemma HolderOfActive(s: State, u: nat, c: nat, max_conn: int)
    requires OnItsWay(s, u, c, max_conn)
    ensures var pc := s.threads[u];
            && (Holds(pc, c) ==> pc.Body? || (pc.In? && pc.op !in {AcceptPush, AcceptFree, UpdatePush}))
            && pc != LockWant(c, true)
            && (Holds(pc, c) ==> s.conns[c].fd > 0 || pc.In?)
  {
    assert Placed(s, c);
    assert s.conns[c].mtx == Some(u) <==> Holds(s.threads[u], c);
    if s.threads[u] == LockWant(c, true) {
      assert Popped(s, u, c);
    }
  }

  lemma ComesCloser(s: State, u: nat, c: nat, max_conn: int)
    requires OnItsWay(s, u, c, max_conn) && Enabled(s, u, Pick(s.threads[u], c))
    requires !Erases(s, u, Pick(s.threads[u], c), c)
    ensures var s' := Step(s, u, Pick(s.threads[u], c), max_conn);
            && |s'.threads| == |s.threads| && s'.threads == s.threads[u := s'.threads[u]]
            && Distance(s'.threads[u], c) < Distance(s.threads[u], c)
  {
    HolderOfActive(s, u, c, max_conn);
    assert WellFormed(s.threads[u], |s.conns|);
  }

  lemma OthersLeaveMutex(s: State, u: nat, m: Move, c: nat, max_conn: int)
    requires Inv(s, max_conn) && Enabled(s, u, m) && c < |s.conns|
    ensures var s' := Step(s, u, m, max_conn);
            && c < |s'.conns| && (s'.conns[c].mtx == s.conns[c].mtx || s'.conns[c].mtx in {None, Some(u)})
  {
  }

  lemma Comes(s: State, u: nat, c: nat, max_conn: int)
    requires OnItsWay(s, u, c, max_conn) && Enabled(s, u, Pick(s.threads[u], c))
    requires !Erases(s, u, Pick(s.threads[u], c), c)
    ensures var s' := Step(s, u, Pick(s.threads[u], c), max_conn);
            && OnItsWay(s', u, c, max_conn) && Distance(s'.threads[u], c) < Distance(s.threads[u], c)
            && |s'.threads| == |s.threads| && s'.threads == s.threads[u := s'.threads[u]]
  {
    var m := Pick(s.threads[u], c);
    ComesCloser(s, u, c, max_conn);
    OthersLeaveMutex(s, u, m, c, max_conn);
    StaysActive(s, u, m, c, max_conn);
    StepKeepsInv(s, u, m, max_conn);
  }

  /** The run is possible and none of its steps is thread `t`'s; its last step, and no other, erases `c`. */
  ghost predicate Reaches(s: State, run: seq<Action>, t: nat, c: nat, max_conn: int)
    decreases |run|
  {
    run != [] && run[0].t != t && Enabled(s, run[0].t, run[0].m) &&
    if Erases(s, run[0].t, run[0].m, c) then run[1..] == []
    else Reaches(Step(s, run[0].t, run[0].m, max_conn), run[1..], t, c, max_conn)
  }

  lemma ReachesNext(s: State, a: Action, rest: seq<Action>, t: nat, c: nat, max_conn: int)
    requires a.t != t && Enabled(s, a.t, a.m) && !Erases(s, a.t, a.m, c)
    requires Reaches(Step(s, a.t, a.m, max_conn), rest, t, c, max_conn)
    ensures Reaches(s, [a] + rest, t, c, max_conn)
  {
    assert ([a] + rest)[1..] == rest;
  }

  /** The thread that a blocked one waits for. */
  lemma BlockedBy(s: State, u: nat, c: nat, max_conn: int) returns (w: nat)
    requires OnItsWay(s, u, c, max_conn) && !Enabled(s, u, Pick(s.threads[u], c))
    ensures w < |s.threads| && w != u && s.threads[w] != Idle
    ensures var pc := s.threads[u];
            if pc.LockWant? then Holds(s.threads[w], pc.c) && pc.c != c
            else (pc.Out? || pc.In?) && !pc.entered && Enters(s.threads[w], LeafOf(pc.op))
  {
    var pc := s.threads[u];
    HolderOfActive(s, u, c, max_conn);
    assert WellFormed(pc, |s.conns|);
    if pc.LockWant? {
      w := s.conns[pc.c].mtx.value;
      assert Holds(s.threads[w], pc.c);
    } else {
      w := s.leaves[LeafOf(pc.op)];
      assert Enters(s.threads[w], LeafOf(pc.op));
    }
  }

  lemma LeafFreed(s: State, w: nat, l: Leaf, max_conn: int)
    requires Inv(s, max_conn) && w < |s.threads| && Enters(s.threads[w], l)
    ensures Enabled(s, w, Leave)
    ensures var s' := Step(s, w, Leave, max_conn);
            && l !in s'.leaves && |s'.threads| == |s.threads| && s'.threads == s.threads[w := s'.threads[w]]
            && |s.conns| <= |s'.conns| && forall c | 0 <= c < |s.conns| :: s'.conns[c] == s.conns[c]
  {
  }

  /** The thread that holds a leaf mutex leaves it. */
  lemma MakesWay(s: State, u: nat, w: nat, c: nat, max_conn: int)
    requires OnItsWay(s, u, c, max_conn) && w < |s.threads| && w != u
    requires (s.threads[u].Out? || s.threads[u].In?) && !s.threads[u].entered
    requires Enters(s.threads[w], LeafOf(s.threads[u].op)) && !Erases(s, w, Leave, c)
    ensures Enabled(s, w, Leave)
    ensures var s' := Step(s, w, Leave, max_conn);
            && OnItsWay(s', u, c, max_conn) && Enabled(s', u, Enter)
            && |s'.threads| == |s.threads| && s'.threads == s.threads[w := s'.threads[w]]
  {
    LeafFreed(s, w, LeafOf(s.threads[u].op), max_conn);
    StaysActive(s, w, Leave, c, max_conn);
    StepKeepsInv(s, w, Leave, max_conn);
  }

  /** From anywhere, a thread can come to erase an active connection without any step of the idle thread `t`. */
  lemma {:induction false} AnyThreadErases(s: State, t: nat, u: nat, c: nat, max_conn: int) returns (run: seq<Action>)
    requires OnItsWay(s, u, c, max_conn) && t < |s.threads| && t != u && s.threads[t] == Idle
    ensures Reaches(s, run, t, c, max_conn)
    decreases Distance(s.threads[u], c), Blocked(s, u)
  {
    var pc := s.threads[u];
    var m := Pick(pc, c);
    if !Enabled(s, u, m) {
      var w := BlockedBy(s, u, c, max_conn);
      if pc.LockWant? {
        assert s.conns[c].mtx == None by { assert Holds(pc, c) <==> s.conns[c].mtx == Some(u); }
        run := AnyThreadErases(s, t, w, c, max_conn);
      } else if Erases(s, w, Leave, c) {
        run := [Action(w, Leave)];
      } else {
        MakesWay(s, u, w, c, max_conn);
        var rest := AnyThreadErases(Step(s, w, Leave, max_conn), t, u, c, max_conn);
        run := [Action(w, Leave)] + rest;
        ReachesNext(s, Action(w, Leave), rest, t, c, max_conn);
      }
    } else if Erases(s, u, m, c) {
      run := [Action(u, m)];
    } else {
      Comes(s, u, c, max_conn);
      var rest := AnyThreadErases(Step(s, u, m, max_conn), t, u, c, max_conn);
      run := [Action(u, m)] + rest;
      ReachesNext(s, Action(u, m), rest, t, c, max_conn);
    }
  }

  // ---- The update --------------------------------------------------------------------------

  /** Such a run is possible between the two sections of an update of `c`, and spoils it. */
  lemma {:induction false} SpoilsUpdate(s: State, s': State, run: seq<Action>, t: nat, c: nat, max_conn: int)
    requires Inv(s, max_conn) && Missing(s, s', c) && Reaches(s, run, t, c, max_conn)
    ensures Possible(s', run, max_conn) && ErasedIn(s', run, c, max_conn)
    ensures ActiveMtx !in After(s', run, max_conn).leaves && forall a | a in run :: a.t != t
    decreases |run|
  {
    var u, m := run[0].t, run[0].m;
    if !Erases(s, u, m, c) {
      MissingStep(s, s', u, m, c, max_conn);
      StepKeepsInv(s, u, m, max_conn);
      SpoilsUpdate(Step(s, u, m, max_conn), Step(s', u, m, max_conn), run[1..], t, c, max_conn);
    }
    assert run == [run[0]] + run[1..];
  }

  lemma AnotherThreadSpoils(s: State, t: nat, u: nat, c: nat, max_conn: int) returns (between: seq<Action>)
    requires Inv(s, max_conn) && t < |s.threads| && u < |s.threads| && t != u && s.threads[t] == Idle
    requires c in s.active.items && ActiveMtx !in s.leaves
    ensures UpdatePossible(s, Update.Update(t, c, between), max_conn)
    ensures !InContract(s, Update.Update(t, c, between), max_conn)
  {
    var v := if s.conns[c].mtx.Some? then s.conns[c].mtx.value else u;
    assert s.conns[c].mtx == Some(v) <==> Holds(s.threads[v], c);
    between := AnyThreadErases(s, t, v, c, max_conn);
    ErasedIsMissing(s, c);
    SpoilsUpdate(s, EraseActive(s, c), between, t, c, max_conn);
  }

  lemma OthersAct(s: State, u: Update, max_conn: int)
    requires UpdatePossible(s, u, max_conn) && u.between != []
    ensures |s.threads| > 1
  {
    assert u.between[0] in u.between;
  }

  /** From any reachable state in which a thread can start an unlocked update: every interleaving of it stays in
      contract if and only if its connection is active and there is no other thread. */
  lemma UpdateSafeIff(s: State, t: nat, c: nat, max_conn: int)
    requires Inv(s, max_conn) && t < |s.threads| && s.threads[t] == Idle && c < |s.conns| && ActiveMtx !in s.leaves
    ensures (forall between | UpdatePossible(s, Update.Update(t, c, between), max_conn) ::
               !Updated(s, Update.Update(t, c, between), max_conn).corrupt) <==>
            c in s.active.items && |s.threads| == 1
  {
    if c in s.active.items && |s.threads| == 1 {
      forall between | UpdatePossible(s, Update.Update(t, c, between), max_conn)
        ensures !Updated(s, Update.Update(t, c, between), max_conn).corrupt
      {
        if between != [] {
          OthersAct(s, Update.Update(t, c, between), max_conn);
        }
        UpdateInContract(s, Update.Update(t, c, between), max_conn);
      }
    } else {
      var between: seq<Action> := [];
      if c in s.active.items {
        between := AnotherThreadSpoils(s, t, if t == 0 then 1 else 0, c, max_conn);
      }
      UpdateInContract(s, Update.Update(t, c, between), max_conn);
    }
  }
}
