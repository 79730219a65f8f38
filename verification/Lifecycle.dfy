/** The lives of connections under any number of threads. A state records where every thread is, who holds
    every mutex, and what the pool's lists contain; a run is any interleaving of the steps below. Every thread
    may do what any thread of the server does: accept, read and write, time connections out, work on tasks. */
module Lifecycle {
  import opened Lists
  import opened Wrappers

  /** The leaf mutexes: those of the free list, the active list and the two task queues. */
  datatype Leaf = FreeMtx | ActiveMtx | TaskMtx | WsTaskMtx

  /** Critical sections of leaf mutexes. */
  datatype Op =
    // without a connection's mutex
    | FreePop | CursorStart | CursorNext | TaskPop | WsTaskPop
    // with it, in `Accept`
    | AcceptPush | AcceptFree
    // in `ActiveListUpdate`
    | UpdateErase | UpdatePush
    // in `ResetConnection`
    | ResetFree | ResetErase
    // in `TaskPush` and `WebSocketTaskPush`
    | TaskPush | WsTaskPush

  function LeafOf(op: Op): Leaf {
    match op
    case FreePop | AcceptFree | ResetFree => FreeMtx
    case CursorStart | CursorNext | AcceptPush | UpdateErase | UpdatePush | ResetErase => ActiveMtx
    case TaskPop | TaskPush => TaskMtx
    case WsTaskPop | WsTaskPush => WsTaskMtx
  }

  predicate Outside(op: Op) {
    op.FreePop? || op.CursorStart? || op.CursorNext? || op.TaskPop? || op.WsTaskPop?
  }

  /** Where a thread is. */
  datatype Pc =
    | Idle
    | Out(op: Op, entered: bool)             // at a leaf section, waiting for its mutex or inside
    | LockWant(c: nat, accepting: bool)      // waiting for the mutex of connection `c`
    | Accepting(c: nat)                      // holding it, in `Accept`, before the descriptor is set
    | Opened(c: nat)                         // the same, after
    | Body(c: nat)                           // holding it, anywhere else
    | In(c: nat, op: Op, entered: bool)      // holding it, at a leaf section

  datatype Conn = Conn(fd: int, mtx: Option<nat>)

  /** `corrupt` is set when a list operation is called outside its contract: when an element is pushed that is
      there already, or one is erased that is not there. */
  datatype State = State(conns: seq<Conn>, free: seq<nat>, active: List<nat>, count: int, threads: seq<Pc>,
                         leaves: map<Leaf, nat>, corrupt: bool)

  // ---- Steps -------------------------------------------------------------------------------

  /** What thread `t` does next. */
  datatype Move =
    | Begin(op: Op)    // head for a leaf section
    | Want(c: nat)     // head for a connection
    | Enter            // get the leaf mutex
    | Leave            // do what the leaf section is for, and leave it
    | Lock             // get the connection's mutex
    | Open(fd: int)    // store the accepted descriptor
    | Succeed          // the new connection is set up
    | Fail             // it is not: `Reset`, then back to the free list
    | Update           // `ActiveListUpdate`, for a connection that is open
    | Reset            // `ResetConnection`: if it is open, close it, free it, take it off the active list
    | Unlock

  predicate Enabled(s: State, t: nat, m: Move) {
    t < |s.threads| &&
    var pc := s.threads[t];
    match m
    case Begin(op) => if Outside(op) then pc == Idle else pc.Body? && (op == TaskPush || op == WsTaskPush)
    case Want(c) => pc == Idle && c < |s.conns|
    case Enter => (pc.Out? || pc.In?) && !pc.entered && LeafOf(pc.op) !in s.leaves
    case Leave => (pc.Out? || pc.In?) && pc.entered
    case Lock => pc.LockWant? && pc.c < |s.conns| && s.conns[pc.c].mtx == None
    case Open(fd) => pc.Accepting? && fd > 0
    case Succeed => pc.Opened?
    case Fail => pc.Opened?
    case Update => pc.Body? && pc.c < |s.conns| && s.conns[pc.c].fd > 0
    case Reset => pc.Body? && pc.c < |s.conns| && s.conns[pc.c].fd > 0
    case Unlock => pc.Body?
  }

  function Go(s: State, t: nat, pc: Pc): State
    requires t < |s.threads|
  {
    s.(threads := s.threads[t := pc])
  }

  function SetFd(s: State, c: nat, fd: int): State {
    if c < |s.conns| then s.(conns := s.conns[c := s.conns[c].(fd := fd)]) else s
  }

  function SetMtx(s: State, c: nat, mtx: Option<nat>): State {
    if c < |s.conns| then s.(conns := s.conns[c := s.conns[c].(mtx := mtx)]) else s
  }

  function PushFree(s: State, c: nat): State {
    s.(free := [c] + s.free, corrupt := s.corrupt || c in s.free)
  }

  function PushActive(s: State, c: nat): State {
    s.(active := Push(s.active, c), corrupt := s.corrupt || c in s.active.items)
  }

  function EraseActive(s: State, c: nat): State {
    if c in s.active.items then s.(active := Erase(s.active, c)) else s.(corrupt := true)
  }

  /** `FreeListPop`, on behalf of `Accept`. */
  function PopFree(s: State, t: nat, max_conn: int): State
    requires t < |s.threads|
  {
    if s.free != [] then Go(s, t, LockWant(s.free[0], true)).(free := s.free[1..])
    else if s.count > max_conn then Go(s, t, Idle)
    else Go(s, t, LockWant(|s.conns|, true)).(conns := s.conns + [Conn(-1, None)], count := s.count + 1)
  }

  function LeaveOut(s: State, t: nat, op: Op, max_conn: int): State
    requires t < |s.threads|
  {
    match op
    case FreePop => PopFree(s, t, max_conn)
    case CursorStart => Go(s, t, Idle).(active := Start(s.active))
    case CursorNext => Go(s, t, Idle).(active := Next(s.active))
    case _ => Go(s, t, Idle)
  }

  function LeaveIn(s: State, t: nat, c: nat, op: Op): State
    requires t < |s.threads|
  {
    match op
    case AcceptPush => Go(PushActive(s, c), t, Body(c))
    case AcceptFree => Go(PushFree(s, c), t, Body(c))
    case UpdateErase => Go(EraseActive(s, c), t, In(c, UpdatePush, false))
    case UpdatePush => Go(PushActive(s, c), t, Body(c))
    case ResetFree => Go(PushFree(s, c), t, In(c, ResetErase, false))
    case ResetErase => Go(EraseActive(s, c), t, Body(c))
    case _ => Go(s, t, Body(c))
  }

  function Step(s: State, t: nat, m: Move, max_conn: int): State
    requires Enabled(s, t, m)
  {
    var pc := s.threads[t];
    match m
    case Begin(op) => Go(s, t, if Outside(op) then Out(op, false) else In(pc.c, op, false))
    case Want(c) => Go(s, t, LockWant(c, false))
    case Enter => Go(s, t, pc.(entered := true)).(leaves := s.leaves[LeafOf(pc.op) := t])
    case Leave =>
      var s' := s.(leaves := s.leaves - {LeafOf(pc.op)});
      if pc.Out? then LeaveOut(s', t, pc.op, max_conn) else LeaveIn(s', t, pc.c, pc.op)
    case Lock => Go(SetMtx(s, pc.c, Some(t)), t, if pc.accepting then Accepting(pc.c) else Body(pc.c))
    case Open(fd) => Go(SetFd(s, pc.c, fd), t, Opened(pc.c))
    case Succeed => Go(s, t, In(pc.c, AcceptPush, false))
    case Fail => Go(SetFd(s, pc.c, -1), t, In(pc.c, AcceptFree, false))
    case Update => Go(s, t, In(pc.c, UpdateErase, false))
    case Reset => Go(SetFd(s, pc.c, -1), t, In(pc.c, ResetFree, false))
    case Unlock => Go(SetMtx(s, pc.c, None), t, Idle)
  }

  function Init(threads: nat): State {
    State([], [], List([], 0), 0, seq(threads, _ => Idle), map[], false)
  }

  // ---- The invariant -----------------------------------------------------------------------

  predicate Holds(pc: Pc, c: nat) { (pc.Accepting? || pc.Opened? || pc.Body? || pc.In?) && pc.c == c }

  predicate Enters(pc: Pc, l: Leaf) { (pc.Out? || pc.In?) && pc.entered && LeafOf(pc.op) == l }

  /** A thread has popped `c` from the free list and waits for its mutex. */
  predicate Popped(s: State, t: nat, c: nat) { t < |s.threads| && s.threads[t] == LockWant(c, true) }

  /** `c` may be accepted again: it is on the free list, or a thread has popped it. */
  ghost predicate Loose(s: State, c: nat) { c in s.free || exists t: nat :: Popped(s, t, c) }

  /** What is true of a connection while the thread that holds its mutex is at `pc`, and (with `Idle`) while
      no thread holds it. Between the two steps of a reset the connection is free and still active. */
  predicate Fits(pc: Pc, open: bool, active: bool, loose: bool) {
    match pc
    case Accepting(_) => !open && !active && !loose
    case Opened(_) => open && !active && !loose
    case In(_, AcceptPush, _) => open && !active && !loose
    case In(_, AcceptFree, _) => !open && !active && !loose
    case In(_, UpdateErase, _) => open && active && !loose
    case In(_, UpdatePush, _) => open && !active && !loose
    case In(_, ResetFree, _) => !open && active && !loose
    case In(_, ResetErase, _) => !open && active && loose
    case _ => active == open && loose == !open
  }

  function Holder(s: State, c: nat): Pc
    requires c < |s.conns|
  {
    var mtx := s.conns[c].mtx;
    if mtx.Some? && mtx.value < |s.threads| then s.threads[mtx.value] else Idle
  }

  ghost predicate Placed(s: State, c: nat)
    requires c < |s.conns|
  {
    Fits(Holder(s, c), s.conns[c].fd > 0, c in s.active.items, Loose(s, c))
  }

  /** Operations are where they belong. */
  predicate WellFormed(pc: Pc, n: nat) {
    match pc
    case Idle => true
    case Out(op, _) => Outside(op)
    case In(c, op, _) => c < n && !Outside(op)
    case _ => pc.c < n
  }

  predicate ListsInv(s: State) {
    && IsList(s.active) && Distinct(s.free) && !s.corrupt && s.count == |s.conns|
    && (forall c | c in s.active.items :: c < |s.conns|) && (forall c | c in s.free :: c < |s.conns|)
  }

  /** Mutexes exclude. */
  ghost predicate LocksInv(s: State) {
    && (forall t | 0 <= t < |s.threads| :: WellFormed(s.threads[t], |s.conns|))
    && (forall c: nat, t: nat | c < |s.conns| && t < |s.threads| ::
          s.conns[c].mtx == Some(t) <==> Holds(s.threads[t], c))
    && (forall c | 0 <= c < |s.conns| && s.conns[c].mtx.Some? :: s.conns[c].mtx.value < |s.threads|)
    && (forall l, t: nat | t < |s.threads| :: (l in s.leaves && s.leaves[l] == t) <==> Enters(s.threads[t], l))
    && (forall l | l in s.leaves :: s.leaves[l] < |s.threads|)
  }

  /** Popped connections are off the free list, and no two threads have popped the same. */
  ghost predicate PoppedInv(s: State) {
    && (forall c: nat, t: nat | Popped(s, t, c) :: c !in s.free)
    && (forall c: nat, t: nat, u: nat | Popped(s, t, c) && Popped(s, u, c) :: t == u)
  }

  ghost predicate Inv(s: State, max_conn: int) {
    && ListsInv(s) && LocksInv(s) && PoppedInv(s) && s.count <= max_conn + 1
    && forall c | 0 <= c < |s.conns| :: Placed(s, c)
  }

  // ---- Its preservation --------------------------------------------------------------------

  /** Thread `t` moves and no lock changes hands. */
  lemma LocksSame(s: State, t: nat, s': State)
    requires LocksInv(s) && t < |s.threads| && |s.conns| <= |s'.conns| && s'.leaves == s.leaves
    requires |s'.threads| == |s.threads| && s'.threads == s.threads[t := s'.threads[t]]
    requires forall c: nat | c < |s'.conns| ::
               s'.conns[c].mtx == if c < |s.conns| then s.conns[c].mtx else None
    requires WellFormed(s'.threads[t], |s'.conns|)
    requires forall c: nat :: Holds(s'.threads[t], c) == Holds(s.threads[t], c)
    requires forall l :: Enters(s'.threads[t], l) == Enters(s.threads[t], l)
    ensures LocksInv(s')
  {
    forall c: nat, u: nat | c < |s'.conns| && u < |s'.threads|
      ensures s'.conns[c].mtx == Some(u) <==> Holds(s'.threads[u], c)
    {
      assert WellFormed(s.threads[u], |s.conns|);
    }
  }

  /** Thread `t` enters or leaves a leaf section. */
  predicate Flips(s: State, t: nat, s': State)
    requires t < |s.threads| && (s.threads[t].Out? || s.threads[t].In?)
  {
    var pc := s.threads[t];
    if pc.entered then s' == Go(s, t, pc.(entered := false)).(leaves := s.leaves - {LeafOf(pc.op)})
    else LeafOf(pc.op) !in s.leaves && s' == Go(s, t, pc.(entered := true)).(leaves := s.leaves[LeafOf(pc.op) := t])
  }

  lemma LeavesEntered(s: State, t: nat, s': State)
    requires LocksInv(s) && t < |s.threads| && (s.threads[t].Out? || s.threads[t].In?) && Flips(s, t, s')
    ensures forall l, u: nat | u < |s'.threads| :: (l in s'.leaves && s'.leaves[l] == u) <==> Enters(s'.threads[u], l)
    ensures forall l | l in s'.leaves :: s'.leaves[l] < |s'.threads|
  {
    var pc := s.threads[t];
    forall l, u: nat | u < |s'.threads|
      ensures (l in s'.leaves && s'.leaves[l] == u) <==> Enters(s'.threads[u], l) {
      assert (l in s.leaves && s.leaves[l] == u) <==> Enters(s.threads[u], l);
      assert (LeafOf(pc.op) in s.leaves && s.leaves[LeafOf(pc.op)] == t) <==> Enters(pc, LeafOf(pc.op));
    }
  }

  lemma LocksEntered(s: State, t: nat, s': State)
    requires LocksInv(s) && t < |s.threads| && (s.threads[t].Out? || s.threads[t].In?) && Flips(s, t, s')
    ensures LocksInv(s')
  {
    LeavesEntered(s, t, s');
    forall c: nat, u: nat | c < |s'.conns| && u < |s'.threads|
      ensures s'.conns[c].mtx == Some(u) <==> Holds(s'.threads[u], c) {
      assert Holds(s'.threads[u], c) == Holds(s.threads[u], c);
    }
  }

  lemma LocksLocked(s: State, t: nat, c: nat, s': State)
    requires LocksInv(s) && t < |s.threads| && c < |s.conns| && |s'.threads| == |s.threads|
    requires s' == Go(SetMtx(s, c, if s.conns[c].mtx == None then Some(t) else None), t, s'.threads[t])
    requires WellFormed(s'.threads[t], |s.conns|)
    requires var pc, pc' := s.threads[t], s'.threads[t];
             if s.conns[c].mtx == None then (pc.Idle? || pc.LockWant?) && (pc'.Accepting? || pc'.Body?) && pc'.c == c
             else pc.Body? && pc.c == c && pc' == Idle
    ensures LocksInv(s')
  {
  }

  /** Everything is placed if `c` is and nothing happens to other connections. */
  lemma OthersPlaced(s: State, t: nat, c: nat, s': State)
    requires LocksInv(s) && LocksInv(s') && t < |s.threads| && |s'.threads| == |s.threads|
    requires s'.threads == s.threads[t := s'.threads[t]] && |s'.conns| == |s.conns|
    requires forall d: nat | d < |s.conns| && d != c ::
               && Placed(s, d) && s'.conns[d] == s.conns[d]
               && (d in s'.active.items <==> d in s.active.items) && Loose(s', d) == Loose(s, d)
               && !Holds(s.threads[t], d)
    requires c < |s.conns| ==> Placed(s', c)
    ensures forall d | 0 <= d < |s'.conns| :: Placed(s', d)
  {
    forall d: nat | d < |s'.conns| && d != c ensures Placed(s', d) {
      assert Placed(s, d);
      assert s.conns[d].mtx != Some(t);
      assert Holder(s', d) == Holder(s, d);
    }
  }

  /** Whether a thread at `pc` has popped something. */
  predicate HasPopped(pc: Pc) { pc.LockWant? && pc.accepting }

  lemma LooseSame(s: State, t: nat, s': State)
    requires t < |s.threads| && |s'.threads| == |s.threads| && s'.threads == s.threads[t := s'.threads[t]]
    requires s'.free == s.free && !HasPopped(s.threads[t]) && !HasPopped(s'.threads[t])
    ensures forall d: nat :: Loose(s', d) == Loose(s, d)
    ensures PoppedInv(s) ==> PoppedInv(s')
  {
    forall d: nat, u: nat ensures Popped(s', u, d) == Popped(s, u, d) {
    }
    forall d: nat ensures Loose(s', d) == Loose(s, d) {
      if u: nat :| Popped(s, u, d) {
        assert Popped(s', u, d);
      }
      if u: nat :| Popped(s', u, d) {
        assert Popped(s, u, d);
      }
    }
  }

  /** Moves that touch neither a list nor a descriptor: the new place must fit where the old one did. */
  lemma QuietKept(s: State, t: nat, c: nat, s': State, max_conn: int)
    requires Inv(s, max_conn) && LocksInv(s') && t < |s.threads| && |s'.threads| == |s.threads|
    requires s' == s.(threads := s.threads[t := s'.threads[t]], conns := s'.conns, leaves := s'.leaves,
                      active := s.active.(at := s'.active.at))
    requires s'.active.at <= |s.active.items| && |s'.conns| == |s.conns|
    requires !HasPopped(s.threads[t]) && !HasPopped(s'.threads[t])
    requires forall d: nat | d < |s.conns| && d != c :: s'.conns[d] == s.conns[d] && !Holds(s.threads[t], d)
    requires c < |s.conns| ==> s'.conns[c].fd == s.conns[c].fd
    requires c < |s.conns| ==> Fits(Holder(s', c), s.conns[c].fd > 0, c in s.active.items, Loose(s, c))
    ensures Inv(s', max_conn)
  {
    LooseSame(s, t, s');
    OthersPlaced(s, t, c, s');
  }

  /** The connection a thread holds, or none. */
  function Concern(s: State, pc: Pc): nat {
    if pc.Accepting? || pc.Opened? || pc.Body? || pc.In? then pc.c else |s.conns|
  }

  /** The thread that holds `c` is its holder, and holds no other connection. */
  lemma Holding(s: State, t: nat, max_conn: int) returns (c: nat)
    requires Inv(s, max_conn) && t < |s.threads|
    ensures c == Concern(s, s.threads[t])
    ensures c < |s.conns| ==> Placed(s, c) && s.conns[c].mtx == Some(t) && Holder(s, c) == s.threads[t]
    ensures forall d: nat | d != c && d < |s.conns| :: !Holds(s.threads[t], d)
  {
    c := Concern(s, s.threads[t]);
    assert WellFormed(s.threads[t], |s.conns|);
    if c < |s.conns| {
      assert Holds(s.threads[t], c);
    }
  }

  lemma HeadForKept(s: State, t: nat, m: Move, max_conn: int)
    requires Inv(s, max_conn) && Enabled(s, t, m) && (m.Begin? || m.Want? || m.Update? || m.Succeed?)
    ensures Inv(Step(s, t, m, max_conn), max_conn)
  {
    var s' := Step(s, t, m, max_conn);
    var c := Holding(s, t, max_conn);
    assert WellFormed(s.threads[t], |s.conns|);
    LocksSame(s, t, s');
    QuietKept(s, t, c, s', max_conn);
  }

  lemma EnterKept(s: State, t: nat, max_conn: int)
    requires Inv(s, max_conn) && Enabled(s, t, Enter)
    ensures Inv(Step(s, t, Enter, max_conn), max_conn)
  {
    var s' := Step(s, t, Enter, max_conn);
    var c := Holding(s, t, max_conn);
    LocksEntered(s, t, s');
    QuietKept(s, t, c, s', max_conn);
  }

  lemma UnlockKept(s: State, t: nat, max_conn: int)
    requires Inv(s, max_conn) && Enabled(s, t, Unlock)
    ensures Inv(Step(s, t, Unlock, max_conn), max_conn)
  {
    var s' := Step(s, t, Unlock, max_conn);
    var c := Holding(s, t, max_conn);
    assert WellFormed(s.threads[t], |s.conns|);
    LocksLocked(s, t, c, s');
    QuietKept(s, t, c, s', max_conn);
  }

  /** The thread that has popped a connection takes it over. */
  lemma LockKept(s: State, t: nat, max_conn: int)
    requires Inv(s, max_conn) && Enabled(s, t, Lock)
    ensures var s', c := Step(s, t, Lock, max_conn), s.threads[t].c;
            && Inv(s', max_conn) && c < |s.conns| == |s'.conns|
            && s.conns[c].mtx == None && s'.conns[c] == s.conns[c].(mtx := Some(t))
            && (s.threads[t].accepting ==>
                  && s.conns[c].fd <= 0 && c !in s.active.items && c !in s.free
                  && forall u: nat :: Popped(s, u, c) ==> u == t)
  {
    var s', c := Step(s, t, Lock, max_conn), s.threads[t].c;
    LocksLocked(s, t, c, s');
    assert Placed(s, c) && Holder(s, c) == Idle && Holder(s', c) == s'.threads[t];
    if s.threads[t].accepting {
      assert Popped(s, t, c) && Loose(s, c);
      PoppedTaken(s, t, c, s');
      OthersPlaced(s, t, c, s');
    } else {
      QuietKept(s, t, c, s', max_conn);
    }
  }

  lemma PoppedTaken(s: State, t: nat, c: nat, s': State)
    requires t < |s.threads| && |s'.threads| == |s.threads| && s'.threads == s.threads[t := s'.threads[t]]
    requires s'.free == s.free && s.threads[t] == LockWant(c, true) && !HasPopped(s'.threads[t]) && PoppedInv(s)
    ensures PoppedInv(s') && !Loose(s', c) && forall d: nat | d != c :: Loose(s', d) == Loose(s, d)
  {
    assert Popped(s, t, c);
    forall d: nat, u: nat ensures Popped(s', u, d) <==> Popped(s, u, d) && u != t {
    }
    forall d: nat | d != c ensures Loose(s', d) == Loose(s, d) {
      if u: nat :| Popped(s, u, d) {
        assert Popped(s', u, d);
      }
      if u: nat :| Popped(s', u, d) {
        assert Popped(s, u, d);
      }
    }
  }

  /** A descriptor is stored or closed. */
  lemma DescriptorKept(s: State, t: nat, m: Move, max_conn: int)
    requires Inv(s, max_conn) && Enabled(s, t, m) && (m.Open? || m.Fail? || m.Reset?)
    ensures Inv(Step(s, t, m, max_conn), max_conn)
  {
    var s' := Step(s, t, m, max_conn);
    var c := Holding(s, t, max_conn);
    assert WellFormed(s.threads[t], |s.conns|);
    LocksSame(s, t, s');
    LooseSame(s, t, s');
    OthersPlaced(s, t, c, s');
  }

  // ---- Leaving a leaf section --------------------------------------------------------------

  /** The state after the leaf mutex is given back and before the section's effect is seen. */
  function Released(s: State, t: nat): State
    requires t < |s.threads| && (s.threads[t].Out? || s.threads[t].In?)
  {
    Go(s, t, s.threads[t].(entered := false)).(leaves := s.leaves - {LeafOf(s.threads[t].op)})
  }

  lemma LeftLocks(s: State, t: nat, max_conn: int)
    requires Inv(s, max_conn) && Enabled(s, t, Leave)
    requires s.threads[t].op != FreePop
    ensures LocksInv(Step(s, t, Leave, max_conn))
  {
    var s', r := Step(s, t, Leave, max_conn), Released(s, t);
    assert WellFormed(s.threads[t], |s.conns|);
    LocksEntered(s, t, r);
    assert s'.threads == r.threads[t := s'.threads[t]];
    LocksSame(r, t, s');
  }

  /** Sections without an effect on lists, but for the cursor. */
  lemma LeaveQuietKept(s: State, t: nat, max_conn: int)
    requires Inv(s, max_conn) && Enabled(s, t, Leave)
    requires s.threads[t].op in {CursorStart, CursorNext, TaskPop, WsTaskPop, TaskPush, WsTaskPush}
    ensures Inv(Step(s, t, Leave, max_conn), max_conn)
  {
    var s' := Step(s, t, Leave, max_conn);
    var c := Holding(s, t, max_conn);
    assert WellFormed(s.threads[t], |s.conns|);
    LeftLocks(s, t, max_conn);
    QuietKept(s, t, c, s', max_conn);
  }

  /** Pushes on the active list: the connection was not there. */
  lemma LeavePushKept(s: State, t: nat, max_conn: int)
    requires Inv(s, max_conn) && Enabled(s, t, Leave) && s.threads[t].op in {AcceptPush, UpdatePush}
    ensures var s', c := Step(s, t, Leave, max_conn), s.threads[t].c;
            Inv(s', max_conn) && c !in s.active.items && s'.active.items == s.active.items + [c]
  {
    var s' := Step(s, t, Leave, max_conn);
    var c := Holding(s, t, max_conn);
    assert WellFormed(s.threads[t], |s.conns|);
    LeftLocks(s, t, max_conn);
    LooseSame(s, t, s');
    OthersPlaced(s, t, c, s');
  }

  /** Erasures: the connection was there, once. */
  lemma LeaveEraseKept(s: State, t: nat, max_conn: int)
    requires Inv(s, max_conn) && Enabled(s, t, Leave) && s.threads[t].op in {UpdateErase, ResetErase}
    ensures var s', c := Step(s, t, Leave, max_conn), s.threads[t].c;
            && Inv(s', max_conn) && c in s.active.items && c !in s'.active.items
            && |s'.active.items| == |s.active.items| - 1
  {
    var s' := Step(s, t, Leave, max_conn);
    var c := Holding(s, t, max_conn);
    assert WellFormed(s.threads[t], |s.conns|);
    LeftLocks(s, t, max_conn);
    DistinctRemove(s.active.items, IndexOf(s.active.items, c));
    LooseSame(s, t, s');
    OthersPlaced(s, t, c, s');
  }

  lemma LooseFreed(s: State, t: nat, c: nat, s': State)
    requires t < |s.threads| && |s'.threads| == |s.threads| && s'.threads == s.threads[t := s'.threads[t]]
    requires s'.free == [c] + s.free && !HasPopped(s.threads[t]) && !HasPopped(s'.threads[t])
    requires PoppedInv(s) && !Loose(s, c)
    ensures PoppedInv(s') && Loose(s', c) && forall d: nat | d != c :: Loose(s', d) == Loose(s, d)
  {
    var q := s'.(free := s.free);
    LooseSame(s, t, q);
    forall d: nat, u: nat ensures Popped(s', u, d) == Popped(q, u, d) {
    }
    forall d: nat | d != c ensures Loose(s', d) == Loose(q, d) {
      if u: nat :| Popped(q, u, d) {
        assert Popped(s', u, d);
      }
      if u: nat :| Popped(s', u, d) {
        assert Popped(q, u, d);
      }
    }
    assert !Loose(q, c);
  }

  /** Pushes on the free list: the connection was neither there nor popped. */
  lemma LeaveFreeKept(s: State, t: nat, max_conn: int)
    requires Inv(s, max_conn) && Enabled(s, t, Leave) && s.threads[t].op in {AcceptFree, ResetFree}
    ensures var s', c := Step(s, t, Leave, max_conn), s.threads[t].c;
            Inv(s', max_conn) && !Loose(s, c) && s'.free == [c] + s.free
  {
    var s' := Step(s, t, Leave, max_conn);
    var c := Holding(s, t, max_conn);
    assert WellFormed(s.threads[t], |s.conns|);
    LeftLocks(s, t, max_conn);
    LooseFreed(s, t, c, s');
    OthersPlaced(s, t, c, s');
  }

  lemma LoosePopped(s: State, t: nat, c: nat, s': State)
    requires t < |s.threads| && s'.threads == s.threads[t := LockWant(c, true)] && !HasPopped(s.threads[t])
    requires PoppedInv(s) && forall u: nat :: !Popped(s, u, c)
    requires c !in s'.free && forall d | d != c :: d in s'.free <==> d in s.free
    ensures PoppedInv(s') && Loose(s', c) && forall d: nat | d != c :: Loose(s', d) == Loose(s, d)
  {
    assert Popped(s', t, c);
    forall d: nat, u: nat ensures Popped(s', u, d) <==> Popped(s, u, d) || (u == t && d == c) {
    }
    forall d: nat | d != c ensures Loose(s', d) == Loose(s, d) {
      if u: nat :| Popped(s, u, d) {
        assert Popped(s', u, d);
      }
      if u: nat :| Popped(s', u, d) {
        assert Popped(s, u, d);
      }
    }
  }

  lemma PopLocks(s: State, t: nat, max_conn: int)
    requires Inv(s, max_conn) && Enabled(s, t, Leave) && s.threads[t].op == FreePop
    ensures LocksInv(Step(s, t, Leave, max_conn))
  {
    var s', r := Step(s, t, Leave, max_conn), Released(s, t);
    assert WellFormed(s.threads[t], |s.conns|) && s.threads[t].Out?;
    LocksEntered(s, t, r);
    assert s'.threads == r.threads[t := s'.threads[t]];
    assert s.free != [] ==> s.free[0] in s.free;
    LocksSame(r, t, s');
  }

  /** Pops from the free list: the connection is the thread's alone. */
  lemma LeavePopKept(s: State, t: nat, max_conn: int)
    requires Inv(s, max_conn) && Enabled(s, t, Leave) && s.threads[t].op == FreePop && s.free != []
    ensures var s' := Step(s, t, Leave, max_conn);
            && Inv(s', max_conn) && s.free == [s.free[0]] + s'.free && s'.threads[t] == LockWant(s.free[0], true)
            && s'.conns == s.conns && s'.count == s.count
  {
    var s', c := Step(s, t, Leave, max_conn), s.free[0];
    var none := Holding(s, t, max_conn);
    assert WellFormed(s.threads[t], |s.conns|) && s.threads[t].Out?;
    PopLocks(s, t, max_conn);
    assert c in s.free && forall d | d != c :: d in s'.free <==> d in s.free by {
      assert s.free == [c] + s'.free;
    }
    LoosePopped(s, t, c, s');
    assert Loose(s, c) && Placed(s, c);
    OthersPlaced(s, t, none, s');
  }

  /** A new connection, or none. */
  lemma LeaveNewKept(s: State, t: nat, max_conn: int)
    requires Inv(s, max_conn) && Enabled(s, t, Leave) && s.threads[t].op == FreePop && s.free == []
    ensures var s' := Step(s, t, Leave, max_conn);
            && Inv(s', max_conn)
            && if s.count > max_conn then s'.threads[t] == Idle && s'.conns == s.conns && s'.count == s.count
               else && s'.threads[t] == LockWant(|s.conns|, true) && s'.conns == s.conns + [Conn(-1, None)]
                    && s'.count == s.count + 1
  {
    var s', n := Step(s, t, Leave, max_conn), |s.conns|;
    var none := Holding(s, t, max_conn);
    assert WellFormed(s.threads[t], n) && s.threads[t].Out?;
    PopLocks(s, t, max_conn);
    if s.count > max_conn {
      QuietKept(s, t, none, s', max_conn);
    } else {
      forall u: nat ensures !Popped(s, u, n) {
        assert u < |s.threads| ==> WellFormed(s.threads[u], n);
      }
      LoosePopped(s, t, n, s');
      var q := s'.(conns := s.conns);
      forall d: nat | d < n ensures Placed(s', d) {
        assert Placed(s, d) && s'.conns[d] == s.conns[d] && s.conns[d].mtx != Some(t);
        assert Holder(s', d) == Holder(s, d);
      }
      assert Placed(s', n);
    }
  }

  lemma StepKeepsInv(s: State, t: nat, m: Move, max_conn: int)
    requires Inv(s, max_conn) && Enabled(s, t, m)
    ensures Inv(Step(s, t, m, max_conn), max_conn)
  {
    match m
    case Begin(_) | Want(_) | Update | Succeed => HeadForKept(s, t, m, max_conn);
    case Enter => EnterKept(s, t, max_conn);
    case Lock => LockKept(s, t, max_conn);
    case Open(_) | Fail | Reset => DescriptorKept(s, t, m, max_conn);
    case Unlock => UnlockKept(s, t, max_conn);
    case Leave =>
      match s.threads[t].op
      case FreePop => if s.free != [] { LeavePopKept(s, t, max_conn); } else { LeaveNewKept(s, t, max_conn); }
      case AcceptPush | UpdatePush => LeavePushKept(s, t, max_conn);
      case UpdateErase | ResetErase => LeaveEraseKept(s, t, max_conn);
      case AcceptFree | ResetFree => LeaveFreeKept(s, t, max_conn);
      case _ => LeaveQuietKept(s, t, max_conn);
  }

  // ---- Runs --------------------------------------------------------------------------------

  datatype Action = Action(t: nat, m: Move)

  predicate Possible(s: State, run: seq<Action>, max_conn: int)
    decreases |run|
  {
    run == [] ||
    (Enabled(s, run[0].t, run[0].m) && Possible(Step(s, run[0].t, run[0].m, max_conn), run[1..], max_conn))
  }

  function After(s: State, run: seq<Action>, max_conn: int): State
    requires Possible(s, run, max_conn)
    decreases |run|
  {
    if run == [] then s else After(Step(s, run[0].t, run[0].m, max_conn), run[1..], max_conn)
  }

  lemma {:induction false} RunKeepsInv(s: State, run: seq<Action>, max_conn: int)
    requires Inv(s, max_conn) && Possible(s, run, max_conn)
    ensures Inv(After(s, run, max_conn), max_conn)
    decreases |run|
  {
    if run != [] {
      StepKeepsInv(s, run[0].t, run[0].m, max_conn);
      RunKeepsInv(Step(s, run[0].t, run[0].m, max_conn), run[1..], max_conn);
    }
  }

  lemma InitInv(threads: nat, max_conn: int)
    requires 0 <= max_conn
    ensures Inv(Init(threads), max_conn)
  {
  }

  /** Safety, in every reachable state of any number of threads: no list operation has been called outside
      its contract, so no connection was freed twice, pushed twice, or erased when it was not there; the
      lists have no duplicates; no more than `max_conn + 1` connections have been made; and a connection whose
      mutex nobody holds is open just when it is active, and closed just when it is free or popped by a
      thread that waits for it, never both. */
  lemma Safety(threads: nat, run: seq<Action>, max_conn: int)
    requires 0 <= max_conn && Possible(Init(threads), run, max_conn)
    ensures var s := After(Init(threads), run, max_conn);
            && !s.corrupt && Distinct(s.free) && IsList(s.active)
            && s.count == |s.conns| <= max_conn + 1
            && (forall c: nat, t: nat | Popped(s, t, c) :: c !in s.free)
            && (forall c: nat, t: nat, u: nat | Popped(s, t, c) && Popped(s, u, c) :: t == u)
            && forall c | 0 <= c < |s.conns| && s.conns[c].mtx == None ::
                 (s.conns[c].fd > 0 <==> c in s.active.items) && (s.conns[c].fd > 0 <==> !Loose(s, c))
  {
    InitInv(threads, max_conn);
    RunKeepsInv(Init(threads), run, max_conn);
    var s := After(Init(threads), run, max_conn);
    forall c | 0 <= c < |s.conns| && s.conns[c].mtx == None
      ensures (s.conns[c].fd > 0 <==> c in s.active.items) && (s.conns[c].fd > 0 <==> !Loose(s, c)) {
      assert Placed(s, c) && Holder(s, c) == Idle;
    }
  }

  // ---- Deadlock freedom --------------------------------------------------------------------

  /** Thread `t` waits for a mutex that is held. */
  predicate Blocked(s: State, t: nat) {
    t < |s.threads| &&
    match s.threads[t]
    case Out(op, entered) => !entered && LeafOf(op) in s.leaves
    case In(_, op, entered) => !entered && LeafOf(op) in s.leaves
    case LockWant(c, _) => c < |s.conns| && s.conns[c].mtx.Some?
    case _ => false
  }

  predicate HoldsSomething(s: State, t: nat) {
    t < |s.threads| &&
    var pc := s.threads[t];
    pc.Accepting? || pc.Opened? || pc.Body? || pc.In? || (pc.Out? && pc.entered)
  }

  ghost predicate CanMove(s: State, t: nat) { exists m :: Enabled(s, t, m) }

  lemma NotBlockedMoves(s: State, t: nat, max_conn: int)
    requires Inv(s, max_conn) && t < |s.threads| && !Blocked(s, t)
    ensures CanMove(s, t)
  {
    var pc := s.threads[t];
    assert WellFormed(pc, |s.conns|);
    match pc
    case Idle => assert Enabled(s, t, Begin(FreePop));
    case Out(_, e) => assert Enabled(s, t, if e then Leave else Enter);
    case In(_, _, e) => assert Enabled(s, t, if e then Leave else Enter);
    case LockWant(_, _) => assert Enabled(s, t, Lock);
    case Accepting(_) => assert Enabled(s, t, Open(1));
    case Opened(_) => assert Enabled(s, t, Succeed);
    case Body(_) => assert Enabled(s, t, Unlock);
  }

  /** A leaf mutex is held only by a thread that can leave at once. */
  lemma LeafHolderMoves(s: State, l: Leaf, max_conn: int) returns (u: nat)
    requires Inv(s, max_conn) && l in s.leaves
    ensures HoldsSomething(s, u) && CanMove(s, u)
  {
    u := s.leaves[l];
    assert Enters(s.threads[u], l);
    NotBlockedMoves(s, u, max_conn);
  }

  /** Behind every blocked thread there is a thread that holds a mutex and can move: a connection's mutex is
      only ever followed by one leaf mutex. */
  lemma Unblocked(s: State, t: nat, max_conn: int) returns (u: nat)
    requires Inv(s, max_conn) && Blocked(s, t)
    ensures HoldsSomething(s, u) && CanMove(s, u)
  {
    match s.threads[t]
    case Out(op, _) => u := LeafHolderMoves(s, LeafOf(op), max_conn);
    case In(_, op, _) => u := LeafHolderMoves(s, LeafOf(op), max_conn);
    case LockWant(c, _) =>
      u := s.conns[c].mtx.value;
      assert Holds(s.threads[u], c);
      if Blocked(s, u) {
        u := LeafHolderMoves(s, LeafOf(s.threads[u].op), max_conn);
      } else {
        NotBlockedMoves(s, u, max_conn);
      }
  }

  /** No deadlock, in any reachable state. */
  lemma NoDeadlock(threads: nat, run: seq<Action>, max_conn: int, t: nat)
    requires 0 <= max_conn && Possible(Init(threads), run, max_conn)
    ensures var s := After(Init(threads), run, max_conn);
            Blocked(s, t) ==> exists u: nat :: HoldsSomething(s, u) && CanMove(s, u)
  {
    InitInv(threads, max_conn);
    RunKeepsInv(Init(threads), run, max_conn);
    var s := After(Init(threads), run, max_conn);
    if Blocked(s, t) {
      var u := Unblocked(s, t, max_conn);
    }
  }
}
