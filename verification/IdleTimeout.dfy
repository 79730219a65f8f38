/** Idle connections: the timeout thread, with a monotone clock, exact sleeps and undisturbed sweeps. */
module IdleTimeout {
  import opened Lists
  import opened ConnectionPool

  // ---- Sweeps over time stamps -------------------------------------------------------------

  predicate Ascending(times: seq<int>) { forall i, j | 0 <= i < j < |times| :: times[i] <= times[j] }

  /** Whether a connection last active at `time` has been idle for too long at `now`. */
  predicate Expired(time: int, now: int, timeout: int) { now - time >= timeout }

  /** How many connections a sweep resets: it breaks off at the first that is not expired. */
  function Reach(times: seq<int>, now: int, timeout: int): (k: nat)
    ensures k <= |times| && forall i | 0 <= i < k :: Expired(times[i], now, timeout)
    ensures k < |times| ==> !Expired(times[k], now, timeout)
  {
    if times != [] && Expired(times[0], now, timeout) then 1 + Reach(times[1..], now, timeout) else 0
  }

  /** In an ascending list the early break misses nothing. */
  lemma SweepIsExact(times: seq<int>, now: int, timeout: int)
    requires Ascending(times)
    ensures var k := Reach(times, now, timeout);
            forall i | 0 <= i < |times| :: now - times[i] >= timeout <==> i < k
  {
  }

  // ---- Runs --------------------------------------------------------------------------------

  /** The clock, the time at which the timeout thread wakes up, and the time stamps in list order. */
  datatype State = State(clock: int, wake: int, times: seq<int>)

  datatype Action =
    | Tick(to: int)    // time passes; the thread sleeps exactly as long as it asked to
    | Accepted         // a connection is pushed
    | Touched(i: nat)  // the `i`th connection reads: it moves to the end with a new time stamp
    | Closed(i: nat)   // the `i`th connection is reset by another thread
    | Round            // one round of the timeout thread

  predicate Enabled(s: State, a: Action) {
    match a
    case Tick(to) => s.clock <= to <= s.wake
    case Accepted => true
    case Touched(i) => i < |s.times|
    case Closed(i) => i < |s.times|
    case Round => s.clock == s.wake
  }

  /** How long the timeout thread sleeps at the end of a round. */
  function Nap(times: seq<int>, now: int, timeout: int): int {
    if times == [] then timeout
    else if !Expired(times[0], now, timeout) then timeout - (now - times[0])
    else 0
  }

  function Step(s: State, a: Action, timeout: int): State
    requires Enabled(s, a)
  {
    match a
    case Tick(to) => s.(clock := to)
    case Accepted => s.(times := s.times + [s.clock])
    case Touched(i) => s.(times := Remove(s.times, i) + [s.clock])
    case Closed(i) => s.(times := Remove(s.times, i))
    case Round =>
      State(s.clock, s.clock + Nap(s.times, s.clock, timeout), s.times[Reach(s.times, s.clock, timeout)..])
  }

  function Init(clock: int): State { State(clock, clock, []) }

  /** The list is sorted by time stamp, and the thread will be awake when the first connection expires. */
  predicate Inv(s: State, timeout: int) {
    && Ascending(s.times) && (forall t | t in s.times :: t <= s.clock)
    && s.clock <= s.wake <= s.clock + timeout && (forall t | t in s.times :: s.wake <= t + timeout)
  }

  lemma RemoveKeeps(times: seq<int>, i: nat)
    requires Ascending(times) && i < |times|
    ensures Ascending(Remove(times, i)) && forall t | t in Remove(times, i) :: t in times
  {
  }

  lemma AppendKeeps(times: seq<int>, now: int)
    requires Ascending(times) && forall t | t in times :: t <= now
    ensures Ascending(times + [now])
  {
    forall i, j | 0 <= i < j < |times| + 1 ensures (times + [now])[i] <= (times + [now])[j] {
      assert times[i] in times;
    }
  }

  lemma StepKeepsInv(s: State, a: Action, timeout: int)
    requires 1 <= timeout && Inv(s, timeout) && Enabled(s, a)
    ensures Inv(Step(s, a, timeout), timeout)
  {
    match a
    case Tick(to) =>
    case Accepted => AppendKeeps(s.times, s.clock);
    case Touched(i) =>
      RemoveKeeps(s.times, i);
      AppendKeeps(Remove(s.times, i), s.clock);
    case Closed(i) => RemoveKeeps(s.times, i);
    case Round => RoundKeepsInv(s, timeout);
  }

  lemma RoundKeepsInv(s: State, timeout: int)
    requires 1 <= timeout && Inv(s, timeout) && Enabled(s, Round)
    ensures Inv(Step(s, Round, timeout), timeout)
  {
    var s', k := Step(s, Round, timeout), Reach(s.times, s.clock, timeout);
    SweepIsExact(s.times, s.clock, timeout);
    forall t | t in s'.times ensures t in s.times && s'.wake <= t + timeout {
      var i :| 0 <= i < |s'.times| && s'.times[i] == t;
      assert t == s.times[k + i] && !Expired(t, s.clock, timeout);
      assert k == 0 ==> s.times[0] <= t;
    }
    assert s.times != [] ==> s.times[0] in s.times;
  }

  predicate Possible(s: State, actions: seq<Action>, timeout: int)
    decreases |actions|
  {
    actions == [] || (Enabled(s, actions[0]) && Possible(Step(s, actions[0], timeout), actions[1..], timeout))
  }

  function After(s: State, actions: seq<Action>, timeout: int): State
    requires Possible(s, actions, timeout)
    decreases |actions|
  {
    if actions == [] then s else After(Step(s, actions[0], timeout), actions[1..], timeout)
  }

  lemma {:induction false} RunKeepsInv(s: State, actions: seq<Action>, timeout: int)
    requires 1 <= timeout && Inv(s, timeout) && Possible(s, actions, timeout)
    ensures Inv(After(s, actions, timeout), timeout)
    decreases |actions|
  {
    if actions != [] {
      StepKeepsInv(s, actions[0], timeout);
      RunKeepsInv(Step(s, actions[0], timeout), actions[1..], timeout);
    }
  }

  /** No connection is ever idle for longer than the timeout, and the list stays sorted. */
  lemma IdleBound(clock: int, actions: seq<Action>, timeout: int)
    requires 1 <= timeout && Possible(Init(clock), actions, timeout)
    ensures var s := After(Init(clock), actions, timeout);
            Ascending(s.times) && forall t | t in s.times :: 0 <= s.clock - t <= timeout
  {
    RunKeepsInv(Init(clock), actions, timeout);
  }

  /** The thread sleeps, until the earliest time at which a connection can expire. */
  predicate SleepsUntilExpiry(s: State, timeout: int) {
    s.wake > s.clock && s.wake == (if s.times == [] then s.clock else s.times[0]) + timeout
  }

  lemma RoundSleeps(s: State, timeout: int)
    requires 1 <= timeout && Inv(s, timeout) && Enabled(s, Round)
    ensures var s' := Step(s, Round, timeout);
            if s'.wake > s'.clock then SleepsUntilExpiry(s', timeout)
            else Enabled(s', Round) && (s'.times == [] || !Expired(s'.times[0], s'.clock, timeout))
  {
    var k := Reach(s.times, s.clock, timeout);
    if k < |s.times| {
      assert s.times[k..][0] == s.times[k];
    }
  }

  /** A round either sleeps until the earliest time at which a connection can expire, or resets the connections
      that have been idle for exactly the timeout; then the next round follows at once, and sleeps so. Time
      never stands still. */
  lemma RoundsMakeProgress(clock: int, actions: seq<Action>, timeout: int)
    requires 1 <= timeout && Possible(Init(clock), actions + [Round], timeout)
    ensures var s := After(Init(clock), actions + [Round], timeout);
            if s.wake > s.clock then SleepsUntilExpiry(s, timeout)
            else Enabled(s, Round) && SleepsUntilExpiry(Step(s, Round, timeout), timeout)
  {
    var s := AfterSum(Init(clock), actions, [Round], timeout);
    RunKeepsInv(Init(clock), actions, timeout);
    var s' := Step(s, Round, timeout);
    assert [Round][1..] == [];
    assert After(s, [Round], timeout) == After(s', [], timeout) == s';
    RoundSleeps(s, timeout);
    if Enabled(s', Round) {
      StepKeepsInv(s, Round, timeout);
      RoundSleeps(s', timeout);
    }
  }

  lemma {:induction false} AfterSum(s: State, a: seq<Action>, b: seq<Action>, timeout: int) returns (m: State)
    requires Possible(s, a + b, timeout)
    ensures Possible(s, a, timeout) && m == After(s, a, timeout)
    ensures Possible(m, b, timeout) && After(m, b, timeout) == After(s, a + b, timeout)
    decreases |a|
  {
    if a == [] {
      assert a + b == b;
      m := s;
    } else {
      assert (a + b)[1..] == a[1..] + b;
      m := AfterSum(Step(s, a[0], timeout), a[1..], b, timeout);
    }
  }

  lemma RemoveKeepsPairs<T>(items: seq<T>, times: seq<int>, i: nat)
    requires |items| == |times| && i < |items| && Distinct(items)
    ensures forall k | 0 <= k < |items| - 1 ::
              var h := if k < i then k else k + 1;
              && Remove(items, i)[k] == items[h] && Remove(times, i)[k] == times[h]
              && items[h] in items && items[h] != items[i]
  {
  }

  // ---- The timeout thread's code -----------------------------------------------------------

  class EventLoop {
    const conn_pool: ConnectionPool
    const idle_timeout: int

    constructor (conn_pool: ConnectionPool, idle_timeout: int)
      ensures this.conn_pool == conn_pool && this.idle_timeout == idle_timeout
    {
      this.conn_pool, this.idle_timeout := conn_pool, idle_timeout;
    }

    /** The active list is `items`, with the time stamps `times`, and none of it is free. */
    ghost predicate Active(items: seq<Connection>, times: seq<int>)
      reads conn_pool, conn_pool.all
    {
      && conn_pool.Valid() && conn_pool.active.items == items && |times| == |items|
      && (forall i | 0 <= i < |items| :: items[i].active_time == times[i] > 0 && items[i] !in conn_pool.free)
    }

    /** A connection is accepted: stamped and pushed. */
    method Activate(conn: Connection, now: int, ghost items: seq<Connection>, ghost times: seq<int>)
      requires Active(items, times) && now > 0
      requires conn in conn_pool.all && conn !in items && conn !in conn_pool.free
      modifies conn_pool, conn_pool.all
      ensures Active(items + [conn], times + [now])
    {
      assert forall i | 0 <= i < |items| :: items[i] in items && items[i] in conn_pool.all;
      conn.active_time := now;
      conn_pool.ActiveListPush(conn);
    }

    /** A connection has something to read: it moves to the end of the list and is stamped. */
    method Refresh(conn: Connection, now: int, ghost items: seq<Connection>, ghost times: seq<int>, ghost i: nat)
      requires Active(items, times) && now > 0 && i < |items| && conn == items[i]
      modifies conn_pool, conn_pool.all
      ensures Active(Remove(items, i) + [conn], Remove(times, i) + [now])
    {
      assert conn in items && IndexOf(items, conn) == i;
      ghost var r, rt := Remove(items, i), Remove(times, i);
      RemoveKeepsPairs(items, times, i);
      assert forall k | 0 <= k < |items| :: items[k] in items && items[k] in conn_pool.all;
      assert Stamped(r, rt, conn);
      conn_pool.ActiveListUpdate(conn);
      assert conn_pool.active.items == r + [conn] && Stamped(r, rt, conn);
      Stamp(conn, now, r, rt);
    }

    /** The last connection of the list is stamped. */
    method Stamp(conn: Connection, now: int, ghost items: seq<Connection>, ghost times: seq<int>)
      requires conn_pool.Valid() && conn_pool.active.items == items + [conn] && conn !in conn_pool.free && now > 0
      requires Stamped(items, times, conn)
      modifies conn`active_time
      ensures Active(items + [conn], times + [now])
    {
      conn.active_time := now;
    }

    /** The stamps of busy connections other than `conn`. */
    ghost predicate Stamped(items: seq<Connection>, times: seq<int>, conn: Connection)
      reads items, conn_pool`free
    {
      && |items| == |times|
      && forall i | 0 <= i < |items| ::
           items[i].active_time == times[i] > 0 && items[i] !in conn_pool.free && items[i] != conn
    }

    /** To the free list first, then off the active list. */
    method ResetConnection(conn: Connection)
      requires conn_pool.Valid() && conn in conn_pool.active.items && conn !in conn_pool.free
      modifies conn_pool, conn_pool.all
      ensures conn_pool.Valid() && conn_pool.all == old(conn_pool.all)
      ensures conn_pool.active == Erase(old(conn_pool.active), conn)
      ensures conn_pool.free == [conn] + old(conn_pool.free)
      ensures forall c | c in conn_pool.all :: c.active_time == if c == conn then 0 else old(c.active_time)
    {
      conn.active_time := 0;
      conn_pool.FreeListPush(conn);
      conn_pool.ActiveListErase(conn);
    }

    /** Reset the head of the list, to which the cursor is next. */
    method ResetHead(conn: Connection, ghost items: seq<Connection>, ghost times: seq<int>)
      requires Active(items, times) && items != [] && conn == items[0] && conn_pool.active.at == 1
      modifies conn_pool, conn_pool.all
      ensures Active(items[1..], times[1..]) && conn_pool.active.at == 0 && conn_pool.all == old(conn_pool.all)
      ensures conn.active_time == 0 && conn_pool.free == [conn] + old(conn_pool.free)
      ensures forall c | c in conn_pool.free && c != conn :: c.active_time == old(c.active_time)
    {
      assert items == [conn] + items[1..];
      ResetFirst(conn, items[1..], times[1..]);
    }

    method ResetFirst(conn: Connection, ghost rest: seq<Connection>, ghost times: seq<int>)
      requires conn_pool.Valid() && conn_pool.active == List([conn] + rest, 1) && conn !in conn_pool.free
      requires Stamped(rest, times, conn)
      modifies conn_pool, conn_pool.all
      ensures Active(rest, times) && conn_pool.active.at == 0 && conn_pool.all == old(conn_pool.all)
      ensures conn.active_time == 0 && conn_pool.free == [conn] + old(conn_pool.free)
      ensures forall c | c in conn_pool.free && c != conn :: c.active_time == old(c.active_time)
    {
      ghost var items := [conn] + rest;
      assert IndexOf(items, conn) == 0 && Remove(items, 0) == rest;
      forall i | 0 <= i < |rest| ensures rest[i] in conn_pool.all {
        assert items[i + 1] in items;
      }
      ResetConnection(conn);
      forall i | 0 <= i < |rest| ensures rest[i].active_time == times[i] > 0 && rest[i] !in conn_pool.free {
        assert rest[i] != conn;
      }
    }

    /** Ask for the next connection of the sweep. */
    method CheckNext(ghost items: seq<Connection>, ghost times: seq<int>) returns (conn: Connection?)
      requires Active(items, times) && conn_pool.active.at == 0
      modifies conn_pool`active_list_lookup_cursor, conn_pool`active
      ensures Active(items, times)
      ensures if items == [] then conn == null else conn == items[0] && conn_pool.active.at == 1
    {
      conn := conn_pool.ActiveListCheckNext();
    }

    /** The connections that a sweep has reset are free, and the others still active. */
    ghost predicate Reset(items: seq<Connection>, times: seq<int>, k: nat, free: seq<Connection>)
      requires k <= |items| == |times|
      reads conn_pool, conn_pool.all, items
    {
      && Active(items[k..], times[k..]) && |conn_pool.free| == |free| + k
      && forall i | 0 <= i < k :: items[i] in conn_pool.free && items[i].active_time == 0
    }

    /** One step of the sweep: reset a connection and ask for the next. */
    method SweepOne(conn: Connection, ghost items: seq<Connection>, ghost times: seq<int>, ghost k: nat,
                    ghost free: seq<Connection>)
      returns (next: Connection?)
      requires k < |items| == |times| && conn == items[k] && conn_pool.active.at == 1
      requires Reset(items, times, k, free)
      modifies conn_pool, conn_pool.all
      ensures conn_pool.all == old(conn_pool.all) && Reset(items, times, k + 1, free)
      ensures if k + 1 == |items| then next == null else next == items[k + 1] && conn_pool.active.at == 1
    {
      assert items[k..][1..] == items[k + 1..] && times[k..][1..] == times[k + 1..];
      assert conn !in conn_pool.free by {
        assert items[k..][0] == conn;
      }
      assert conn_pool.active.items == items[k..];
      ResetHead(conn, items[k..], times[k..]);
      next := CheckNext(items[k + 1..], times[k + 1..]);
    }

    /** One round of the timeout thread, after which it sleeps for `seconds`, if that is positive. It resets
        exactly the connections that have been idle for too long. */
    method CheckConnectionTimeout(now: int, ghost items: seq<Connection>, ghost times: seq<int>)
      returns (seconds: int)
      requires Active(items, times) && Ascending(times)
      modifies conn_pool, conn_pool.all
      ensures Reset(items, times, Reach(times, now, idle_timeout), old(conn_pool.free))
      ensures forall i | 0 <= i < |items| ::
                if now - times[i] >= idle_timeout then items[i] in conn_pool.free && items[i].active_time == 0
                else items[i] in conn_pool.active.items && items[i].active_time == times[i]
      ensures seconds == if times == [] then idle_timeout
                         else if now - times[0] < idle_timeout then idle_timeout - (now - times[0])
                         else 0
    {
      seconds := CheckAndSweep(now, items, times);
      SweepIsExact(times, now, idle_timeout);
      ghost var k := Reach(times, now, idle_timeout);
      forall i | k <= i < |items| ensures items[i] in conn_pool.active.items && items[i].active_time == times[i] {
        assert items[k..][i - k] == items[i] && times[k..][i - k] == times[i];
      }
    }

    method CheckAndSweep(now: int, ghost items: seq<Connection>, ghost times: seq<int>) returns (seconds: int)
      requires Active(items, times) && Ascending(times)
      modifies conn_pool, conn_pool.all
      ensures Reset(items, times, Reach(times, now, idle_timeout), old(conn_pool.free))
      ensures seconds == Nap(times, now, idle_timeout)
    {
      conn_pool.ActiveListTimeoutCheck();
      var conn := CheckNext(items, times);
      assert items[0..] == items && times[0..] == times;
      if conn != null {
        if conn.active_time > 0 && now - conn.active_time < idle_timeout {
          return idle_timeout - (now - conn.active_time);
        }
      } else {
        var empty := conn_pool.ActiveListEmpty();
        if empty {
          return idle_timeout;
        }
        return 0;
      }
      Sweep(conn, now, items, times);
      return 0;
    }

    method Sweep(first: Connection, now: int, ghost items: seq<Connection>, ghost times: seq<int>)
      requires Active(items, times) && items != [] && first == items[0] && conn_pool.active.at == 1
      requires Ascending(times)
      modifies conn_pool, conn_pool.all
      ensures Reset(items, times, Reach(times, now, idle_timeout), old(conn_pool.free))
    {
      ghost var k, reach := 0, Reach(times, now, idle_timeout);
      SweepIsExact(times, now, idle_timeout);
      assert items[0..] == items && times[0..] == times;
      var conn: Connection? := first;
      while conn != null
        invariant conn_pool.all == old(conn_pool.all)
        invariant k <= reach && Reset(items, times, k, old(conn_pool.free))
        invariant if conn == null then k == |items| else k < |items| && conn == items[k] && conn_pool.active.at == 1
        decreases |items| - k
      {
        assert conn.active_time == times[k] > 0 by {
          assert items[k..][0] == items[k] && times[k..][0] == times[k];
        }
        if conn.active_time > 0 && now - conn.active_time < idle_timeout {
          break;
        }
        conn := SweepOne(conn, items, times, k, old(conn_pool.free));
        k := k + 1;
      }
    }
  }
}
