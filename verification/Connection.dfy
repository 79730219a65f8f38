/** The buffered side of a connection: the write queue, `Flush`, and the partial-I/O loops. */
module Connection {
  import opened Bytes
  import opened Io

  datatype ConnStatus = AGAIN | UPGRADE | END | ERROR | CLOSE

  // ---- What one Flush does -----------------------------------------------------------------

  datatype Progress = Drained | Blocked | Failed

  datatype Flushed = Flushed(progress: Progress, taken: bytes, queue: seq<bytes>, rest: seq<WriteEvent>)

  /** Send the unsent tails of a queue until it is empty, the socket is full, or a write fails. */
  function FlushQueue(script: seq<WriteEvent>, queue: seq<bytes>): (f: Flushed)
    ensures f.progress.Drained? <==> f.queue == [] && !f.progress.Failed?
    decreases |queue|
  {
    if queue == [] then Flushed(Drained, [], [], script)
    else
      var s := Send(script, queue[0]);
      if s.n < 0 then Flushed(Failed, s.taken, queue, s.rest)
      else if s.n < |queue[0]| then Flushed(Blocked, s.taken, [queue[0][s.n..]] + queue[1..], s.rest)
      else
        var f := FlushQueue(s.rest, queue[1..]);
        f.(taken := s.taken + f.taken)
  }

  /** Write-queue conservation: accepted bytes followed by the unsent remainder are what was queued. After
      a failed write the kernel still holds a prefix of it, and the queue is as it was at that buffer. */
  lemma {:induction false} FlushConserves(script: seq<WriteEvent>, queue: seq<bytes>)
    ensures var f := FlushQueue(script, queue);
            && f.taken <= Concat(queue)
            && (!f.progress.Failed? ==> f.taken + Concat(f.queue) == Concat(queue))
    decreases |queue|
  {
    if queue != [] {
      var head, tail := queue[0], queue[1..];
      var s := Send(script, head);
      SendTakesPrefix(script, head);
      if 0 <= s.n < |head| {
        assert s.taken + head[s.n..] == head;
        Associate(s.taken, head[s.n..], Concat(tail));
        var queue' := [head[s.n..]] + tail;
        assert queue'[1..] == tail;
      } else if s.n >= 0 {
        FlushConserves(s.rest, tail);
        assert s.taken == head;
        var f := FlushQueue(s.rest, tail);
        Associate(head, f.taken, Concat(f.queue));
      }
    }
  }

  /** `rest` is what is left of `script` after the socket ran full: its last answer was EAGAIN, or it has
      no more answers. */
  predicate RanFull(script: seq<WriteEvent>, rest: seq<WriteEvent>) {
    && |rest| <= |script| && script[|script| - |rest|..] == rest
    && (rest != [] ==> |rest| < |script| && script[|script| - |rest| - 1].NoRoom?)
  }

  lemma {:induction false} SendStopsWhenFull(script: seq<WriteEvent>, data: bytes)
    ensures var s := Send(script, data);
            && |s.rest| <= |script| && script[|script| - |s.rest|..] == s.rest
            && (0 <= s.n < |data| ==> RanFull(script, s.rest))
    decreases |script|
  {
    if data != [] && script != [] && script[0].Accepts? && script[0].room > 0 {
      SendStopsWhenFull(script[1..], data[Min(script[0].room, |data|)..]);
    }
  }

  lemma RanFullAfter(a: seq<WriteEvent>, b: seq<WriteEvent>, c: seq<WriteEvent>)
    requires |b| <= |a| && a[|a| - |b|..] == b && RanFull(b, c)
    ensures RanFull(a, c)
  {
    var k := |a| - |b|;
    assert a[k..][|b| - |c|..] == a[|a| - |c|..];
    if c != [] {
      assert a[k..][|b| - |c| - 1] == a[|a| - |c| - 1];
    }
  }

  /** A flush stops early only when the socket is full: until EAGAIN, bytes keep moving. */
  lemma {:induction false} FlushStopsWhenFull(script: seq<WriteEvent>, queue: seq<bytes>)
    requires FlushQueue(script, queue).progress.Blocked?
    ensures RanFull(script, FlushQueue(script, queue).rest)
    decreases |queue|
  {
    var s := Send(script, queue[0]);
    SendStopsWhenFull(script, queue[0]);
    if s.n == |queue[0]| {
      FlushStopsWhenFull(s.rest, queue[1..]);
      RanFullAfter(script, s.rest, FlushQueue(s.rest, queue[1..]).rest);
    }
  }

  /** A flush fails if and only if the last answer it has met is a failure. */
  lemma {:induction false} FlushFailsIff(script: seq<WriteEvent>, queue: seq<bytes>)
    ensures var f := FlushQueue(script, queue);
            Remains(script, f.rest) && (f.progress.Failed? <==> FailedOn(script, f.rest))
    decreases |queue|
  {
    if queue != [] {
      var s := Send(script, queue[0]);
      SendFailsIff(script, queue[0]);
      if s.n == |queue[0]| {
        FlushFailsIff(s.rest, queue[1..]);
        FailedOnLater(script, s.rest, FlushQueue(s.rest, queue[1..]).rest);
      }
    }
  }

  /** EAGAIN is no failure: without failures among the answers no flush fails. */
  lemma NoFailure(script: seq<WriteEvent>, queue: seq<bytes>)
    requires forall e | e in script :: !Refuses(e)
    ensures !FlushQueue(script, queue).progress.Failed?
    ensures forall e | e in FlushQueue(script, queue).rest :: !Refuses(e)
  {
    FlushFailsIff(script, queue);
  }

  lemma OneAnswerTakes(script: seq<WriteEvent>, data: bytes)
    requires script != [] && script[0].Accepts? && 0 < script[0].room && |data| <= script[0].room
    ensures Send(script, data).n == |data| && Send(script, data).rest == if data == [] then script else script[1..]
  {
    assert data[|data|..] == [];
  }

  /** With room for every buffer, all of it goes out. */
  lemma {:induction false} FlushDrains(script: seq<WriteEvent>, queue: seq<bytes>)
    requires |queue| <= |script|
    requires forall e, b | e in script && b in queue :: e.Accepts? && e.room > 0 && |b| <= e.room
    ensures FlushQueue(script, queue).progress == Drained
    decreases |queue|
  {
    if queue != [] {
      assert queue[0] in queue && script[0] in script;
      var s := Send(script, queue[0]);
      assert script[0].Accepts? && script[0].room > 0 && |queue[0]| <= script[0].room;
      OneAnswerTakes(script, queue[0]);
      FlushDrains(s.rest, queue[1..]);
    }
  }

  /** The outcome of an offer of which `taken` has gone out before `s`. */
  function SentAfter(taken: bytes, s: Sent): Sent {
    Sent(if s.n < 0 then -1 else |taken| + s.n, taken + s.taken, s.rest)
  }

  lemma SentNothing(script: seq<WriteEvent>, data: bytes)
    ensures SentAfter(data[..0], Send(script, data[0..])) == Send(script, data)
  {
    assert data[..0] == [] && data[0..] == data && [] + Send(script, data).taken == Send(script, data).taken;
  }

  lemma SentAll(script: seq<WriteEvent>, data: bytes)
    ensures data[..|data|] == data
    ensures SentAfter(data[..|data|], Send(script, data[|data|..])) == Sent(|data|, data, script)
  {
    assert data[..|data|] == data && data[|data|..] == [] && data + [] == data;
  }

  lemma SendStep(script: seq<WriteEvent>, data: bytes, n: nat, k: nat)
    requires n < |data| && script != [] && script[0].Accepts? && 0 < k == Min(script[0].room, |data| - n)
    ensures SentAfter(data[..n], Send(script, data[n..])) ==
            SentAfter(data[..n + k], Send(script[1..], data[n + k..]))
    ensures data[..n] + data[n..][..k] == data[..n + k]
  {
    assert data[..n] + data[n..][..k] == data[..n + k];
    assert data[n..][k..] == data[n + k..];
    Associate(data[..n], data[n..][..k], Send(script[1..], data[n + k..]).taken);
  }

  /** The outcome if the first answer is not a success. */
  lemma SendEnds(script: seq<WriteEvent>, data: bytes, n: nat)
    requires n < |data| && (script == [] || script[0] == NoRoom || Refuses(script[0]))
    ensures SentAfter(data[..n], Send(script, data[n..])) ==
            Sent(if script != [] && Refuses(script[0]) then -1 else n, data[..n],
                 if script == [] then [] else script[1..])
  {
    assert data[n..] != [] && data[..n] + [] == data[..n];
  }

  function FlushedAfter(taken: bytes, f: Flushed): Flushed { f.(taken := taken + f.taken) }

  lemma FlushStep(script: seq<WriteEvent>, queue: seq<bytes>, accepted: bytes, taken: bytes)
    requires queue != []
    ensures var s := Send(script, queue[0]);
            && FlushedAfter(taken, FlushQueue(script, queue)) ==
                 FlushedAfter(taken + s.taken,
                   if s.n < 0 then Flushed(Failed, [], queue, s.rest)
                   else if s.n < |queue[0]| then Flushed(Blocked, [], [queue[0][s.n..]] + queue[1..], s.rest)
                   else FlushQueue(s.rest, queue[1..]))
            && accepted + taken + s.taken == accepted + (taken + s.taken)
  {
    var s := Send(script, queue[0]);
    Associate(taken, s.taken, FlushQueue(s.rest, queue[1..]).taken);
    Associate(accepted, taken, s.taken);
    assert s.taken + [] == s.taken && taken + s.taken + [] == taken + s.taken;
  }

  // ---- Runs of enqueues and flushes --------------------------------------------------------

  datatype WriteAction = Enqueue(data: bytes) | Offer(script: seq<WriteEvent>)

  /** Everything a run enqueues. */
  function Enqueued(run: seq<WriteAction>): bytes {
    if run == [] then [] else (if run[0].Enqueue? then run[0].data else []) + Enqueued(run[1..])
  }

  /** The unsent tails, the bytes the kernel has accepted, and whether a write has failed. */
  datatype Outgoing = Outgoing(queue: seq<bytes>, accepted: bytes, failed: bool)

  function Acted(o: Outgoing, a: WriteAction): Outgoing {
    if o.failed then o
    else match a
      case Enqueue(data) => if data == [] then o else o.(queue := o.queue + [data])
      case Offer(script) =>
        var f := FlushQueue(script, o.queue);
        Outgoing(f.queue, o.accepted + f.taken, f.progress.Failed?)
  }

  function ActedAll(o: Outgoing, run: seq<WriteAction>): Outgoing
    decreases |run|
  {
    if run == [] then o else ActedAll(Acted(o, run[0]), run[1..])
  }

  /** What the kernel has accepted, followed by what is unsent, is `all`; after a failure, what the kernel has
      accepted is a prefix of it. */
  predicate Conserved(o: Outgoing, all: bytes) {
    if o.failed then o.accepted <= all else o.accepted + Concat(o.queue) == all
  }

  lemma ActedConserves(o: Outgoing, a: WriteAction)
    requires !o.failed
    ensures Conserved(Acted(o, a), o.accepted + Concat(o.queue) + Enqueued([a]))
  {
    var sum := o.accepted + Concat(o.queue);
    assert Enqueued([a]) == (if a.Enqueue? then a.data else []) + [];
    match a
    case Enqueue(data) =>
      ConcatMore(o.queue, data);
      Associate(o.accepted, Concat(o.queue), data);
      assert data + [] == data && sum + [] == sum;
    case Offer(script) =>
      var f := FlushQueue(script, o.queue);
      FlushConserves(script, o.queue);
      Associate(o.accepted, f.taken, Concat(f.queue));
      assert [] + [] == Enqueued([a]) && sum + [] == sum;
  }

  lemma FailedConserved(o: Outgoing, all: bytes, more: bytes)
    requires o.failed && Conserved(o, all)
    ensures Conserved(o, all + more)
  {
  }

  lemma EnqueuedFirst(run: seq<WriteAction>, all: bytes)
    requires run != []
    ensures all + Enqueued(run) == all + Enqueued([run[0]]) + Enqueued(run[1..])
  {
    var front := if run[0].Enqueue? then run[0].data else [];
    assert [run[0]][1..] == [] && front + [] == front;
    Associate(all, front, Enqueued(run[1..]));
  }

  /** Write-queue conservation over whole runs: what the kernel has accepted, followed by what is unsent, is
      everything enqueued; after the first failure, a prefix of it has been accepted. */
  lemma {:induction false} RunConserves(o: Outgoing, run: seq<WriteAction>)
    requires !o.failed
    ensures Conserved(ActedAll(o, run), o.accepted + Concat(o.queue) + Enqueued(run))
    decreases |run|
  {
    var sum := o.accepted + Concat(o.queue);
    if run == [] {
      assert sum + [] == sum;
    } else {
      var o', back := Acted(o, run[0]), Enqueued(run[1..]);
      EnqueuedFirst(run, sum);
      ActedConserves(o, run[0]);
      if o'.failed {
        FailedStays(o', run[1..]);
        FailedConserved(o', sum + Enqueued([run[0]]), back);
      } else {
        RunConserves(o', run[1..]);
      }
    }
  }

  lemma {:induction false} FailedStays(o: Outgoing, run: seq<WriteAction>)
    requires o.failed
    ensures ActedAll(o, run) == o
    decreases |run|
  {
    if run != [] {
      FailedStays(o, run[1..]);
    }
  }

  // ---- The connection object ---------------------------------------------------------------

  class WriteBuffer {
    const str: bytes
    const len: nat
    var write_len: nat

    constructor (s: bytes)
      ensures str == s && len == |s| && write_len == 0
    {
      str, len, write_len := s, |s|, 0;
    }

    ghost predicate Valid()
      reads this
    {
      len == |str| && write_len < len
    }

    ghost function Tail(): bytes
      requires Valid()
      reads this
    {
      str[write_len..]
    }
  }

  class Connection {
    var fd: int
    var write_buffer_chain: seq<WriteBuffer>
    var upgraded: bool
    var finish: bool
    const sock: Socket
    /** The unsent tails of the buffers. */
    ghost var queue: seq<bytes>

    /** Buffers are distinct and nonempty, and only the front one may be partly written. */
    ghost predicate Valid()
      reads this, write_buffer_chain
    {
      && |queue| == |write_buffer_chain|
      && (forall i | 0 <= i < |write_buffer_chain| :: write_buffer_chain[i].Valid())
      && (forall i | 0 <= i < |queue| :: queue[i] == write_buffer_chain[i].Tail())
      && (forall i, j | 0 <= i < j < |write_buffer_chain| :: write_buffer_chain[i] != write_buffer_chain[j])
      && (forall i | 0 < i < |write_buffer_chain| :: write_buffer_chain[i].write_len == 0)
    }

    constructor (fd: int)
      ensures Valid() && this.fd == fd && write_buffer_chain == [] && !upgraded && !finish
      ensures fresh(sock) && sock.inbound == [] && sock.outbound == [] && sock.accepted == []
    {
      this.fd := fd;
      write_buffer_chain, queue := [], [];
      upgraded, finish := false, false;
      sock := new Socket();
    }

    /** Queue one buffer; empty data and closed connections are ignored. */
    method WriteData(data: bytes)
      requires Valid()
      modifies this`write_buffer_chain, this`queue
      ensures Valid()
      ensures old(write_buffer_chain) <= write_buffer_chain
      ensures fresh(set b | b in write_buffer_chain && b !in old(write_buffer_chain))
      ensures queue == old(queue) + (if data == [] || fd < 0 then [] else [data])
    {
      if data == [] {
        return;
      }
      if fd < 0 {
        return;
      }
      var wb := new WriteBuffer(data);
      write_buffer_chain, queue := write_buffer_chain + [wb], queue + [data];
    }

    /** One `write` of what is left of the data when `n` bytes are out. */
    method WriteOnce(data: bytes, n: nat, ghost base: bytes) returns (nwrite: int)
      requires n < |data| && sock.accepted == base + data[..n]
      modifies sock`outbound, sock`accepted
      ensures nwrite > 0 ==>
        && n + nwrite <= |data| && sock.accepted == base + data[..n + nwrite]
        && SentAfter(data[..n], Send(old(sock.outbound), data[n..])) ==
           SentAfter(data[..n + nwrite], Send(sock.outbound, data[n + nwrite..]))
      ensures nwrite <= 0 ==>
        && sock.accepted == base + data[..n]
        && SentAfter(data[..n], Send(old(sock.outbound), data[n..])) ==
           Sent(if nwrite == -1 then n else -1, data[..n], sock.outbound)
    {
      ghost var script := sock.outbound;
      nwrite := sock.Write(data[n..]);
      if nwrite > 0 {
        SendStep(script, data, n, nwrite);
        Associate(base, data[..n], data[n..][..nwrite]);
      } else {
        SendEnds(script, data, n);
      }
    }

    /** Loop over `write` until everything is out, the socket is full, or a write fails. */
    method WriteLoop(data: bytes) returns (r: int)
      modifies sock`outbound, sock`accepted
      ensures var s := Send(old(sock.outbound), data);
              r == s.n && sock.outbound == s.rest && sock.accepted == old(sock.accepted) + s.taken
    {
      var n := 0;
      ghost var all, base := Send(sock.outbound, data), sock.accepted;
      SentNothing(sock.outbound, data);
      while n < |data|
        invariant 0 <= n <= |data|
        invariant sock.accepted == base + data[..n]
        invariant all == SentAfter(data[..n], Send(sock.outbound, data[n..]))
      {
        var nwrite := WriteOnce(data, n, base);
        if nwrite > 0 {
          n := n + nwrite;
        } else if nwrite < 0 {
          if nwrite == -1 {
            return n;
          } else {
            return -1;
          }
        } else {
          return -1;
        }
      }
      SentAll(sock.outbound, data);
      return n;
    }

    /** It fails just when its last answer was a failure, and otherwise returns how much is out: all of it
        unless the socket is full. */
    method Writen(data: bytes) returns (r: int)
      modifies sock`outbound, sock`accepted
      ensures var s := Send(old(sock.outbound), data);
              r == s.n && sock.outbound == s.rest && sock.accepted == old(sock.accepted) + s.taken
      ensures r < 0 <==> FailedOn(old(sock.outbound), sock.outbound)
      ensures r >= 0 ==> |sock.accepted| == |old(sock.accepted)| + r && r <= |data|
      ensures 0 <= r < |data| ==> RanFull(old(sock.outbound), sock.outbound)
    {
      SendFailsIff(sock.outbound, data);
      SendStopsWhenFull(sock.outbound, data);
      r := WriteLoop(data);
    }

    /** Loop over `read` until `len` bytes are in, nothing more is there, or a read fails. */
    method Readn(len: nat) returns (r: int, buf: bytes)
      modifies sock`inbound
      ensures Received(r, buf, sock.inbound) == Recv(old(sock.inbound), len)
    {
      var n := 0;
      buf := [];
      ghost var all := Recv(sock.inbound, len);
      OntoNothing(sock.inbound, len);
      while n < len
        invariant 0 <= n <= len && |buf| == n
        invariant Onto(buf, Recv(sock.inbound, len - n)) == all
        decreases len - n
      {
        RecvOnto(buf, sock.inbound, len - n);
        var nread, data := sock.Read(len - n);
        if nread > 0 {
          n, buf := n + nread, buf + data;
        } else if nread == 0 {
          return n, buf;
        } else {
          return -1, [];
        }
      }
      assert buf + [] == buf;
      return n, buf;
    }

    /** `n` more bytes of the front buffer are out: drop it, or note how much of it is. */
    method Advance(n: nat) returns (done: bool)
      requires Valid() && write_buffer_chain != [] && n <= |queue[0]|
      modifies this`write_buffer_chain, this`queue, write_buffer_chain[0]
      ensures Valid()
      ensures queue == if done then old(queue)[1..] else [old(queue)[0][n..]] + old(queue)[1..]
      ensures done <==> n == old(|queue[0]|)
      ensures write_buffer_chain == if done then old(write_buffer_chain)[1..] else old(write_buffer_chain)
    {
      var wb := write_buffer_chain[0];
      wb.write_len := wb.write_len + n;
      done := wb.write_len == wb.len;
      if done {
        write_buffer_chain, queue := write_buffer_chain[1..], queue[1..];
      } else {
        queue := [queue[0][n..]] + queue[1..];
      }
    }

    /** One round of the flush loop: offer the front buffer, then drop it or note how much of it is out. */
    method FlushFront() returns (n: int, done: bool)
      requires Valid() && write_buffer_chain != []
      modifies this`write_buffer_chain, this`queue, write_buffer_chain[0], sock`outbound, sock`accepted
      ensures Valid()
      ensures var s, q := Send(old(sock.outbound), old(queue[0])), old(queue);
              && n == s.n && sock.outbound == s.rest && sock.accepted == old(sock.accepted) + s.taken
              && queue == if n < 0 then q else if n == |q[0]| then q[1..] else [q[0][n..]] + q[1..]
      ensures done <==> n == old(|queue[0]|)
      ensures write_buffer_chain == if done then old(write_buffer_chain)[1..] else old(write_buffer_chain)
    {
      var wb := write_buffer_chain[0];
      n := Writen(wb.str[wb.write_len..]);
      done := false;
      if n >= 0 {
        done := Advance(n);
      }
    }

    /** The flush loop. */
    method FlushLoop() returns (progress: Progress, ghost k: nat)
      requires Valid()
      modifies this`write_buffer_chain, this`queue, write_buffer_chain, sock`outbound, sock`accepted
      ensures Valid() && k <= |old(write_buffer_chain)| && write_buffer_chain == old(write_buffer_chain)[k..]
      ensures var f := FlushQueue(old(sock.outbound), old(queue));
              && progress == f.progress && queue == f.queue && sock.outbound == f.rest
              && sock.accepted == old(sock.accepted) + f.taken
    {
      ghost var goal := FlushQueue(sock.outbound, queue);
      ghost var taken: bytes := [];
      ghost var chain := write_buffer_chain;
      k := 0;
      while write_buffer_chain != []
        invariant Valid() && k <= |chain| && write_buffer_chain == chain[k..]
        invariant sock.accepted == old(sock.accepted) + taken
        invariant goal == FlushedAfter(taken, FlushQueue(sock.outbound, queue))
        decreases |write_buffer_chain|
      {
        FlushStep(sock.outbound, queue, old(sock.accepted), taken);
        taken := taken + Send(sock.outbound, queue[0]).taken;
        assert write_buffer_chain[0] == chain[k] && write_buffer_chain[1..] == chain[k + 1..];
        var n, done := FlushFront();
        k := if done then k + 1 else k;
        if n < 0 {
          return Failed, k;
        } else if !done {
          return Blocked, k;
        }
      }
      return Drained, k;
    }

    /** Push the queue out. */
    method Flush() returns (status: ConnStatus)
      requires Valid()
      modifies this`write_buffer_chain, this`queue, write_buffer_chain, sock`outbound, sock`accepted
      ensures Valid() && forall b | b in write_buffer_chain :: b in old(write_buffer_chain)
      ensures fd < 0 ==> status == CLOSE && queue == old(queue) &&
                         sock.accepted == old(sock.accepted) && sock.outbound == old(sock.outbound)
      ensures fd >= 0 ==>
        var f := FlushQueue(old(sock.outbound), old(queue));
        && queue == f.queue && sock.accepted == old(sock.accepted) + f.taken && sock.outbound == f.rest
        && status == (match f.progress
                      case Failed => ERROR
                      case Blocked => AGAIN
                      case Drained => if upgraded then UPGRADE else if finish then END else AGAIN)
      ensures fd >= 0 ==> (status == ERROR <==> FailedOn(old(sock.outbound), sock.outbound))
      ensures fd >= 0 && status != ERROR && queue != [] ==>
        status == AGAIN && RanFull(old(sock.outbound), sock.outbound)
    {
      FlushFailsIff(sock.outbound, queue);
      if FlushQueue(sock.outbound, queue).progress.Blocked? {
        FlushStopsWhenFull(sock.outbound, queue);
      }
      if fd < 0 {
        return CLOSE;
      }
      var progress, k := FlushLoop();
      match progress
      case Failed => return ERROR;
      case Blocked => return AGAIN;
      case Drained =>
        if upgraded {
          return UPGRADE;
        }
        if finish {
          return END;
        }
        return AGAIN;
    }

    /** Forget all per-client state, as when the connection is recycled. */
    method Reset()
      modifies this
      ensures Valid() && write_buffer_chain == [] && !upgraded && !finish
      ensures fd == if old(fd) > 0 then -1 else old(fd)
    {
      if fd > 0 {
        fd := -1;
      }
      upgraded, finish := false, false;
      write_buffer_chain, queue := [], [];
    }
  }

  method Act(conn: Connection, a: WriteAction) returns (failed: bool)
    requires conn.Valid() && conn.fd >= 0
    modifies conn`write_buffer_chain, conn`queue, conn.write_buffer_chain, conn.sock
    ensures conn.Valid()
    ensures Outgoing(conn.queue, conn.sock.accepted, failed) ==
            Acted(Outgoing(old(conn.queue), old(conn.sock.accepted), false), a)
    ensures forall b | b in conn.write_buffer_chain :: b in old(conn.write_buffer_chain) || fresh(b)
  {
    failed := false;
    match a
    case Enqueue(data) =>
      ghost var chain := conn.write_buffer_chain;
      conn.WriteData(data);
      assert forall b | b in conn.write_buffer_chain && b !in chain ::
          b in set b | b in conn.write_buffer_chain && b !in chain;
      assert data == [] ==> conn.queue + [] == conn.queue;
    case Offer(script) =>
      conn.sock.outbound := script;
      var status := conn.Flush();
      failed := status == ERROR;
  }

  /** A run over a real connection, up to the first write that fails. */
  method Transfer(conn: Connection, run: seq<WriteAction>) returns (failed: bool)
    requires conn.Valid() && conn.fd >= 0 && conn.queue == [] && conn.sock.accepted == []
    modifies conn`write_buffer_chain, conn`queue, conn.sock
    ensures conn.Valid() && Outgoing(conn.queue, conn.sock.accepted, failed) == ActedAll(Outgoing([], [], false), run)
    ensures if failed then conn.sock.accepted <= Enqueued(run)
            else conn.sock.accepted + Concat(conn.queue) == Enqueued(run)
  {
    failed := false;
    var i := 0;
    assert run[0..] == run;
    while i < |run| && !failed
      invariant 0 <= i <= |run| && conn.Valid() && conn.fd >= 0
      invariant fresh(set b: object | b in conn.write_buffer_chain)
      invariant ActedAll(Outgoing(conn.queue, conn.sock.accepted, failed), run[i..]) ==
                ActedAll(Outgoing([], [], false), run)
    {
      assert run[i..][1..] == run[i + 1..];
      ghost var chain := conn.write_buffer_chain;
      failed := Act(conn, run[i]);
      assert forall b | b in chain :: b in set b: object | b in chain;
      i := i + 1;
    }
    if failed {
      FailedStays(Outgoing(conn.queue, conn.sock.accepted, failed), run[i..]);
    }
    RunConserves(Outgoing([], [], false), run);
    assert [] + Enqueued(run) == Enqueued(run);
  }
}
