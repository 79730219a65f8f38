/** Non-blocking sockets. What `read` and `write` return is not in the program's hands: it is a script of
    events, and every theorem holds for every script. */
module Io {
  import opened Bytes

  /** One `read`: some of `data` arrives, EAGAIN, or an error. An empty `data` is end of file. */
  datatype ReadEvent = Data(data: bytes) | NoData | ReadFails

  /** One `write`: room for `room` more bytes, EAGAIN, or an error. No room at all means `write` returns 0. */
  datatype WriteEvent = Accepts(room: nat) | NoRoom | WriteFails

  /** Result of a loop over `read` or `write`: the value returned, the bytes moved, the events left. */
  datatype Received = Received(n: int, data: bytes, rest: seq<ReadEvent>)
  datatype Sent = Sent(n: int, taken: bytes, rest: seq<WriteEvent>)

  function Min(a: nat, b: nat): nat { if a <= b then a else b }

  /** How much the readers ask for at a time. */
  const READ_BUFFER_SIZE := 2048

  // ---- Readn and Writen --------------------------------------------------------------------

  /** The bytes of one `read` for at most `len` bytes, and the events after it. */
  function ReadOnce(script: seq<ReadEvent>, len: nat): (r: Received)
    ensures 0 < r.n ==> |r.data| == r.n <= len
    ensures r.n <= 0 ==> |r.rest| <= |script| && r.data == []
  {
    if script == [] || script[0].NoData? then Received(0, [], if script == [] then [] else script[1..])
    else if script[0].ReadFails? || script[0].data == [] || len == 0 then Received(-1, [], script[1..])
    else
      var data := script[0].data;
      if |data| <= len then Received(|data|, data, script[1..])
      else Received(len, data[..len], [Data(data[len..])] + script[1..])
  }

  /** Up to `len` bytes, stopping early when nothing more is there. */
  function Recv(script: seq<ReadEvent>, len: nat): (r: Received)
    decreases len
  {
    if len == 0 then Received(0, [], script)
    else
      var one := ReadOnce(script, len);
      if one.n <= 0 then one
      else
        var more := Recv(one.rest, len - one.n);
        if more.n < 0 then Received(-1, [], more.rest)
        else Received(one.n + more.n, one.data + more.data, more.rest)
  }

  /** What a read loop that has `buf` already returns if `more` is what comes next. */
  function Onto(buf: bytes, more: Received): Received {
    if more.n < 0 then Received(-1, [], more.rest) else Received(|buf| + more.n, buf + more.data, more.rest)
  }

  lemma RecvOnto(buf: bytes, script: seq<ReadEvent>, len: nat)
    requires len > 0
    ensures var one := ReadOnce(script, len);
            Onto(buf, Recv(script, len)) ==
            if one.n > 0 then Onto(buf + one.data, Recv(one.rest, len - one.n))
            else if one.n == 0 then Received(|buf|, buf, one.rest)
            else Received(-1, [], one.rest)
  {
    var one := ReadOnce(script, len);
    if one.n > 0 {
      Associate(buf, one.data, Recv(one.rest, len - one.n).data);
    } else {
      assert buf + [] == buf;
    }
  }

  lemma OntoNothing(script: seq<ReadEvent>, len: nat)
    ensures Onto([], Recv(script, len)) == Recv(script, len)
  {
    assert [] + Recv(script, len).data == Recv(script, len).data;
  }

  /** All bytes a peer's script will deliver before an error. */
  function Incoming(script: seq<ReadEvent>): bytes {
    if script == [] then []
    else match script[0]
      case Data(data) => if data == [] then [] else data + Incoming(script[1..])
      case NoData => Incoming(script[1..])
      case ReadFails => []
  }

  lemma ReadOnceKeeps(script: seq<ReadEvent>, len: nat)
    requires len > 0
    ensures var one := ReadOnce(script, len);
            one.n >= 0 ==> one.data + Incoming(one.rest) == Incoming(script)
  {
    var one := ReadOnce(script, len);
    if one.n > 0 && |script[0].data| > len {
      var data := script[0].data;
      assert one.rest[1..] == script[1..];
      Associate(data[..len], data[len..], Incoming(script[1..]));
      assert data[..len] + data[len..] == data;
    }
  }

  /** A read that does not fail loses nothing: what it returns, then what is still to come. */
  lemma {:induction false} RecvKeeps(script: seq<ReadEvent>, len: nat)
    ensures var r := Recv(script, len);
            && r.n <= len
            && (r.n >= 0 ==> |r.data| == r.n && r.data + Incoming(r.rest) == Incoming(script))
    decreases len
  {
    if len > 0 {
      var one := ReadOnce(script, len);
      ReadOnceKeeps(script, len);
      if one.n > 0 {
        RecvKeeps(one.rest, len - one.n);
        var more := Recv(one.rest, len - one.n);
        Associate(one.data, more.data, Incoming(more.rest));
      }
    }
  }

  /** Offer `data`; `taken` is what the kernel accepted even when the call reports an error. */
  function Send(script: seq<WriteEvent>, data: bytes): (s: Sent)
    ensures s.n >= 0 ==> s.n == |s.taken| <= |data|
    decreases |script|
  {
    if data == [] then Sent(0, [], script)
    else if script == [] then Sent(0, [], [])
    else match script[0]
      case NoRoom => Sent(0, [], script[1..])
      case WriteFails => Sent(-1, [], script[1..])
      case Accepts(room) =>
        if room == 0 then Sent(-1, [], script[1..])
        else
          var k := Min(room, |data|);
          var more := Send(script[1..], data[k..]);
          Sent(if more.n < 0 then -1 else k + more.n, data[..k] + more.taken, more.rest)
  }

  /** The kernel always takes a prefix of what it is offered. */
  lemma {:induction false} SendTakesPrefix(script: seq<WriteEvent>, data: bytes)
    ensures Send(script, data).taken <= data
    decreases |script|
  {
    if data != [] && script != [] && script[0].Accepts? && script[0].room > 0 {
      var k := Min(script[0].room, |data|);
      SendTakesPrefix(script[1..], data[k..]);
      assert data[..k] + data[k..] == data;
    }
  }

  // ---- What a write loop achieves ----------------------------------------------------------

  /** An answer that means failure: an error, or no room at all. EAGAIN does not. */
  predicate Refuses(e: WriteEvent) { e == WriteFails || e == Accepts(0) }

  /** How much a socket takes before it answers with EAGAIN or a failure. */
  function Room(script: seq<WriteEvent>): nat {
    if script == [] || script[0] == NoRoom || Refuses(script[0]) then 0 else script[0].room + Room(script[1..])
  }

  /** That answer and the ones behind it. */
  function BehindRoom(script: seq<WriteEvent>): (rest: seq<WriteEvent>)
    ensures rest != [] ==> rest[0] == NoRoom || Refuses(rest[0])
  {
    if script == [] || script[0] == NoRoom || Refuses(script[0]) then script else BehindRoom(script[1..])
  }

  /** What the loop returns and sends: all of the data if there is room for it, and what there is room for
      otherwise; then it fails if the next answer is a failure, and returns how much is out if it is EAGAIN. */
  lemma {:induction false} SendIs(script: seq<WriteEvent>, data: bytes)
    ensures var s, room, behind := Send(script, data), Room(script), BehindRoom(script);
            if |data| <= room then s.n == |data| && s.taken == data
            else && s.taken == data[..room] && s.rest == (if behind == [] then [] else behind[1..])
                 && s.n == if behind != [] && Refuses(behind[0]) then -1 else room
    decreases |script|
  {
    if data != [] && script != [] && script[0] != NoRoom && !Refuses(script[0]) {
      var k := Min(script[0].room, |data|);
      SendIs(script[1..], data[k..]);
      assert data[..k] + data[k..] == data;
      if |data| > Room(script) {
        var room := Room(script[1..]);
        assert data[..k] + data[k..][..room] == data[..k + room];
      }
    }
  }

  /** `rest` is the end of `script`. */
  predicate Remains(script: seq<WriteEvent>, rest: seq<WriteEvent>) {
    |rest| <= |script| && script[|script| - |rest|..] == rest
  }

  /** The last answer taken from `script` was a failure. */
  predicate FailedOn(script: seq<WriteEvent>, rest: seq<WriteEvent>) {
    Remains(script, rest) && |rest| < |script| && Refuses(script[|script| - |rest| - 1])
  }

  lemma {:induction false} SendFailsIff(script: seq<WriteEvent>, data: bytes)
    ensures var s := Send(script, data);
            Remains(script, s.rest) && (s.n < 0 <==> FailedOn(script, s.rest))
    decreases |script|
  {
    if data != [] && script != [] && script[0].Accepts? && script[0].room > 0 {
      SendFailsIff(script[1..], data[Min(script[0].room, |data|)..]);
    }
  }

  lemma FailedOnLater(a: seq<WriteEvent>, b: seq<WriteEvent>, c: seq<WriteEvent>)
    requires Remains(a, b) && Remains(b, c) && !FailedOn(a, b)
    ensures Remains(a, c) && (FailedOn(a, c) <==> FailedOn(b, c))
  {
    var k := |a| - |b|;
    assert a[k..][|b| - |c|..] == a[|a| - |c|..];
    if |c| < |b| {
      assert a[k..][|b| - |c| - 1] == a[|a| - |c| - 1];
    } else {
      assert b == c;
    }
  }

  // ---- Why a reader stops ------------------------------------------------------------------

  /** `rest` is what is left of `script` after some reads; its first event may be partly consumed. */
  predicate Later(script: seq<ReadEvent>, rest: seq<ReadEvent>) {
    && |rest| <= |script|
    && (rest != [] ==>
          var k := |script| - |rest|;
          && rest[1..] == script[k + 1..]
          && (rest[0] == script[k] || (rest[0].Data? && script[k].Data? && rest[0].data != [])))
  }

  /** The last event taken from `script` was EAGAIN (or there are no more events), if `dry`; otherwise it
      was an error or the end of the file. */
  predicate StoppedBy(script: seq<ReadEvent>, rest: seq<ReadEvent>, dry: bool) {
    && |rest| <= |script| && script[|script| - |rest|..] == rest
    && (if dry then rest == [] || (|rest| < |script| && script[|script| - |rest| - 1].NoData?)
        else |rest| < |script| && script[|script| - |rest| - 1] in [ReadFails, Data([])])
  }

  lemma StoppedIsLater(script: seq<ReadEvent>, rest: seq<ReadEvent>)
    requires StoppedBy(script, rest, true)
    ensures Later(script, rest)
  {
    if rest != [] {
      assert rest[1..] == script[|script| - |rest|..][1..];
    }
  }

  lemma LaterThenStopped(a: seq<ReadEvent>, b: seq<ReadEvent>, c: seq<ReadEvent>, dry: bool)
    requires Later(a, b) && StoppedBy(b, c, dry)
    ensures StoppedBy(a, c, dry)
  {
    if |c| < |b| {
      var k := |a| - |b|;
      assert a[k + 1..] == b[1..];
      assert a[k + 1..][|b| - |c| - 1..] == a[|a| - |c|..];
      assert b[1..][|b| - |c| - 1..] == c;
      if |b| - |c| - 1 > 0 {
        assert b[1..][|b| - |c| - 2] == a[k + 1..][|b| - |c| - 2];
      }
    } else {
      assert c == b == [];
    }
  }

  lemma LaterThenLater(a: seq<ReadEvent>, b: seq<ReadEvent>, c: seq<ReadEvent>)
    requires Later(a, b) && Later(b, c)
    ensures Later(a, c)
  {
    if c != [] {
      var k, m := |a| - |b|, |b| - |c|;
      assert b[1..][m..] == b[m + 1..] && a[k + 1..][m..] == a[k + m + 1..];
      if m > 0 {
        assert b[1..][m - 1] == a[k + 1..][m - 1];
      }
    }
  }

  /** A short read ran the socket dry; a failed one met an error or the end of the file. */
  lemma {:induction false} RecvStops(script: seq<ReadEvent>, len: nat)
    requires len > 0
    ensures var r := Recv(script, len);
            if r.n == len then Later(script, r.rest) else StoppedBy(script, r.rest, r.n >= 0)
    decreases len
  {
    var one := ReadOnce(script, len);
    if one.n > 0 {
      assert Later(script, one.rest);
      if one.n < len {
        RecvStops(one.rest, len - one.n);
        var more := Recv(one.rest, len - one.n);
        if more.n == len - one.n {
          LaterThenLater(script, one.rest, more.rest);
        } else {
          LaterThenStopped(script, one.rest, more.rest, more.n >= 0);
        }
      }
    }
  }

  /** The same, for a read on what is left of an earlier script. */
  lemma RecvStopsLater(first: seq<ReadEvent>, script: seq<ReadEvent>, len: nat)
    requires len > 0 && Later(first, script)
    ensures var r := Recv(script, len);
            if r.n == len then Later(first, r.rest) else StoppedBy(first, r.rest, r.n >= 0)
  {
    RecvStops(script, len);
    var r := Recv(script, len);
    if r.n == len {
      LaterThenLater(first, script, r.rest);
    } else {
      LaterThenStopped(first, script, r.rest, r.n >= 0);
    }
  }

  /** The socket of one connection. `accepted` collects everything the kernel has taken. */
  class Socket {
    var inbound: seq<ReadEvent>
    var outbound: seq<WriteEvent>
    var accepted: bytes

    constructor ()
      ensures inbound == [] && outbound == [] && accepted == []
    {
      inbound, outbound, accepted := [], [], [];
    }

    /** The `read` system call. */
    method Read(len: nat) returns (n: int, data: bytes)
      modifies this`inbound
      ensures Received(n, data, inbound) == ReadOnce(old(inbound), len)
    {
      var one := ReadOnce(inbound, len);
      n, data, inbound := one.n, one.data, one.rest;
    }

    /** The `write` system call. */
    method Write(data: bytes) returns (n: int)
      requires data != []
      modifies this`outbound, this`accepted
      ensures n <= |data|
      ensures accepted == old(accepted) + (if n > 0 then data[..n] else [])
      ensures old(outbound) == [] ==> n == -1 && outbound == []
      ensures old(outbound) != [] ==> outbound == old(outbound)[1..]
      ensures old(outbound) != [] && old(outbound)[0].Accepts? ==> n == Min(old(outbound)[0].room, |data|)
      ensures old(outbound) != [] && old(outbound)[0].NoRoom? ==> n == -1
      ensures old(outbound) != [] && old(outbound)[0].WriteFails? ==> n == -2
    {
      if outbound == [] {
        n := -1;
      } else {
        var event := outbound[0];
        outbound := outbound[1..];
        match event
        case NoRoom => n := -1;
        case WriteFails => n := -2;
        case Accepts(room) => n := Min(room, |data|);
      }
      if n > 0 {
        accepted := accepted + data[..n];
      }
    }
  }
}
