/** The WebSocket endpoint: frame printing and the incremental parser over a growing buffer. */
module WebSocket {
  import opened Bytes
  import opened Io
  import opened Connection
  import opened WebSocketFrame
  import opened WebSocketWire

  /** Append the frame of `message` to `frameData`. */
  method MakeFrame(frameData: bytes, message: bytes, opcode: byte) returns (r: bytes)
    requires |message| < TWO_63
    ensures r == frameData + ServerFrame(opcode, message).Print()
    ensures opcode < 0x80 ==> r == frameData + (ServerHeader(opcode, |message|) + message)
  {
    var len := |message|;
    var header := new byte[if len < 126 then 2 else if len < 0x1_0000 then 4 else 10];
    header[0] := if opcode < 0x80 then 0x80 + opcode else opcode;
    if len < 126 {
      header[1] := len % 0x100;
    } else if len < 0x1_0000 {
      header[1] := 126;
      header[2] := len / 0x100 % 0x100;
      header[3] := len % 0x100;
      TwoDigits(len);
      assert header[2..] == Digits(len, 2);
    } else {
      header[1] := 127;
      header[2] := len / 0x100_0000_0000_0000 % 0x100;
      header[3] := len / 0x1_0000_0000_0000 % 0x100;
      header[4] := len / 0x100_0000_0000 % 0x100;
      header[5] := len / 0x1_0000_0000 % 0x100;
      header[6] := len / 0x100_0000 % 0x100;
      header[7] := len / 0x1_0000 % 0x100;
      header[8] := len / 0x100 % 0x100;
      header[9] := len % 0x100;
      EightDigits(len);
      assert header[2..] == Digits(len, 8);
    }
    HeaderBytes(header[..], opcode, message);
    if opcode < 0x80 {
      ServerFrameIs(opcode, message);
    }
    r := frameData + header[..];
    Associate(frameData, header[..], message);
    if message != [] {
      r := r + message;
    }
  }

  lemma HeaderBytes(header: bytes, opcode: byte, message: bytes)
    requires |message| < TWO_63
    requires var f := ServerFrame(opcode, message);
             |header| == 2 + Extended(f.form) && header[0] == f.FirstByte() && header[1] == f.SecondByte() &&
             header[2..] == Digits(|message|, Extended(f.form))
    ensures header + message == ServerFrame(opcode, message).Print()
  {
    var f := ServerFrame(opcode, message);
    assert header == [f.FirstByte(), f.SecondByte()] + Digits(|message|, Extended(f.form));
    assert header + [] == header;
  }

  /** A user's function; 0 is the null function. */
  type Callback = nat

  class WebSocket {
    const conn: Connection
    var max_buffer_size: nat
    var rbuf: bytes
    var cache_str: bytes
    /** What `WebSocketTaskPush` has put on the task queue for this endpoint, oldest first. */
    var tasks: seq<Task>
    var on_close_func: Callback
    var ping_func: Callback
    var pong_func: Callback
    var on_message_func: Callback

    constructor (conn: Connection)
      ensures this.conn == conn && max_buffer_size == 8192 && rbuf == [] && cache_str == [] && tasks == []
    {
      this.conn := conn;
      max_buffer_size, rbuf, cache_str, tasks := 8192, [], [], [];
      on_close_func, ping_func, pong_func, on_message_func := 0, 0, 0, 0;
    }

    /** Drop buffered data; the queued tasks belong to the event loop and stay. */
    method Reset()
      modifies this
      ensures max_buffer_size == 8192 && rbuf == [] && cache_str == [] && tasks == old(tasks)
      ensures on_close_func == 0 && ping_func == 0 && pong_func == 0 && on_message_func == 0
    {
      rbuf, cache_str := [], [];
      on_close_func, ping_func, pong_func, on_message_func := 0, 0, 0, 0;
      max_buffer_size := 8192;
    }

    method Length2() returns (len: nat)
      requires |rbuf| >= 4
      ensures len == Number(rbuf[2..4])
    {
      NumberOfTwo(rbuf[2..4]);
      len := rbuf[2] as int * 0x100 + rbuf[3] as int;
    }

    method Length8() returns (len: nat)
      requires |rbuf| >= 10
      ensures len == Number(rbuf[2..10])
    {
      NumberOfEight(rbuf[2..10]);
      len := rbuf[2] as int * 0x100_0000_0000_0000 + rbuf[3] as int * 0x1_0000_0000_0000 +
             rbuf[4] as int * 0x100_0000_0000 + rbuf[5] as int * 0x1_0000_0000 +
             rbuf[6] as int * 0x100_0000 + rbuf[7] as int * 0x1_0000 +
             rbuf[8] as int * 0x100 + rbuf[9] as int;
    }

    /** Fields of the frame header at the front of the buffer. */
    method ParseHeader() returns (h: Header)
      ensures h == HeaderOf(rbuf)
    {
      if |rbuf| < 2 {
        return Partial;
      }
      var mask, len0 := rbuf[1] >= 0x80, rbuf[1] % 0x80;
      var size := 2;
      if len0 == 126 {
        size := size + 2;
      } else if len0 == 127 {
        size := size + 8;
      }
      if mask {
        size := size + 4;
      }
      if |rbuf| < size {
        return Partial;
      }
      var len := Length(len0);
      h := Header(rbuf[0] >= 0x80, rbuf[0] % 0x10, if mask then rbuf[size - 4..size] else [], size, len);
    }

    /** The payload length whose first seven bits are `len0`. */
    method Length(len0: nat) returns (len: nat)
      requires |rbuf| >= 2 && (len0 == 126 ==> |rbuf| >= 4) && (len0 == 127 ==> |rbuf| >= 10)
      ensures len == if len0 == 126 then Number(rbuf[2..4]) else if len0 == 127 then Number(rbuf[2..10]) else len0
    {
      len := len0;
      if len0 == 126 {
        len := Length2();
      } else if len0 == 127 {
        len := Length8();
      }
    }

    /** XOR the payload of header `h` with its key, in the buffer. */
    method Unmask(h: Header)
      requires h.Header? && |h.key| == 4 && h.size + h.length <= |rbuf|
      modifies this`rbuf
      ensures |rbuf| == |old(rbuf)|
      ensures rbuf[h.size..h.size + h.length] == Payload(old(rbuf), h)
      ensures Unmasked(rbuf[h.size..h.size + h.length], old(rbuf)[h.size..h.size + h.length], h.key)
      ensures rbuf[..h.size] == old(rbuf)[..h.size] && rbuf[h.size + h.length..] == old(rbuf)[h.size + h.length..]
    {
      MaskIsUnmasked(rbuf[h.size..h.size + h.length], h.key);
      var i := 0;
      while i != h.length
        invariant 0 <= i <= h.length && |rbuf| == |old(rbuf)|
        invariant forall j | 0 <= j < i :: rbuf[h.size + j] == Xor(old(rbuf)[h.size + j], h.key[j % 4])
        invariant rbuf[..h.size] == old(rbuf)[..h.size] && rbuf[h.size + i..] == old(rbuf)[h.size + i..]
        decreases h.length - i
      {
        rbuf := rbuf[i + h.size := Xor(rbuf[i + h.size], h.key[i % 4])];
        i := i + 1;
      }
    }

    /** Queue or cache the payload that `cache_str` now ends with. */
    method Deliver(fin: bool, opcode: byte, ghost size: nat)
      modifies this`cache_str, this`tasks
      ensures var s := Dispatch(size, fin, opcode, old(cache_str));
              cache_str == s.cache && tasks == old(tasks) + s.tasks
    {
      if opcode == BINARY_FRAME || opcode == TEXT_FRAME || opcode == CONTINUATION {
        if fin {
          tasks := tasks + [Task(opcode, cache_str)];
          cache_str := [];
        }
      } else if opcode == PING {
        tasks := tasks + [Task(opcode, cache_str)];
        cache_str := [];
      } else if opcode == PONG {
        tasks := tasks + [Task(opcode, cache_str)];
      } else if opcode == WebSocketFrame.CLOSE {
        tasks := tasks + [Task(opcode, cache_str)];
      } else {
        tasks := tasks + [Task(WebSocketFrame.CLOSE, cache_str)];
      }
    }

    /** One round of the parse loop: the outcome of `StepAt` on the buffer and the cache. */
    method ParseOne() returns (verdict: Verdict, again: bool)
      modifies this`rbuf, this`cache_str, this`tasks
      ensures var s := StepAt(old(rbuf), old(cache_str), max_buffer_size);
              && again == s.Take?
              && verdict == (if s.Stop? then s.verdict else More)
              && rbuf == (if s.Take? then old(rbuf)[s.size..] else old(rbuf))
              && cache_str == (if s.Take? then s.cache else old(cache_str))
              && tasks == old(tasks) + (if s.Take? then s.tasks else [])
    {
      var h := ParseHeader();
      if h.Partial? {
        return More, false;
      }
      if |rbuf| < Wrap64(h.size + h.length) {
        return More, false;
      }
      if Wrap64(|cache_str| + h.length) > max_buffer_size {
        return Rejected, false;
      }
      if h.size + h.length >= TWO_64 || |cache_str| + h.length >= TWO_64 {
        return Overflowed, false;
      }
      if h.key != [] && h.length > 0 {
        Unmask(h);
      }
      cache_str := cache_str + rbuf[h.size..h.size + h.length];
      Deliver(h.fin, h.opcode, h.size + h.length);
      rbuf := rbuf[h.size + h.length..];
      return More, true;
    }

    /** Consume every complete frame of the buffer. */
    method Parse() returns (verdict: Verdict)
      modifies this`rbuf, this`cache_str, this`tasks
      ensures var d := Decode(old(rbuf), old(cache_str), max_buffer_size);
              && verdict == d.verdict && rbuf == d.rest && cache_str == d.cache
              && tasks == old(tasks) + d.tasks
    {
      ghost var goal := Decode(rbuf, cache_str, max_buffer_size);
      ghost var pushed: seq<Task> := [];
      while true
        invariant tasks == old(tasks) + pushed
        invariant var d := Decode(rbuf, cache_str, max_buffer_size); goal == d.(tasks := pushed + d.tasks)
        decreases |rbuf|
      {
        ghost var s := StepAt(rbuf, cache_str, max_buffer_size);
        DecodeUnroll(rbuf, cache_str, max_buffer_size, pushed);
        var again;
        verdict, again := ParseOne();
        if !again {
          return;
        }
        Associate(old(tasks), pushed, s.tasks);
        pushed := pushed + s.tasks;
      }
    }

    /** Nothing in the buffer can be decoded yet: the state between two calls of `Parse`. */
    ghost predicate Waiting()
      reads this
    {
      StepAt(rbuf, cache_str, max_buffer_size) == Wait
    }

    /** Buffer, cache and tasks are those after decoding `seen`, which came behind nothing but `cache`. */
    ghost predicate Holds(seen: bytes, cache: bytes, before: seq<Task>, verdict: Verdict)
      reads this
    {
      var d := Decode(seen, cache, max_buffer_size);
      verdict == d.verdict && tasks == before + d.tasks && cache_str == d.cache && rbuf == d.rest
    }

    /** Append what was read, and parse. */
    method Take(buf: bytes, ghost seen: bytes, ghost cache: bytes, ghost before: seq<Task>) returns (verdict: Verdict)
      requires Holds(seen, cache, before, More)
      modifies this`rbuf, this`cache_str, this`tasks
      ensures Holds(seen + buf, cache, before, verdict) && (verdict == More ==> Waiting())
    {
      DecodeAppend(seen, buf, cache, max_buffer_size);
      Associate(before, Decode(seen, cache, max_buffer_size).tasks,
                Decode(rbuf + buf, cache_str, max_buffer_size).tasks);
      DecodeLeavesWaiting(rbuf + buf, cache_str, max_buffer_size);
      rbuf := rbuf + buf;
      verdict := Parse();
    }

    /** One `Readn` of a full buffer, after other reads of `script` that returned `received`. */
    method ReadMore(ghost script: seq<ReadEvent>, ghost received: bytes) returns (n: int, buf: bytes)
      requires Later(script, conn.sock.inbound) && received + Incoming(conn.sock.inbound) == Incoming(script)
      modifies conn.sock`inbound
      ensures n <= READ_BUFFER_SIZE
      ensures n >= 0 ==> |buf| == n && received + buf + Incoming(conn.sock.inbound) == Incoming(script)
      ensures if n == READ_BUFFER_SIZE then Later(script, conn.sock.inbound)
              else StoppedBy(script, conn.sock.inbound, n >= 0)
    {
      RecvKeeps(conn.sock.inbound, READ_BUFFER_SIZE);
      RecvStopsLater(script, conn.sock.inbound, READ_BUFFER_SIZE);
      n, buf := conn.Readn(READ_BUFFER_SIZE);
      Associate(received, buf, Incoming(conn.sock.inbound));
    }

    /** Read and parse until nothing more is there. `received` is what the socket has handed over. */
    method ReadData() returns (status: ConnStatus, ghost received: bytes)
      requires Waiting()
      modifies this`rbuf, this`cache_str, this`tasks, conn.sock`inbound
      ensures var d := Decode(old(rbuf) + received, old(cache_str), max_buffer_size);
              && (status == ERROR <==> d.verdict != More)
              && tasks == old(tasks) + d.tasks && cache_str == d.cache && rbuf == d.rest
      ensures status in {AGAIN, ERROR, ConnStatus.CLOSE} && (status != ERROR ==> Waiting())
      ensures status != ConnStatus.CLOSE ==>
                received + Incoming(conn.sock.inbound) == old(Incoming(conn.sock.inbound))
      ensures received <= old(Incoming(conn.sock.inbound))
      ensures status == AGAIN ==> StoppedBy(old(conn.sock.inbound), conn.sock.inbound, true)
      ensures status == ConnStatus.CLOSE ==> StoppedBy(old(conn.sock.inbound), conn.sock.inbound, false)
    {
      received := [];
      var n := READ_BUFFER_SIZE;
      ghost var start := rbuf;
      DecodeUnroll(start, cache_str, max_buffer_size, []);
      assert start + received == start;
      while n == READ_BUFFER_SIZE
        invariant Waiting() && Holds(start + received, old(cache_str), old(tasks), More)
        invariant received + Incoming(conn.sock.inbound) == old(Incoming(conn.sock.inbound))
        invariant if n == READ_BUFFER_SIZE then Later(old(conn.sock.inbound), conn.sock.inbound)
                  else StoppedBy(old(conn.sock.inbound), conn.sock.inbound, true)
        decreases |Incoming(conn.sock.inbound)|, n
      {
        var buf;
        n, buf := ReadMore(old(conn.sock.inbound), received);
        if n > 0 {
          Associate(start, received, buf);
          var verdict := Take(buf, start + received, old(cache_str), old(tasks));
          received := received + buf;
          if verdict != More {
            return ERROR, received;
          }
        } else if n < 0 {
          return ConnStatus.CLOSE, received;
        } else {
          break;
        }
      }
      return AGAIN, received;
    }
  }
}
