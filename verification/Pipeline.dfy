/** End to end: framed, queued, flushed through a socket that takes what it likes, and parsed in whatever
    chunks arrive. */
module Pipeline {
  import opened Bytes
  import opened Io
  import opened Connection
  import opened WebSocketFrame
  import opened WebSocket

  /** `Send`: frame a message and queue it. `Push`: one `Flush` while the socket answers with `script`.
      `Arrive`: up to `n` more of the bytes on the wire reach the receiver in one read. */
  datatype Action = Send(opcode: byte, msg: bytes) | Push(script: seq<WriteEvent>) | Arrive(n: nat)

  predicate Sendable(a: Action, max: nat) { a.Send? ==> Deliverable(Task(a.opcode, a.msg), max) }

  function SentBy(a: Action): seq<Task> { if a.Send? then [Task(a.opcode, a.msg)] else [] }

  /** The messages of a schedule, in the order in which they are sent. */
  function Messages(schedule: seq<Action>): seq<Task> {
    if schedule == [] then [] else SentBy(schedule[0]) + Messages(schedule[1..])
  }

  predicate Deliverable(m: Task, max: nat) {
    m.opcode in {TEXT_FRAME, BINARY_FRAME, PING} && |m.msg| <= max && |m.msg| < TWO_63
  }

  /** The frame of one message. (No std::string reaches 2^63 bytes.) */
  function Wire(m: Task): bytes {
    var f := ServerFrame(m.opcode, m.msg);
    if Fits(f.form, |m.msg|) then f.Print() else []
  }

  /** The byte stream that carries `sent`. */
  function Printed(sent: seq<Task>): bytes
  {
    if sent == [] then []
    else
      Printed(sent[..|sent| - 1]) + Wire(sent[|sent| - 1])
  }

  /** `stream` is, for a receiver with limit `max`, exactly the messages `sent`. */
  ghost predicate Carries(stream: bytes, sent: seq<Task>, max: nat) {
    Decode(stream, [], max) == Decoded(More, sent, [], [])
  }

  lemma WireCarries(m: Task, max: nat)
    requires Deliverable(m, max)
    ensures Carries([] + Wire(m), [m], max)
  {
    var f, printed := ServerFrame(m.opcode, m.msg), Wire(m);
    assert f.Valid() && [] + printed == printed && printed + [] == printed && [] + m.msg == m.msg;
    FrameRoundTrip(f, [], [], max);
    DecodeUnroll(printed, [], max, []);
    assert printed[|printed|..] == [];
    DecodeUnroll([], [], max, []);
  }

  lemma CarriesAppend(stream: bytes, more: bytes, sent: seq<Task>, m: Task, max: nat)
    requires Carries(stream, sent, max) && Carries([] + more, [m], max)
    ensures Carries(stream + more, sent + [m], max)
  {
    DecodeAppend(stream, more, [], max);
  }

  /** A receiver decodes a complete stream into exactly the messages sent. */
  lemma {:induction false} PrintedCarries(sent: seq<Task>, max: nat)
    requires forall i | 0 <= i < |sent| :: Deliverable(sent[i], max)
    ensures Carries(Printed(sent), sent, max)
    decreases |sent|
  {
    if sent == [] {
      DecodeUnroll([], [], max, []);
    } else {
      var front, m := sent[..|sent| - 1], sent[|sent| - 1];
      PrintedCarries(front, max);
      WireCarries(m, max);
      CarriesAppend(Printed(front), Wire(m), front, m, max);
      assert front + [m] == sent;
    }
  }

  /** Any part of such a stream decodes to a prefix of the messages. */
  lemma PrefixCarries(stream: bytes, sent: seq<Task>, crossed: bytes, max: nat)
    requires Carries(stream, sent, max) && crossed <= stream
    ensures Decode(crossed, [], max).verdict.More? && Decode(crossed, [], max).tasks <= sent
  {
    var missing := stream[|crossed|..];
    assert crossed + missing == stream;
    DecodeAppend(crossed, missing, [], max);
  }

  lemma DecodeMore(crossed: bytes, chunk: bytes, max: nat)
    requires Decode(crossed + chunk, [], max).verdict.More?
    ensures var d := Decode(crossed, [], max);
            var e := Decode(d.rest + chunk, d.cache, max);
            d.verdict.More? ==>
              e.verdict.More? && Decode(crossed + chunk, [], max) == e.(tasks := d.tasks + e.tasks)
  {
    DecodeAppend(crossed, chunk, [], max);
  }

  lemma PrintedExtends(sent: seq<Task>, m: Task)
    ensures Printed(sent + [m]) == Printed(sent) + Wire(m)
  {
    assert (sent + [m])[..|sent|] == sent;
  }

  // ---- The line as a value -----------------------------------------------------------------

  /** The unsent tails of the buffers, the bytes the sender's kernel has accepted, how many of them have
      arrived, whether a write has failed, and the messages sent before that. */
  datatype Line = Line(queue: seq<bytes>, accepted: bytes, arrived: nat, broken: bool, sent: seq<Task>)

  const EMPTY := Line([], [], 0, false, [])

  function Moved(l: Line, a: Action): Line {
    match a
    case Send(opcode, msg) =>
      var m := Task(opcode, msg);
      if l.broken then l else l.(queue := l.queue + [Wire(m)], sent := l.sent + [m])
    case Push(script) =>
      var f := FlushQueue(script, l.queue);
      if l.broken then l
      else if f.progress.Failed? then l.(queue := [], accepted := l.accepted + f.taken, broken := true)
      else l.(queue := f.queue, accepted := l.accepted + f.taken)
    case Arrive(n) =>
      if l.arrived <= |l.accepted| then l.(arrived := l.arrived + Min(n, |l.accepted| - l.arrived)) else l
  }

  function After(l: Line, schedule: seq<Action>): Line
    decreases |schedule|
  {
    if schedule == [] then l else After(Moved(l, schedule[0]), schedule[1..])
  }

  /** The accepted bytes, then the unsent ones, are what was printed; after a failure, a prefix of it. */
  ghost predicate LineOk(l: Line, max: nat) {
    && l.arrived <= |l.accepted| && (forall i | 0 <= i < |l.sent| :: Deliverable(l.sent[i], max))
    && (if l.broken then l.accepted <= Printed(l.sent) else l.accepted + Concat(l.queue) == Printed(l.sent))
  }

  lemma MovedOk(l: Line, a: Action, max: nat)
    requires LineOk(l, max) && Sendable(a, max)
    ensures LineOk(Moved(l, a), max) && l.accepted <= Moved(l, a).accepted
  {
    match a
    case Send(opcode, msg) =>
      if !l.broken {
        PrintedExtends(l.sent, Task(opcode, msg));
        ConcatMore(l.queue, Wire(Task(opcode, msg)));
        Associate(l.accepted, Concat(l.queue), Wire(Task(opcode, msg)));
      }
    case Push(script) =>
      var f := FlushQueue(script, l.queue);
      FlushConserves(script, l.queue);
      Associate(l.accepted, f.taken, Concat(f.queue));
      if !l.broken {
        PrefixOfSum(l.accepted, f.taken, Concat(l.queue));
      }
    case Arrive(n) =>
  }

  lemma PrefixOfSum(a: bytes, b: bytes, c: bytes)
    requires b <= c
    ensures a + b <= a + c
  {
  }

  lemma {:induction false} AfterOk(l: Line, schedule: seq<Action>, max: nat)
    requires LineOk(l, max) && forall i | 0 <= i < |schedule| :: Sendable(schedule[i], max)
    ensures LineOk(After(l, schedule), max)
    decreases |schedule|
  {
    if schedule != [] {
      MovedOk(l, schedule[0], max);
      AfterOk(Moved(l, schedule[0]), schedule[1..], max);
    }
  }

  /** `after` is what has been sent when `more` follows `before`: all of it, unless the line broke. */
  predicate SentOn(before: seq<Task>, broken: bool, more: seq<Task>, after: seq<Task>, brokenAfter: bool) {
    && after <= before + more
    && (broken ==> brokenAfter && after == before)
    && (!brokenAfter ==> after == before + more)
  }

  lemma MovedSent(l: Line, a: Action)
    ensures SentOn(l.sent, l.broken, SentBy(a), Moved(l, a).sent, Moved(l, a).broken)
  {
    assert l.sent + [] == l.sent;
  }

  lemma SentOnAgain(s: seq<Task>, x: bool, m: seq<Task>, t: seq<Task>, y: bool, n: seq<Task>, u: seq<Task>, z: bool)
    requires SentOn(s, x, m, t, y) && SentOn(t, y, n, u, z)
    ensures SentOn(s, x, m + n, u, z)
  {
    Associate(s, m, n);
    if y {
      assert s + m <= s + m + n;
    }
  }

  lemma {:induction false} AfterSent(l: Line, schedule: seq<Action>)
    ensures SentOn(l.sent, l.broken, Messages(schedule), After(l, schedule).sent, After(l, schedule).broken)
    decreases |schedule|
  {
    if schedule == [] {
      assert l.sent + [] == l.sent;
    } else {
      var a, e := schedule[0], After(l, schedule);
      MovedSent(l, a);
      AfterSent(Moved(l, a), schedule[1..]);
      SentOnAgain(l.sent, l.broken, SentBy(a), Moved(l, a).sent, Moved(l, a).broken,
                  Messages(schedule[1..]), e.sent, e.broken);
    }
  }

  /** All bytes sent have crossed. */
  predicate Crossed(l: Line) { !l.broken && l.queue == [] && l.arrived == |l.accepted| }

  lemma LineDelivers(l: Line, k: nat, max: nat)
    requires LineOk(l, max) && k <= |l.accepted|
    ensures var d := Decode(l.accepted[..k], [], max);
            d.verdict.More? && d.tasks <= l.sent && (Crossed(l) && k == l.arrived ==> d.tasks == l.sent)
  {
    PrintedCarries(l.sent, max);
    assert l.accepted[..k] <= Printed(l.sent);
    PrefixCarries(Printed(l.sent), l.sent, l.accepted[..k], max);
    if Crossed(l) {
      assert l.accepted + [] == l.accepted && l.accepted[..|l.accepted|] == l.accepted;
    }
  }

  /** End to end, for every schedule of sends, flushes and arrivals: what the receiver decodes is always a
      prefix of what was sent, it never refuses, and once every byte has crossed all messages are there. */
  lemma EndToEnd(schedule: seq<Action>, max: nat)
    requires forall i | 0 <= i < |schedule| :: Sendable(schedule[i], max)
    ensures var l := After(EMPTY, schedule);
            && l.arrived <= |l.accepted|
            && var d := Decode(l.accepted[..l.arrived], [], max);
               && d.verdict.More? && d.tasks <= Messages(schedule)
               && (Crossed(l) ==> d.tasks == Messages(schedule))
  {
    AfterOk(EMPTY, schedule, max);
    AfterSent(EMPTY, schedule);
    assert [] + Messages(schedule) == Messages(schedule);
    LineDelivers(After(EMPTY, schedule), After(EMPTY, schedule).arrived, max);
  }

  // ---- Completion --------------------------------------------------------------------------

  /** Nothing the socket answers is a failure. */
  predicate NoErrors(a: Action) { a.Push? ==> forall e | e in a.script :: !Refuses(e) }

  /** EAGAIN and partial writes never break the line. */
  lemma {:induction false} NeverBroken(l: Line, schedule: seq<Action>)
    requires !l.broken && forall i | 0 <= i < |schedule| :: NoErrors(schedule[i])
    ensures !After(l, schedule).broken
    decreases |schedule|
  {
    if schedule != [] {
      assert NoErrors(schedule[0]);
      if schedule[0].Push? {
        NoFailure(schedule[0].script, l.queue);
      }
      NeverBroken(Moved(l, schedule[0]), schedule[1..]);
    }
  }

  lemma {:induction false} AfterMore(l: Line, schedule: seq<Action>, more: seq<Action>)
    ensures After(l, schedule + more) == After(After(l, schedule), more)
    decreases |schedule|
  {
    if schedule == [] {
      assert schedule + more == more;
    } else {
      assert (schedule + more)[1..] == schedule[1..] + more;
      AfterMore(Moved(l, schedule[0]), schedule[1..], more);
    }
  }

  /** One flush with enough room and one read with enough room. */
  function Finishing(l: Line): seq<Action> {
    [Push(seq(|l.queue|, _ => Accepts(|Concat(l.queue)| + 1))), Arrive(|l.accepted| + |Concat(l.queue)|)]
  }

  lemma {:induction false} PieceFits(pieces: seq<bytes>, piece: bytes)
    requires piece in pieces
    ensures |piece| <= |Concat(pieces)|
    decreases |pieces|
  {
    if piece != pieces[0] {
      assert piece in pieces[1..];
      PieceFits(pieces[1..], piece);
    }
  }

  lemma AfterTwo(l: Line, a: Action, b: Action)
    ensures After(l, [a, b]) == Moved(Moved(l, a), b)
  {
    var m := Moved(l, a);
    assert [a, b][1..] == [b] && [b][1..] == [];
    assert After(m, [b]) == After(Moved(m, b), []);
  }

  lemma PushDrains(l: Line, script: seq<WriteEvent>)
    requires !l.broken && |script| == |l.queue| && forall e | e in script :: e == Accepts(|Concat(l.queue)| + 1)
    ensures var m := Moved(l, Push(script));
            !m.broken && m.queue == [] && |m.accepted| == |l.accepted| + |Concat(l.queue)| && m.arrived == l.arrived
  {
    forall b | b in l.queue ensures |b| <= |Concat(l.queue)| {
      PieceFits(l.queue, b);
    }
    FlushDrains(script, l.queue);
    FlushConserves(script, l.queue);
    var f := FlushQueue(script, l.queue);
    assert f.queue == [] && f.taken + [] == f.taken;
  }

  lemma FinishingCrosses(l: Line)
    requires !l.broken && l.arrived <= |l.accepted|
    ensures Crossed(After(l, Finishing(l)))
  {
    var steps := Finishing(l);
    PushDrains(l, steps[0].script);
    AfterTwo(l, steps[0], steps[1]);
  }

  /** Whatever partial writes and full sockets there have been, as long as no write has failed the line is
      not broken, and the messages can still all be delivered: one more flush and one more read do it. */
  lemma Completes(schedule: seq<Action>, max: nat)
    requires forall i | 0 <= i < |schedule| :: Sendable(schedule[i], max) && NoErrors(schedule[i])
    ensures var l := After(EMPTY, schedule);
            && !l.broken
            && var e := After(EMPTY, schedule + Finishing(l));
               Crossed(e) && Decode(e.accepted[..e.arrived], [], max).tasks == Messages(schedule)
  {
    var l := After(EMPTY, schedule);
    NeverBroken(EMPTY, schedule);
    AfterOk(EMPTY, schedule, max);
    FinishingCrosses(l);
    CompletesWith(schedule, Finishing(l), l, max);
  }

  lemma CompletesWith(schedule: seq<Action>, more: seq<Action>, l: Line, max: nat)
    requires forall i | 0 <= i < |schedule| :: Sendable(schedule[i], max)
    requires forall i | 0 <= i < |more| :: !more[i].Send?
    requires l == After(EMPTY, schedule) && Crossed(After(l, more))
    ensures var e := After(EMPTY, schedule + more);
            Crossed(e) && Decode(e.accepted[..e.arrived], [], max).tasks == Messages(schedule)
  {
    AfterMore(EMPTY, schedule, more);
    EndToEnd(schedule + more, max);
    MessagesMore(schedule, more);
  }

  lemma {:induction false} MessagesMore(schedule: seq<Action>, more: seq<Action>)
    requires forall i | 0 <= i < |more| :: !more[i].Send?
    ensures Messages(schedule + more) == Messages(schedule)
    decreases |schedule| + |more|
  {
    if schedule != [] {
      assert (schedule + more)[1..] == schedule[1..] + more;
      MessagesMore(schedule[1..], more);
    } else if more != [] {
      assert schedule + more == more && [] + more[1..] == more[1..];
      MessagesMore([], more[1..]);
      assert SentBy(more[0]) == [];
    }
  }

  lemma SliceAfter(s: bytes, k: nat, m: nat)
    requires k + m <= |s|
    ensures s[..k] + s[k..k + m] == s[..k + m]
  {
  }

  lemma ArrivalDecodes(l: Line, m: nat, max: nat)
    requires LineOk(l, max) && l.arrived + m <= |l.accepted|
    ensures l.accepted[..l.arrived] + l.accepted[l.arrived..l.arrived + m] == l.accepted[..l.arrived + m]
    ensures Decode(l.accepted[..l.arrived] + l.accepted[l.arrived..l.arrived + m], [], max).verdict.More?
  {
    SliceAfter(l.accepted, l.arrived, m);
    LineDelivers(l, l.arrived + m, max);
  }

  lemma Arrives(l: Line, n: nat, m: nat, max: nat)
    requires LineOk(l, max) && m == Min(n, |l.accepted| - l.arrived)
    ensures LineOk(Moved(l, Arrive(n)), max) && Moved(l, Arrive(n)) == l.(arrived := l.arrived + m)
    ensures l.accepted[..l.arrived] + l.accepted[l.arrived..l.arrived + m] == l.accepted[..l.arrived + m]
    ensures Decode(l.accepted[..l.arrived] + l.accepted[l.arrived..l.arrived + m], [], max).verdict.More?
  {
    MovedOk(l, Arrive(n), max);
    ArrivalDecodes(l, m, max);
  }

  // ---- The line over real endpoints --------------------------------------------------------

  /** A sending and a receiving endpoint with a wire between them. */
  class Link {
    const max: nat
    const sender: Connection
    const receiver: WebSocket
    /** How many of the bytes accepted by the sender's socket have reached the receiver. */
    var arrived: nat
    /** A write has failed, and the sending connection has been reset. */
    var broken: bool
    ghost var sent: seq<Task>

    ghost function View(): Line
      reads this`arrived, this`broken, this`sent, sender`queue, sender.sock`accepted
    {
      Line(sender.queue, sender.sock.accepted, arrived, broken, sent)
    }

    ghost predicate Valid()
      reads this, sender, sender.sock, sender.write_buffer_chain, receiver
    {
      && SenderOk()
      && LineOk(View(), max) && ReceiverOk()
    }

    /** The receiver is where the bytes that arrived take it. */
    ghost predicate ReceiverOk()
      reads this`arrived, sender.sock`accepted, receiver
    {
      && arrived <= |sender.sock.accepted| && receiver.max_buffer_size == max
      && Decode(sender.sock.accepted[..arrived], [], max) ==
           Decoded(More, receiver.tasks, receiver.rbuf, receiver.cache_str)
    }

    constructor (max: nat)
      ensures Valid() && this.max == max && View() == EMPTY
      ensures fresh(sender) && fresh(sender.sock) && fresh(receiver) && sender.write_buffer_chain == []
    {
      this.max := max;
      sender := new Connection(1);
      var away := new Connection(1);
      var w := new WebSocket(away);
      w.max_buffer_size := max;
      receiver := w;
      arrived, broken, sent := 0, false, [];
      new;
      DecodeUnroll([], [], max, []);
    }

    /** Queue a framed message. */
    method Enqueue(opcode: byte, msg: bytes)
      requires SenderOk() && Sendable(Action.Send(opcode, msg), max)
      modifies this`sent, sender`write_buffer_chain, sender`queue
      ensures SenderOk() && View() == Moved(old(View()), Action.Send(opcode, msg))
      ensures old(sender.write_buffer_chain) <= sender.write_buffer_chain
      ensures fresh(set b | b in sender.write_buffer_chain && b !in old(sender.write_buffer_chain))
    {
      var frame := MakeFrame([], msg, opcode);
      assert frame == Wire(Task(opcode, msg));
      sender.WriteData(frame);
      if !broken {
        sent := sent + [Task(opcode, msg)];
      }
    }

    /** Frame a message and queue it. */
    method Send(opcode: byte, msg: bytes)
      requires Valid() && Sendable(Action.Send(opcode, msg), max)
      modifies this`sent, sender`write_buffer_chain, sender`queue
      ensures Valid() && View() == Moved(old(View()), Action.Send(opcode, msg))
      ensures old(sender.write_buffer_chain) <= sender.write_buffer_chain
      ensures fresh(set b | b in sender.write_buffer_chain && b !in old(sender.write_buffer_chain))
    {
      MovedOk(View(), Action.Send(opcode, msg), max);
      Enqueue(opcode, msg);
    }

    ghost predicate SenderOk()
      reads this`broken, sender, sender.write_buffer_chain
    {
      sender.Valid() && (if broken then sender.fd < 0 && sender.queue == [] else sender.fd > 0)
    }

    /** One flush while the socket answers with `script`. The event loop resets a failed connection. */
    method FlushSender(script: seq<WriteEvent>)
      requires SenderOk()
      modifies this`broken, sender, sender.write_buffer_chain, sender.sock
      ensures SenderOk() && View() == Moved(old(View()), Action.Push(script))
      ensures forall b | b in sender.write_buffer_chain :: b in old(sender.write_buffer_chain)
    {
      sender.sock.outbound := script;
      var status := sender.Flush();
      if !broken && status == ERROR {
        sender.Reset();
        broken := true;
      }
    }

    method Push(script: seq<WriteEvent>)
      requires Valid()
      modifies this`broken, sender, sender.write_buffer_chain, sender.sock
      ensures Valid() && View() == Moved(old(View()), Action.Push(script))
      ensures forall b | b in sender.write_buffer_chain :: b in old(sender.write_buffer_chain)
    {
      MovedOk(View(), Action.Push(script), max);
      ghost var accepted := sender.sock.accepted;
      FlushSender(script);
      assert sender.sock.accepted[..arrived] == accepted[..arrived];
    }

    /** The receiver reads `chunk`, after it has read `crossed`. */
    method Deliver(chunk: bytes, ghost crossed: bytes) returns (verdict: Verdict)
      requires receiver.max_buffer_size == max && Decode(crossed + chunk, [], max).verdict.More?
      requires Decode(crossed, [], max) == Decoded(More, receiver.tasks, receiver.rbuf, receiver.cache_str)
      modifies receiver
      ensures verdict.More? && receiver.max_buffer_size == max
      ensures Decode(crossed + chunk, [], max) == Decoded(More, receiver.tasks, receiver.rbuf, receiver.cache_str)
    {
      DecodeMore(crossed, chunk, max);
      receiver.rbuf := receiver.rbuf + chunk;
      verdict := receiver.Parse();
    }

    /** Up to `n` more bytes reach the receiver in one read. */
    method Arrive(n: nat) returns (verdict: Verdict)
      requires Valid()
      modifies this`arrived, receiver
      ensures Valid() && verdict.More? && View() == Moved(old(View()), Action.Arrive(n))
    {
      var m := Min(n, |sender.sock.accepted| - arrived);
      ghost var l := View();
      Arrives(l, n, m, max);
      verdict := Deliver(sender.sock.accepted[arrived..arrived + m], sender.sock.accepted[..arrived]);
      assert View() == l && SenderOk();
      Count(m);
    }

    method Count(m: nat)
      requires SenderOk() && LineOk(View().(arrived := arrived + m), max)
      requires arrived + m <= |sender.sock.accepted| && receiver.max_buffer_size == max
      requires Decode(sender.sock.accepted[..arrived + m], [], max) ==
               Decoded(More, receiver.tasks, receiver.rbuf, receiver.cache_str)
      modifies this`arrived
      ensures Valid() && View() == old(View()).(arrived := old(arrived) + m)
    {
      arrived := arrived + m;
    }

    /** Everything a step may touch. */
    ghost function Repr(): set<object>
      reads this, sender
    {
      {this, sender, sender.sock, receiver} + set b: object | b in sender.write_buffer_chain
    }

    method Step(a: Action)
      requires Valid() && Sendable(a, max)
      modifies Repr()
      ensures Valid() && fresh(Repr() - old(Repr())) && View() == Moved(old(View()), a)
    {
      match a
      case Send(opcode, msg) => Send(opcode, msg);
      case Push(script) => Push(script);
      case Arrive(n) => var _ := Arrive(n);
    }

    /** What the receiver has been given, and whether all bytes sent have crossed. */
    method Outcome() returns (delivered: seq<Task>, crossed: bool)
      requires Valid()
      ensures delivered == Decode(View().accepted[..arrived], [], max).tasks && crossed == Crossed(View())
    {
      delivered := receiver.tasks;
      crossed := !broken && sender.write_buffer_chain == [] && arrived == |sender.sock.accepted|;
    }
  }

  /** Drive real endpoints through a schedule. */
  method Drive(schedule: seq<Action>, max: nat) returns (delivered: seq<Task>, crossed: bool)
    requires forall i | 0 <= i < |schedule| :: Sendable(schedule[i], max)
    ensures var l := After(EMPTY, schedule);
            && l.arrived <= |l.accepted| && crossed == Crossed(l)
            && delivered == Decode(l.accepted[..l.arrived], [], max).tasks
  {
    var link := new Link(max);
    var i := 0;
    assert schedule[0..] == schedule;
    while i < |schedule|
      invariant 0 <= i <= |schedule| && link.max == max && link.Valid() && fresh(link.Repr())
      invariant After(link.View(), schedule[i..]) == After(EMPTY, schedule)
    {
      assert schedule[i..][1..] == schedule[i + 1..];
      link.Step(schedule[i]);
      i := i + 1;
    }
    delivered, crossed := link.Outcome();
  }

  /** What such a run delivers is always a prefix of what it sent, and everything once all bytes have crossed. */
  method Run(schedule: seq<Action>, max: nat) returns (delivered: seq<Task>, crossed: bool)
    requires forall i | 0 <= i < |schedule| :: Sendable(schedule[i], max)
    ensures crossed == Crossed(After(EMPTY, schedule))
    ensures delivered <= Messages(schedule)
    ensures crossed ==> delivered == Messages(schedule)
  {
    EndToEnd(schedule, max);
    delivered, crossed := Drive(schedule, max);
  }
}
