/** RFC 6455 frames as byte strings: the general frame printer, the frames that `MakeFrame` prints,
    and a recursive decoder of whole streams that is the specification of the incremental parser. */
module WebSocketFrame {
  import opened Bytes

  const CONTINUATION: byte := 0x0
  const TEXT_FRAME: byte := 0x1
  const BINARY_FRAME: byte := 0x2
  const CLOSE: byte := 0x8
  const PING: byte := 0x9
  const PONG: byte := 0xa

  predicate IsData(opcode: byte) { opcode == CONTINUATION || opcode == TEXT_FRAME || opcode == BINARY_FRAME }

  /** What `WebSocketTaskPush` puts on the WebSocket task queue. */
  datatype Task = Task(opcode: byte, msg: bytes)

  /** `More`: wait for further bytes. `Rejected`: cache limit exceeded. `Overflowed`: a declared length is
      so large that the 64-bit size sums of the source wrap, and what it does next is undefined. */
  datatype Verdict = More | Rejected | Overflowed

  // ---- Lengths in network byte order -------------------------------------------------------

  lemma TwoDigits(n: nat)
    requires n < 0x1_0000
    ensures Digits(n, 2) == [(n / 0x100 % 0x100), (n % 0x100)]
  {
  }

  lemma TwoMoreDigits(n: nat, k: nat)
    requires k >= 2
    ensures Digits(n, k) == Digits(n / 0x1_0000, k - 2) + [(n / 0x100 % 0x100), (n % 0x100)]
  {
    assert n / 0x100 / 0x100 == n / 0x1_0000;
    var s := Digits(n / 0x1_0000, k - 2);
    assert Digits(n / 0x100, k - 1) == s + [(n / 0x100 % 0x100)];
  }

  lemma Quotients(n: nat)
    ensures n / 0x1_0000 / 0x100 == n / 0x100_0000
    ensures n / 0x1_0000 / 0x1_0000 == n / 0x1_0000_0000
    ensures n / 0x1_0000_0000 / 0x100 == n / 0x100_0000_0000
    ensures n / 0x1_0000_0000 / 0x1_0000 == n / 0x1_0000_0000_0000
    ensures n / 0x1_0000_0000_0000 / 0x100 == n / 0x100_0000_0000_0000
  {
  }

  lemma EightDigits(n: nat)
    ensures Digits(n, 8) ==
              [(n / 0x100_0000_0000_0000 % 0x100), (n / 0x1_0000_0000_0000 % 0x100)] +
              [(n / 0x100_0000_0000 % 0x100), (n / 0x1_0000_0000 % 0x100)] +
              [(n / 0x100_0000 % 0x100), (n / 0x1_0000 % 0x100)] +
              [(n / 0x100 % 0x100), (n % 0x100)]
  {
    Quotients(n);
    TwoMoreDigits(n, 8);
    TwoMoreDigits(n / 0x1_0000, 6);
    TwoMoreDigits(n / 0x1_0000_0000, 4);
    TwoMoreDigits(n / 0x1_0000_0000_0000, 2);
    var s := [(n / 0x100_0000_0000_0000 % 0x100), (n / 0x1_0000_0000_0000 % 0x100)];
    assert Digits(n / 0x1_0000_0000_0000 / 0x1_0000, 0) == [];
    assert [] + s == s;
  }

  lemma NumberOfTwo(s: bytes)
    requires |s| == 2
    ensures Number(s) == s[0] as int * 0x100 + s[1]
  {
    assert s[..1][..0] == [] && Number(s[..1]) == s[0];
  }

  lemma TwoMoreBytes(s: bytes)
    requires |s| >= 2
    ensures Number(s) == Number(s[..|s| - 2]) * 0x1_0000 + s[|s| - 2] as int * 0x100 + s[|s| - 1]
  {
    var t := s[..|s| - 1];
    assert t[..|t| - 1] == s[..|s| - 2];
  }

  lemma NumberOfEight(s: bytes)
    requires |s| == 8
    ensures Number(s) ==
              s[0] as int * 0x100_0000_0000_0000 + s[1] as int * 0x1_0000_0000_0000 +
              s[2] as int * 0x100_0000_0000 + s[3] as int * 0x1_0000_0000 +
              s[4] as int * 0x100_0000 + s[5] as int * 0x1_0000 + s[6] as int * 0x100 + s[7]
  {
    TwoMoreBytes(s);
    TwoMoreBytes(s[..6]);
    TwoMoreBytes(s[..4]);
    NumberOfTwo(s[..2]);
    assert s[..6][..4] == s[..4] && s[..4][..2] == s[..2];
  }

  // ---- Frames ------------------------------------------------------------------------------

  /** XOR of a payload with the repeated four-byte masking key. */
  function Mask(payload: bytes, key: bytes): (r: bytes)
    requires |key| == 4
    ensures |r| == |payload|
  {
    seq(|payload|, i requires 0 <= i < |payload| => Xor(payload[i], key[i % 4]))
  }

  lemma MaskTwice(payload: bytes, key: bytes)
    requires |key| == 4
    ensures Mask(Mask(payload, key), key) == payload
  {
    var m := Mask(Mask(payload, key), key);
    forall i | 0 <= i < |payload| ensures m[i] == payload[i] {
      XorTwice(payload[i], key[i % 4]);
    }
  }

  /** Bytes of extended length that follow the second header byte. */
  datatype LengthForm = Short | Medium | Long

  function Extended(form: LengthForm): nat { match form case Short => 0 case Medium => 2 case Long => 8 }

  predicate Fits(form: LengthForm, n: nat) {
    match form case Short => n < 126 case Medium => n < 0x1_0000 case Long => n < TWO_63
  }

  function Minimal(n: nat): LengthForm { if n < 126 then Short else if n < 0x1_0000 then Medium else Long }

  function Len0(form: LengthForm, n: nat): byte
    requires Fits(form, n)
  {
    match form case Short => n case Medium => 126 case Long => 127
  }

  /** One frame of section 5.2 of RFC 6455; `key` is empty for an unmasked frame. */
  datatype Frame = Frame(fin: bool, opcode: byte, form: LengthForm, key: bytes, payload: bytes) {
    predicate Printable() { Fits(form, |payload|) && (|key| == 0 || |key| == 4) }

    predicate Valid() { Printable() && opcode <= 0x0f }

    function FirstByte(): byte { (if fin && opcode < 0x80 then 0x80 else 0) + opcode }

    function SecondByte(): byte
      requires Printable()
    {
      (if key == [] then 0 else 0x80) + Len0(form, |payload|)
    }

    function Print(): (s: bytes)
      requires Printable()
      ensures |s| == 2 + Extended(form) + |key| + |payload|
    {
      [FirstByte(), SecondByte()] + Digits(|payload|, Extended(form)) + key +
      (if key == [] then payload else Mask(payload, key))
    }
  }

  /** The frames the server prints: final, unmasked, with the shortest length form. */
  function ServerFrame(opcode: byte, message: bytes): Frame {
    Frame(true, opcode, Minimal(|message|), [], message)
  }

  // ---- Decoding one frame ------------------------------------------------------------------

  function FormOf(len0: byte): LengthForm {
    if len0 == 126 then Medium else if len0 == 127 then Long else Short
  }

  /** A complete frame header: `size` bytes, announcing `length` bytes of payload. */
  datatype Header = Partial | Header(fin: bool, opcode: byte, key: bytes, size: nat, length: nat)

  function HeaderOf(buf: bytes): (h: Header)
    ensures h.Header? ==> 2 <= h.size <= |buf| && (|h.key| == 0 || |h.key| == 4)
  {
    if |buf| < 2 then Partial
    else
      var form := FormOf(buf[1] % 0x80);
      var masked := buf[1] >= 0x80;
      var size := 2 + Extended(form) + if masked then 4 else 0;
      if |buf| < size then Partial
      else
        Header(buf[0] >= 0x80, buf[0] % 0x10, if masked then buf[size - 4..size] else [], size,
               if form.Short? then (buf[1] % 0x80) else Number(buf[2..2 + Extended(form)]))
  }

  /** The unmasked payload behind header `h`. */
  function Payload(buf: bytes, h: Header): (p: bytes)
    requires h.Header? && (|h.key| == 0 || |h.key| == 4) && h.size + h.length <= |buf|
    ensures |p| == h.length
  {
    var raw := buf[h.size..h.size + h.length];
    if h.key == [] then raw else Mask(raw, h.key)
  }

  // ---- Decoding a stream -------------------------------------------------------------------

  /** One round of the parser on a buffer and a fragment cache. */
  datatype Step = Wait | Stop(verdict: Verdict) | Take(size: nat, tasks: seq<Task>, cache: bytes)

  /** Task pushed, if any, and fragment cache left by a frame that completes the cache `cache`.
      PONG, CLOSE and unknown opcodes push the cache and keep it. */
  function Dispatch(size: nat, fin: bool, opcode: byte, cache: bytes): (step: Step)
    ensures step.Take? && step.size == size
  {
    if IsData(opcode) then (if fin then Take(size, [Task(opcode, cache)], []) else Take(size, [], cache))
    else if opcode == PING then Take(size, [Task(PING, cache)], [])
    else if opcode == PONG then Take(size, [Task(PONG, cache)], cache)
    else Take(size, [Task(CLOSE, cache)], cache)
  }

  function StepAt(buf: bytes, cache: bytes, max: nat): Step {
    var h := HeaderOf(buf);
    if h.Partial? || |buf| < Wrap64(h.size + h.length) then Wait
    else if Wrap64(|cache| + h.length) > max then Stop(Rejected)
    else if h.size + h.length >= TWO_64 || |cache| + h.length >= TWO_64 then Stop(Overflowed)
    else Dispatch(h.size + h.length, h.fin, h.opcode, cache + Payload(buf, h))
  }

  type Stepper = (bytes, bytes) -> Step

  /** `step` is `StepAt` for a fixed buffer limit. Proofs look inside it only where they mention `StepAt`. */
  ghost predicate Follows(step: Stepper, max: nat) {
    forall buf, cache {:trigger StepAt(buf, cache, max)} :: step(buf, cache) == StepAt(buf, cache, max)
  }

  ghost function FrameStepper(max: nat): (step: Stepper)
    ensures Follows(step, max)
  {
    var literal: Stepper := (buf, cache) => StepAt(buf, cache, max);
    assert Follows(literal, max);
    var step :| Follows(step, max);
    step
  }

  /** Steps consume at least one byte of the buffer and stop for a reason. */
  ghost predicate Progresses(step: Stepper) {
    && (forall a, c :: step(a, c).Take? ==> 0 < step(a, c).size <= |a|)
    && (forall a, c :: step(a, c).Stop? ==> step(a, c).verdict != More)
  }

  /** Bytes that arrive later do not change a step that is already decided. */
  ghost predicate Stable(step: Stepper) {
    forall a, b, c :: step(a, c) != Wait ==> step(a + b, c) == step(a, c)
  }

  ghost predicate Bounded(step: Stepper, max: nat) {
    forall a, c :: |c| <= max && step(a, c).Take? ==>
      |step(a, c).cache| <= max && forall t <- step(a, c).tasks :: |t.msg| <= max
  }

  datatype Decoded = Decoded(verdict: Verdict, tasks: seq<Task>, rest: bytes, cache: bytes)

  function DecodeBy(step: Stepper, buf: bytes, cache: bytes): (d: Decoded)
    requires Progresses(step)
    decreases |buf|
  {
    match step(buf, cache)
    case Wait => Decoded(More, [], buf, cache)
    case Stop(verdict) => Decoded(verdict, [], buf, cache)
    case Take(size, tasks, cache') =>
      var d := DecodeBy(step, buf[size..], cache');
      d.(tasks := tasks + d.tasks)
  }

  /** The recursive decoder: what a whole stream means to a receiver with buffer limit `max`. */
  ghost function Decode(buf: bytes, cache: bytes, max: nat): Decoded {
    StepperProgresses(max);
    DecodeBy(FrameStepper(max), buf, cache)
  }

  lemma StepperProgresses(max: nat)
    ensures Progresses(FrameStepper(max))
  {
    forall a, c
      ensures FrameStepper(max)(a, c).Take? ==> 0 < FrameStepper(max)(a, c).size <= |a|
      ensures FrameStepper(max)(a, c).Stop? ==> FrameStepper(max)(a, c).verdict != More
    {
      assert FrameStepper(max)(a, c) == StepAt(a, c, max);
    }
  }

  lemma StepBounded(buf: bytes, cache: bytes, max: nat)
    requires |cache| <= max && StepAt(buf, cache, max).Take?
    ensures |StepAt(buf, cache, max).cache| <= max
    ensures forall t <- StepAt(buf, cache, max).tasks :: |t.msg| <= max
  {
    var h := HeaderOf(buf);
    assert |cache + Payload(buf, h)| <= max;
  }

  lemma StepperBounded(max: nat)
    ensures Bounded(FrameStepper(max), max)
  {
    forall a, c | |c| <= max && FrameStepper(max)(a, c).Take?
      ensures |FrameStepper(max)(a, c).cache| <= max
      ensures forall t <- FrameStepper(max)(a, c).tasks :: |t.msg| <= max
    {
      assert FrameStepper(max)(a, c) == StepAt(a, c, max);
      StepBounded(a, c, max);
    }
  }

  lemma HeaderStable(a: bytes, b: bytes)
    requires HeaderOf(a).Header?
    ensures HeaderOf(a + b) == HeaderOf(a)
  {
    assert (a + b)[0] == a[0] && (a + b)[1] == a[1];
    var h, x := HeaderOf(a), Extended(FormOf(a[1] % 0x80));
    SliceOfPrefix(a, b, 2, 2 + x);
    if h.key != [] {
      SliceOfPrefix(a, b, h.size - 4, h.size);
    }
  }

  lemma StepStable(a: bytes, b: bytes, cache: bytes, max: nat)
    requires StepAt(a, cache, max) != Wait
    ensures StepAt(a + b, cache, max) == StepAt(a, cache, max)
  {
    var h := HeaderOf(a);
    HeaderStable(a, b);
    if h.size + h.length <= |a| {
      PayloadStable(a, b, h);
    }
  }

  lemma PayloadStable(a: bytes, b: bytes, h: Header)
    requires h.Header? && (|h.key| == 0 || |h.key| == 4) && h.size + h.length <= |a|
    ensures Payload(a + b, h) == Payload(a, h)
  {
    SliceOfPrefix(a, b, h.size, h.size + h.length);
  }

  lemma StepperStable(max: nat)
    ensures Stable(FrameStepper(max))
  {
    forall a, b, c | FrameStepper(max)(a, c) != Wait
      ensures FrameStepper(max)(a + b, c) == FrameStepper(max)(a, c)
    {
      StepStable(a, b, c, max);
    }
  }

  lemma {:induction false} DecodeByAppend(step: Stepper, a: bytes, b: bytes, cache: bytes)
    requires Progresses(step) && Stable(step)
    ensures var d := DecodeBy(step, a, cache);
            DecodeBy(step, a + b, cache) ==
              if d.verdict.More? then
                var e := DecodeBy(step, d.rest + b, d.cache);
                e.(tasks := d.tasks + e.tasks)
              else d.(rest := d.rest + b)
    decreases |a|
  {
    var s := step(a, cache);
    if s.Wait? {
      var e := DecodeBy(step, a + b, cache);
      assert [] + e.tasks == e.tasks;
    } else if s.Take? {
      assert step(a + b, cache) == s;
      assert (a + b)[s.size..] == a[s.size..] + b;
      DecodeByAppend(step, a[s.size..], b, s.cache);
      var d := DecodeBy(step, a[s.size..], s.cache);
      if d.verdict.More? {
        Associate(s.tasks, d.tasks, DecodeBy(step, d.rest + b, d.cache).tasks);
      }
    }
  }

  /** Decoding is resumable: decoding `a`, then the rest followed by `b`, is decoding `a + b`. */
  lemma DecodeAppend(a: bytes, b: bytes, cache: bytes, max: nat)
    ensures var d := Decode(a, cache, max);
            Decode(a + b, cache, max) ==
              if d.verdict.More? then
                var e := Decode(d.rest + b, d.cache, max);
                e.(tasks := d.tasks + e.tasks)
              else d.(rest := d.rest + b)
  {
    StepperProgresses(max);
    StepperStable(max);
    DecodeByAppend(FrameStepper(max), a, b, cache);
  }

  lemma {:induction false} DecodeByBounds(step: Stepper, buf: bytes, cache: bytes, max: nat)
    requires Progresses(step) && Bounded(step, max) && |cache| <= max
    ensures var d := DecodeBy(step, buf, cache);
            && |d.rest| <= |buf| && d.rest == buf[|buf| - |d.rest|..]
            && |d.cache| <= max
            && (forall t <- d.tasks :: |t.msg| <= max)
    decreases |buf|
  {
    var s := step(buf, cache);
    if s.Take? {
      DecodeByBounds(step, buf[s.size..], s.cache, max);
      var rest := DecodeBy(step, buf[s.size..], s.cache).rest;
      assert buf[s.size..][|buf| - s.size - |rest|..] == buf[|buf| - |rest|..];
    }
  }

  /** The undecoded rest is a literal suffix of the input, so no byte is unmasked before its frame is
      complete or twice; the cache never exceeds the limit, and neither does any delivered message. */
  lemma DecodeBounds(buf: bytes, cache: bytes, max: nat)
    requires |cache| <= max
    ensures var d := Decode(buf, cache, max);
            && |d.rest| <= |buf| && d.rest == buf[|buf| - |d.rest|..]
            && |d.cache| <= max
            && (forall t <- d.tasks :: |t.msg| <= max)
  {
    StepperProgresses(max);
    StepperBounded(max);
    DecodeByBounds(FrameStepper(max), buf, cache, max);
  }

  lemma LengthBelow64(buf: bytes)
    requires HeaderOf(buf).Header?
    ensures HeaderOf(buf).length < TWO_64
  {
    var form := FormOf(buf[1] % 0x80);
    Capacities();
    DigitsOfNumber(buf[2..2 + Extended(form)]);
  }

  /** A frame gets past both size checks and off the buffer if and only if the 64-bit sum of its header and its
      declared length wraps, and that of the cache and the declared length, wrapped or not, is within the limit.
      (No vector or string reaches 2^63 elements.) */
  lemma OverflowsIff(buf: bytes, cache: bytes, max: nat)
    requires |cache| < TWO_63 && |buf| < TWO_63
    ensures var h := HeaderOf(buf);
            StepAt(buf, cache, max) == Stop(Overflowed) <==>
              && h.Header? && h.size + h.length >= TWO_64
              && (|cache| + h.length <= max || TWO_64 <= |cache| + h.length <= TWO_64 + max)
  {
    var h := HeaderOf(buf);
    if h.Header? {
      LengthBelow64(buf);
      WrapsOnce(h.size + h.length);
      WrapsOnce(|cache| + h.length);
    }
  }

  lemma WrapsOnce(n: nat)
    requires n < 2 * TWO_64
    ensures Wrap64(n) == if n < TWO_64 then n else n - TWO_64
  {
  }

  /** A masked frame of which only the header is sent. It declares 2^64 - 256 + `last` bytes. */
  function HugeFrame(last: byte): bytes {
    [0x80, 0xff] + ([0xff, 0xff, 0xff, 0xff, 0xff, 0xff, 0xff, last] + [0, 0, 0, 0])
  }

  lemma HugeHeader(last: byte)
    ensures HeaderOf(HugeFrame(last)) == Header(true, CONTINUATION, [0, 0, 0, 0], 14, TWO_64 - 0x100 + last)
  {
    var digits: bytes := [0xff, 0xff, 0xff, 0xff, 0xff, 0xff, 0xff, last];
    assert HugeFrame(last)[2..10] == digits && HugeFrame(last)[10..14] == [0, 0, 0, 0];
    NumberOfEight(digits);
  }

  /** When a frame can overflow at all: if there are fragments in the cache (and the limit has not been set far
      below them since), or if the limit is 2^64 - 14 or more. */
  lemma CanOverflowIff(cache: bytes, max: nat)
    requires |cache| < TWO_63
    ensures (exists buf: bytes :: |buf| < TWO_63 && StepAt(buf, cache, max) == Stop(Overflowed)) <==>
              (cache != [] && |cache| <= max + 14) || max >= TWO_64 - 14
  {
    if (cache != [] && |cache| <= max + 14) || max >= TWO_64 - 14 {
      var last: byte := if 0 < |cache| < 14 then 0x100 - |cache| else 0xf2;
      HugeHeader(last);
      OverflowsIff(HugeFrame(last), cache, max);
    } else {
      forall buf: bytes | |buf| < TWO_63 ensures StepAt(buf, cache, max) != Stop(Overflowed) {
        OverflowsIff(buf, cache, max);
        if HeaderOf(buf).Header? {
          LengthBelow64(buf);
        }
      }
    }
  }

  /** Without fragments in the cache no frame overflows, unless there is in effect no limit. */
  lemma EmptyCacheNeverOverflows(buf: bytes, max: nat)
    requires max < TWO_64 - 14 && |buf| < TWO_63
    ensures StepAt(buf, [], max) != Stop(Overflowed)
  {
    CanOverflowIff([], max);
  }

  /** At the default limit, a frame that declares 2^64 - 1 bytes overflows behind a fragment of one byte. */
  lemma OverflowExample()
    ensures var f := Frame(false, TEXT_FRAME, Short, [], [0x61]);
            Decode(f.Print() + HugeFrame(0xff), [], 8192).verdict == Overflowed
  {
    var f := Frame(false, TEXT_FRAME, Short, [], [0x61]);
    var stream := f.Print() + HugeFrame(0xff);
    FrameRoundTrip(f, HugeFrame(0xff), [], 8192);
    DecodeUnroll(stream, [], 8192, []);
    assert [] + f.payload == [0x61] && stream[|f.Print()|..] == HugeFrame(0xff);
    HugeHeader(0xff);
    OverflowsIff(HugeFrame(0xff), [0x61], 8192);
    DecodeUnroll(HugeFrame(0xff), [0x61], 8192, []);
  }

  /** Without a limit, a frame that declares 2^64 - 14 bytes overflows by itself. */
  lemma NoLimitExample()
    ensures Decode(HugeFrame(0xf2), [], TWO_64 - 1).verdict == Overflowed
  {
    HugeHeader(0xf2);
    OverflowsIff(HugeFrame(0xf2), [], TWO_64 - 1);
    DecodeUnroll(HugeFrame(0xf2), [], TWO_64 - 1, []);
  }

  lemma DecodeUnroll(buf: bytes, cache: bytes, max: nat, pushed: seq<Task>)
    ensures var s, d := StepAt(buf, cache, max), Decode(buf, cache, max);
            match s
            case Wait => d == Decoded(More, [], buf, cache)
            case Stop(verdict) => d == Decoded(verdict, [], buf, cache)
            case Take(size, tasks, cache') =>
              0 < size <= |buf| &&
              var e := Decode(buf[size..], cache', max);
              d == e.(tasks := tasks + e.tasks) && pushed + d.tasks == pushed + tasks + e.tasks
  {
    var s := FrameStepper(max)(buf, cache);
    StepperProgresses(max);
    if s.Take? {
      Associate(pushed, s.tasks, Decode(buf[s.size..], s.cache, max).tasks);
    }
  }

  lemma {:induction false} DecodeByLeavesWaiting(step: Stepper, buf: bytes, cache: bytes)
    requires Progresses(step)
    ensures var d := DecodeBy(step, buf, cache); d.verdict.More? ==> step(d.rest, d.cache) == Wait
    decreases |buf|
  {
    var s := step(buf, cache);
    if s.Take? {
      DecodeByLeavesWaiting(step, buf[s.size..], s.cache);
    }
  }

  lemma DecodeLeavesWaiting(buf: bytes, cache: bytes, max: nat)
    ensures var d := Decode(buf, cache, max); d.verdict.More? ==> StepAt(d.rest, d.cache, max) == Wait
  {
    StepperProgresses(max);
    DecodeByLeavesWaiting(FrameStepper(max), buf, cache);
  }

  // ---- Receivers fed in chunks -------------------------------------------------------------

  /** A receiver's state between two calls of `Parse`. */
  datatype Receiver = Receiver(verdict: Verdict, tasks: seq<Task>, rbuf: bytes, cache: bytes)

  /** One read followed by one `Parse`; after a refusal the connection is gone and nothing is read. */
  ghost function Feed(r: Receiver, chunk: bytes, max: nat): Receiver {
    if !r.verdict.More? then r
    else
      var d := Decode(r.rbuf + chunk, r.cache, max);
      Receiver(d.verdict, r.tasks + d.tasks, d.rest, d.cache)
  }

  ghost function FeedAll(r: Receiver, chunks: seq<bytes>, max: nat): Receiver
    decreases |chunks|
  {
    if chunks == [] then r else FeedAll(Feed(r, chunks[0], max), chunks[1..], max)
  }

  /** Chunking is invisible: however a stream is cut into reads, the tasks, the verdict, the fragment cache
      and, while more is expected, the unparsed rest are those of the stream in one piece. */
  lemma {:induction false} ChunkingInvisible(r: Receiver, chunks: seq<bytes>, max: nat)
    requires r.verdict.More? && StepAt(r.rbuf, r.cache, max) == Wait
    ensures var a, b := FeedAll(r, chunks, max), Feed(r, Concat(chunks), max);
            && a.verdict == b.verdict && a.tasks == b.tasks && a.cache == b.cache
            && (a.verdict.More? ==> a.rbuf == b.rbuf && StepAt(a.rbuf, a.cache, max) == Wait)
            && (!a.verdict.More? ==> a.rbuf <= b.rbuf)
    decreases |chunks|
  {
    if chunks == [] {
      DecodeUnroll(r.rbuf, r.cache, max, []);
      assert r.rbuf + [] == r.rbuf && r.tasks + [] == r.tasks;
    } else {
      var c, later := chunks[0], Concat(chunks[1..]);
      var r1 := Feed(r, c, max);
      Associate(r.rbuf, c, later);
      DecodeAppend(r.rbuf + c, later, r.cache, max);
      DecodeLeavesWaiting(r.rbuf + c, r.cache, max);
      if r1.verdict.More? {
        ChunkingInvisible(r1, chunks[1..], max);
        var d := Decode(r.rbuf + c, r.cache, max);
        Associate(r.tasks, d.tasks, Decode(d.rest + later, d.cache, max).tasks);
      } else {
        FeedStopped(r1, chunks[1..], max);
      }
    }
  }

  lemma {:induction false} FeedStopped(r: Receiver, chunks: seq<bytes>, max: nat)
    requires !r.verdict.More?
    ensures FeedAll(r, chunks, max) == r
    decreases |chunks|
  {
    if chunks != [] {
      FeedStopped(r, chunks[1..], max);
    }
  }

  // ---- Round trips -------------------------------------------------------------------------

  lemma LengthRoundTrip(f: Frame, tail: bytes)
    requires f.Valid() && !f.form.Short?
    ensures Number((f.Print() + tail)[2..2 + Extended(f.form)]) == |f.payload|
  {
    var x := Extended(f.form);
    assert (f.Print() + tail)[2..2 + x] == Digits(|f.payload|, x);
    Capacities();
    NumberOfDigits(|f.payload|, x);
  }

  lemma KeyRoundTrip(f: Frame, tail: bytes)
    requires f.Valid()
    ensures (f.Print() + tail)[2 + Extended(f.form)..2 + Extended(f.form) + |f.key|] == f.key
  {
  }

  lemma FirstTwo(f: Frame, tail: bytes)
    requires f.Printable()
    ensures (f.Print() + tail)[0] == f.FirstByte() && (f.Print() + tail)[1] == f.SecondByte()
  {
  }

  lemma FieldsOfFirstTwo(f: Frame)
    requires f.Valid()
    ensures f.FirstByte() >= 0x80 <==> f.fin
    ensures f.FirstByte() % 0x10 == f.opcode
    ensures f.SecondByte() >= 0x80 <==> f.key != []
    ensures f.SecondByte() % 0x80 == Len0(f.form, |f.payload|)
  {
  }

  lemma HeaderFromParts(f: Frame, buf: bytes)
    requires f.Valid() && |buf| >= 2 + Extended(f.form) + |f.key|
    requires buf[0] >= 0x80 <==> f.fin
    requires buf[1] >= 0x80 <==> f.key != []
    requires buf[0] % 0x10 == f.opcode && buf[1] % 0x80 == Len0(f.form, |f.payload|)
    requires buf[2 + Extended(f.form)..2 + Extended(f.form) + |f.key|] == f.key
    requires !f.form.Short? ==> Number(buf[2..2 + Extended(f.form)]) == |f.payload|
    ensures HeaderOf(buf) == Header(f.fin, f.opcode, f.key, 2 + Extended(f.form) + |f.key|, |f.payload|)
  {
    assert FormOf(buf[1] % 0x80) == f.form;
  }

  lemma HeaderRoundTrip(f: Frame, tail: bytes)
    requires f.Valid()
    ensures HeaderOf(f.Print() + tail) ==
              Header(f.fin, f.opcode, f.key, |f.Print()| - |f.payload|, |f.payload|)
  {
    FirstTwo(f, tail);
    FieldsOfFirstTwo(f);
    KeyRoundTrip(f, tail);
    if !f.form.Short? {
      LengthRoundTrip(f, tail);
    }
    HeaderFromParts(f, f.Print() + tail);
  }

  /** Section 5.2: every printed frame is read back, whatever follows it. */
  lemma FrameRoundTrip(f: Frame, tail: bytes, cache: bytes, max: nat)
    requires f.Valid() && |cache| + |f.payload| <= max && |cache| < TWO_63
    ensures StepAt(f.Print() + tail, cache, max) ==
              Dispatch(|f.Print()|, f.fin, f.opcode, cache + f.payload)
  {
    var buf, h := f.Print() + tail, |f.Print()| - |f.payload|;
    HeaderRoundTrip(f, tail);
    if f.key == [] {
      assert buf[h..h + |f.payload|] == f.payload;
    } else {
      assert buf[h..h + |f.payload|] == Mask(f.payload, f.key);
      MaskTwice(f.payload, f.key);
    }
  }

  /** A stepper that reads every printed frame back as long as the cache limit allows it. */
  ghost predicate Reads(step: Stepper, max: nat) {
    forall f: Frame, tail, cache :: f.Valid() && |cache| + |f.payload| <= max && |cache| < TWO_63 ==>
      step(f.Print() + tail, cache) == Dispatch(|f.Print()|, f.fin, f.opcode, cache + f.payload)
  }

  lemma StepperReads(max: nat)
    ensures Reads(FrameStepper(max), max)
  {
    forall f: Frame, tail, cache | f.Valid() && |cache| + |f.payload| <= max && |cache| < TWO_63
      ensures FrameStepper(max)(f.Print() + tail, cache) ==
                Dispatch(|f.Print()|, f.fin, f.opcode, cache + f.payload)
    {
      FrameRoundTrip(f, tail, cache, max);
    }
  }

  lemma Capacities()
    ensures Capacity(2) == 0x1_0000 && Capacity(8) == TWO_64
  {
    assert Capacity(4) == 0x1_0000_0000;
    assert Capacity(6) == 0x1_0000_0000_0000;
  }

  /** The payloads of a division of one message, glued together. */
  function Joined(frames: seq<Frame>): bytes {
    if frames == [] then [] else frames[0].payload + Joined(frames[1..])
  }

  function PrintAll(frames: seq<Frame>): bytes
    requires forall i | 0 <= i < |frames| :: frames[i].Valid()
  {
    if frames == [] then [] else
      assert frames[0].Valid();
      assert frames[0].Printable();
      frames[0].Print() + PrintAll(frames[1..])
  }

  /** Section 5.4: data frames with FIN on the last one only. */
  predicate IsDivision(frames: seq<Frame>) {
    && frames != []
    && (forall i | 0 <= i < |frames| :: frames[i].Valid() && IsData(frames[i].opcode))
    && (forall i | 0 <= i < |frames| :: frames[i].fin <==> i == |frames| - 1)
  }

  lemma DivisionTail(frames: seq<Frame>)
    requires IsDivision(frames) && |frames| > 1
    ensures IsDivision(frames[1..]) && !frames[0].fin
    ensures frames[1..][|frames| - 2] == frames[|frames| - 1]
  {
  }

  lemma StepOver(step: Stepper, f: Frame, tail: bytes, cache: bytes, max: nat)
    requires Progresses(step) && Reads(step, max)
    requires f.Valid() && |cache| + |f.payload| <= max && |cache| < TWO_63
    ensures var s := Dispatch(|f.Print()|, f.fin, f.opcode, cache + f.payload);
            var d := DecodeBy(step, tail, s.cache);
            DecodeBy(step, f.Print() + tail, cache) == d.(tasks := s.tasks + d.tasks)
  {
    assert (f.Print() + tail)[|f.Print()|..] == tail;
  }

  lemma {:induction false} Reassemble(step: Stepper, frames: seq<Frame>, cache: bytes, tail: bytes, max: nat)
    requires Progresses(step) && Reads(step, max)
    requires IsDivision(frames) && |cache| + |Joined(frames)| <= max && |cache| + |Joined(frames)| < TWO_63
    ensures var d := DecodeBy(step, tail, []);
            DecodeBy(step, PrintAll(frames) + tail, cache) ==
              d.(tasks := [Task(frames[|frames| - 1].opcode, cache + Joined(frames))] + d.tasks)
    decreases |frames|
  {
    var f, more := frames[0], frames[1..];
    var behind := PrintAll(more) + tail;
    Associate(f.Print(), PrintAll(more), tail);
    StepOver(step, f, behind, cache, max);
    Associate(cache, f.payload, Joined(more));
    if more == [] {
      assert behind == tail && f.payload + [] == f.payload;
    } else {
      DivisionTail(frames);
      Reassemble(step, more, cache + f.payload, tail, max);
      var d := DecodeBy(step, behind, cache + f.payload);
      assert [] + d.tasks == d.tasks;
    }
  }

  /** Sections 5.3 and 5.4: however a message is cut into data frames and masked, exactly one task carries
      it, the cache is left empty, and decoding goes on behind it. The task's opcode is the last frame's. */
  lemma FragmentsReassemble(frames: seq<Frame>, cache: bytes, tail: bytes, max: nat)
    requires IsDivision(frames) && |cache| + |Joined(frames)| <= max && |cache| + |Joined(frames)| < TWO_63
    ensures var d := Decode(tail, [], max);
            Decode(PrintAll(frames) + tail, cache, max) ==
              d.(tasks := [Task(frames[|frames| - 1].opcode, cache + Joined(frames))] + d.tasks)
  {
    StepperProgresses(max);
    StepperReads(max);
    Reassemble(FrameStepper(max), frames, cache, tail, max);
  }
}
