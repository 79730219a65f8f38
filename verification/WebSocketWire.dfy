/** Section 5.2 of RFC 6455 in plain bytes and bits: what a client puts on the wire and what becomes of it. */
module WebSocketWire {
  import opened Bytes
  import opened WebSocketFrame

  /** The length `n` behind the first byte of a frame: in seven bits, in two bytes or in eight. */
  predicate LengthField(field: bytes, n: nat, maskBit: byte)
    requires maskBit <= 0x80
  {
    || (n < 126 && field == [(maskBit + n)])
    || (|field| == 3 && field[0] == maskBit + 126 && n == field[1] as int * 0x100 + field[2])
    || (|field| == 9 && field[0] == maskBit + 127 &&
        n == field[1] as int * 0x100_0000_0000_0000 + field[2] as int * 0x1_0000_0000_0000 +
             field[3] as int * 0x100_0000_0000 + field[4] as int * 0x1_0000_0000 +
             field[5] as int * 0x100_0000 + field[6] as int * 0x1_0000 + field[7] as int * 0x100 + field[8])
  }

  /** `text` is what the client means by `wire`: the same bytes, or under a key of four bytes, bit by bit the
      exclusive or of byte `i` and of byte `i % 4` of the key. */
  predicate Unmasked(text: bytes, wire: bytes, key: bytes) {
    && |text| == |wire|
    && (key == [] ==> text == wire)
    && (|key| == 4 ==> forall i: nat, j: nat | i < |wire| && j < 8 ::
          Bit(text[i], j) <==> Bit(wire[i], j) != Bit(key[i % 4], j))
  }

  /** The tasks of a frame whose first byte is `first`, if `text` is in the cache with it. */
  function TasksOf(first: byte, text: bytes): seq<Task> {
    var opcode := first % 0x10;
    if opcode <= 2 then (if first >= 0x80 then [Task(opcode, text)] else [])
    else if opcode == 9 then [Task(9, text)]
    else if opcode == 10 then [Task(10, text)]
    else [Task(8, text)]
  }

  /** What it leaves in the cache: text and binary frames with FIN, and PING, empty it. */
  function CacheAfter(first: byte, text: bytes): bytes {
    var opcode := first % 0x10;
    if opcode == 9 || (opcode <= 2 && first >= 0x80) then [] else text
  }

  lemma UnmaskedIsMask(text: bytes, wire: bytes, key: bytes)
    requires |key| == 4 && Unmasked(text, wire, key)
    ensures Mask(wire, key) == text
  {
    var m := Mask(wire, key);
    forall i | 0 <= i < |wire| ensures m[i] == text[i] {
      XorIsExclusiveOr(wire[i], key[i % 4]);
      forall j: nat | j < 8 ensures Bit(m[i], j) <==> Bit(text[i], j) {
        assert Bit(text[i], j) <==> Bit(wire[i], j) != Bit(key[i % 4], j);
      }
      ByteOfBits(m[i], text[i]);
    }
  }

  lemma MaskIsUnmasked(wire: bytes, key: bytes)
    requires |key| == 4
    ensures Unmasked(Mask(wire, key), wire, key)
  {
    XorsAreUnmasked(Mask(wire, key), wire, key);
  }

  /** What the server puts in front of a message: FIN and the opcode, no mask bit, and the length in the fewest
      bytes, high byte first. */
  function ServerHeader(opcode: byte, n: nat): bytes
    requires opcode < 0x80
  {
    [(0x80 + opcode)] +
    (if n < 126 then [n]
     else if n < 0x1_0000 then [126, (n / 0x100), (n % 0x100)]
     else [127, (n / 0x100_0000_0000_0000 % 0x100), (n / 0x1_0000_0000_0000 % 0x100),
           (n / 0x100_0000_0000 % 0x100), (n / 0x1_0000_0000 % 0x100), (n / 0x100_0000 % 0x100),
           (n / 0x1_0000 % 0x100), (n / 0x100 % 0x100), (n % 0x100)])
  }

  lemma ServerFrameIs(opcode: byte, message: bytes)
    requires opcode < 0x80 && |message| < TWO_63
    ensures ServerFrame(opcode, message).Print() == ServerHeader(opcode, |message|) + message
  {
    var n, f := |message|, ServerFrame(opcode, message);
    if n < 126 {
      assert f.Print() == [f.FirstByte(), f.SecondByte()] + [] + [] + message;
    } else if n < 0x1_0000 {
      TwoDigits(n);
    } else {
      EightDigits(n);
    }
  }

  /** The parts of a frame in a stream. */
  ghost predicate Stands(buf: bytes, first: byte, field: bytes, key: bytes, wire: bytes) {
    var size := 1 + |field| + |key|;
    && size + |wire| <= |buf| && buf[0] == first && buf[1..1 + |field|] == field
    && buf[1 + |field|..size] == key && buf[size..size + |wire|] == wire
  }

  lemma HeaderOnWire(buf: bytes, first: byte, field: bytes, key: bytes, wire: bytes)
    requires Stands(buf, first, field, key, wire) && (key == [] || |key| == 4)
    requires LengthField(field, |wire|, if key == [] then 0 else 0x80)
    ensures HeaderOf(buf) == Header(first >= 0x80, first % 0x10, key, 1 + |field| + |key|, |wire|)
  {
    assert buf[1] == buf[1..1 + |field|][0] == field[0];
    if |field| == 3 {
      assert buf[2..4] == field[1..];
      NumberOfTwo(buf[2..4]);
    } else if |field| == 9 {
      assert buf[2..10] == field[1..];
      NumberOfEight(buf[2..10]);
    }
  }

  lemma PayloadOnWire(buf: bytes, first: byte, field: bytes, key: bytes, wire: bytes, text: bytes)
    requires Stands(buf, first, field, key, wire) && (key == [] || |key| == 4) && Unmasked(text, wire, key)
    ensures var h := Header(first >= 0x80, first % 0x10, key, 1 + |field| + |key|, |wire|); Payload(buf, h) == text
  {
    if |key| == 4 {
      UnmaskedIsMask(text, wire, key);
    }
  }

  lemma StepOnWire(buf: bytes, h: Header, first: byte, text: bytes, cache: bytes, max: nat)
    requires HeaderOf(buf) == h && h.Header? && h.fin == (first >= 0x80) && h.opcode == first % 0x10
    requires h.size + h.length <= |buf| && h.size <= 14 && Payload(buf, h) == text
    requires |cache| + h.length <= max && |cache| < TWO_63 && h.length < TWO_63
    ensures StepAt(buf, cache, max) ==
            Take(h.size + h.length, TasksOf(first, cache + text), CacheAfter(first, cache + text))
  {
  }

  /** Every frame, masked or not, in any of the length forms, of any opcode: its tasks, then those of what is
      behind it. */
  lemma FrameOnWire(buf: bytes, first: byte, field: bytes, key: bytes, wire: bytes, text: bytes, cache: bytes, max: nat)
    requires Stands(buf, first, field, key, wire) && (key == [] || |key| == 4) && Unmasked(text, wire, key)
    requires LengthField(field, |wire|, if key == [] then 0 else 0x80)
    requires |cache| + |wire| <= max && |cache| < TWO_63 && |wire| < TWO_63
    ensures var d := Decode(buf[1 + |field| + |key| + |wire|..], CacheAfter(first, cache + text), max);
            Decode(buf, cache, max) == d.(tasks := TasksOf(first, cache + text) + d.tasks)
  {
    HeaderOnWire(buf, first, field, key, wire);
    PayloadOnWire(buf, first, field, key, wire, text);
    StepOnWire(buf, HeaderOf(buf), first, text, cache, max);
    DecodeUnroll(buf, cache, max, []);
  }

  // ---- Section 5.7 of RFC 6455 -------------------------------------------------------------

  const HELLO: bytes := [0x48, 0x65, 0x6c, 0x6c, 0x6f]
  const KEY: bytes := [0x37, 0xfa, 0x21, 0x3d]
  const MASKED_HELLO: bytes := [0x7f, 0x9f, 0x4d, 0x51, 0x58]

  lemma {:induction false} XorOfParts(a: nat, b: nat, k: nat, m: nat)
    requires m <= k
    ensures XorBits(a, b, k) == XorBits(a, b, m) + Power2(m) * XorBits(Shifted(a, m), Shifted(b, m), k - m)
    decreases m
  {
    if m > 0 {
      var x := XorBits(Shifted(a / 2, m - 1), Shifted(b / 2, m - 1), k - m);
      XorOfParts(a / 2, b / 2, k - 1, m - 1);
      Associated(Power2(m - 1), x);
    }
  }

  lemma Associated(p: nat, x: nat)
    ensures 2 * (p * x) == 2 * p * x
  {
  }

  /** Exclusive or digit by digit, if the digits are hexadecimal. */
  lemma XorOfDigits(a: nat, b: nat, c: nat, d: nat)
    requires a < 16 && b < 16 && c < 16 && d < 16
    ensures Xor(16 * a + c, 16 * b + d) == 16 * XorBits(a, b, 4) + XorBits(c, d, 4)
  {
    var x: byte, y: byte := 16 * a + c, 16 * b + d;
    XorOfParts(x, y, 8, 4);
    LowBits(a, c, b, d, 4);
    assert Power2(4) == 16;
    FourShifts(a, c);
    FourShifts(b, d);
  }

  lemma FourShifts(a: nat, c: nat)
    requires c < 16
    ensures Shifted(16 * a + c, 4) == a
  {
    assert Shifted(16 * a + c, 4) == Shifted(8 * a + c / 2, 3) == Shifted(4 * a + c / 4, 2);
    assert Shifted(4 * a + c / 4, 2) == Shifted(2 * a + c / 8, 1) == Shifted(a, 0);
  }

  lemma {:induction false} LowBits(a: nat, c: nat, b: nat, d: nat, k: nat)
    ensures XorBits(Power2(k) * a + c, Power2(k) * b + d, k) == XorBits(c, d, k)
    decreases k
  {
    if k > 0 {
      var p := Power2(k - 1);
      Associated(p, a);
      Associated(p, b);
      HalfOfSum(p * a, c);
      HalfOfSum(p * b, d);
      ParityOfSums(p * a, c, p * b, d);
      LowBits(a, c / 2, b, d / 2, k - 1);
    }
  }

  lemma HalfOfSum(n: nat, c: nat)
    ensures (2 * n + c) / 2 == n + c / 2
  {
  }

  lemma ParityOfSums(n: nat, c: nat, m: nat, d: nat)
    ensures (2 * n + c + (2 * m + d)) % 2 == (c + d) % 2
  {
  }

  lemma DigitXor(a: nat, b: nat)
    ensures XorBits(a, b, 4) == (a + b) % 2 + 2 * ((a / 2 + b / 2) % 2) + 4 * ((a / 4 + b / 4) % 2) +
                                8 * ((a / 8 + b / 8) % 2)
  {
    var c, d := a / 4, b / 4;
    assert a / 2 / 2 == c && b / 2 / 2 == d && c / 2 == a / 8 && d / 2 == b / 8;
    assert XorBits(c / 2, d / 2, 1) == (c / 2 + d / 2) % 2;
    assert XorBits(c, d, 2) == (c + d) % 2 + 2 * XorBits(c / 2, d / 2, 1);
    assert XorBits(a / 2, b / 2, 3) == (a / 2 + b / 2) % 2 + 2 * XorBits(c, d, 2);
  }

  lemma DigitIs(a: nat, b: nat, x: nat)
    requires x == (a + b) % 2 + 2 * ((a / 2 + b / 2) % 2) + 4 * ((a / 4 + b / 4) % 2) + 8 * ((a / 8 + b / 8) % 2)
    ensures XorBits(a, b, 4) == x
  {
    DigitXor(a, b);
  }

  lemma ByteIs(a: nat, b: nat, c: nat, d: nat, x: nat, y: nat)
    requires a < 16 && b < 16 && c < 16 && d < 16
    requires x == (a + b) % 2 + 2 * ((a / 2 + b / 2) % 2) + 4 * ((a / 4 + b / 4) % 2) + 8 * ((a / 8 + b / 8) % 2)
    requires y == (c + d) % 2 + 2 * ((c / 2 + d / 2) % 2) + 4 * ((c / 4 + d / 4) % 2) + 8 * ((c / 8 + d / 8) % 2)
    ensures Xor(16 * a + c, 16 * b + d) == 16 * x + y
  {
    DigitIs(a, b, x);
    DigitIs(c, d, y);
    XorOfDigits(a, b, c, d);
  }

  lemma HelloXors()
    ensures Xor(0x7f, 0x37) == 0x48 && Xor(0x9f, 0xfa) == 0x65 && Xor(0x4d, 0x21) == 0x6c
    ensures Xor(0x51, 0x3d) == 0x6c && Xor(0x58, 0x37) == 0x6f
  {
    ByteIs(0x7, 0x3, 0xf, 0x7, 0x4, 0x8);
    ByteIs(0x9, 0xf, 0xf, 0xa, 0x6, 0x5);
    ByteIs(0x4, 0x2, 0xd, 0x1, 0x6, 0xc);
    ByteIs(0x5, 0x3, 0x1, 0xd, 0x6, 0xc);
    ByteIs(0x5, 0x3, 0x8, 0x7, 0x6, 0xf);
  }

  lemma XorsAreUnmasked(text: bytes, wire: bytes, key: bytes)
    requires |text| == |wire| && |key| == 4 && forall i | 0 <= i < |wire| :: text[i] == Xor(wire[i], key[i % 4])
    ensures Unmasked(text, wire, key)
  {
    forall i: nat, j: nat | i < |wire| && j < 8 ensures Bit(text[i], j) <==> Bit(wire[i], j) != Bit(key[i % 4], j) {
      XorIsExclusiveOr(wire[i], key[i % 4]);
    }
  }

  lemma FiveUnmasked(a: byte, b: byte, c: byte, d: byte, e: byte, k: byte, l: byte, m: byte, n: byte)
    ensures Unmasked([Xor(a, k), Xor(b, l), Xor(c, m), Xor(d, n), Xor(e, k)], [a, b, c, d, e], [k, l, m, n])
  {
    var text, wire, key := [Xor(a, k), Xor(b, l), Xor(c, m), Xor(d, n), Xor(e, k)], [a, b, c, d, e], [k, l, m, n];
    XorsAreUnmasked(text, wire, key);
  }

  lemma HelloUnmasked()
    ensures Unmasked(HELLO, MASKED_HELLO, KEY)
  {
    HelloXors();
    FiveUnmasked(0x7f, 0x9f, 0x4d, 0x51, 0x58, 0x37, 0xfa, 0x21, 0x3d);
  }

  lemma HelloFrame(buf: bytes, first: byte, field: bytes, key: bytes, wire: bytes)
    requires (key == [] && field == [5] && wire == HELLO) || (key == KEY && field == [0x85] && wire == MASKED_HELLO)
    requires buf == [first] + field + key + wire
    ensures Decode(buf, [], 8192) == Decoded(More, TasksOf(first, HELLO), [], CacheAfter(first, HELLO))
  {
    HelloUnmasked();
    assert buf[1..2] == field && buf[2..2 + |key|] == key && buf[2 + |key|..2 + |key| + |wire|] == wire;
    FrameOnWire(buf, first, field, key, wire, HELLO, [], 8192);
    assert [] + HELLO == HELLO && buf[2 + |key| + |wire|..] == [];
    DecodeUnroll([], CacheAfter(first, HELLO), 8192, []);
    assert TasksOf(first, HELLO) + [] == TasksOf(first, HELLO);
  }

  /** The unmasked frames of the standard's examples: a text message and a ping. */
  lemma UnmaskedExample(first: byte)
    requires first == 0x81 || first == 0x89
    ensures Decode([first, 0x05, 0x48, 0x65, 0x6c, 0x6c, 0x6f], [], 8192) ==
            Decoded(More, [Task(if first == 0x81 then 1 else 9, HELLO)], [], [])
  {
    HelloFrame([first, 0x05, 0x48, 0x65, 0x6c, 0x6c, 0x6f], first, [0x05], [], HELLO);
  }

  /** The masked frames: a text message, and a pong, which stays in the cache. */
  lemma MaskedExample(first: byte)
    requires first == 0x81 || first == 0x8a
    ensures Decode([first, 0x85, 0x37, 0xfa, 0x21, 0x3d, 0x7f, 0x9f, 0x4d, 0x51, 0x58], [], 8192) ==
            Decoded(More, [Task(if first == 0x81 then 1 else 10, HELLO)], [], if first == 0x81 then [] else HELLO)
  {
    HelloFrame([first, 0x85, 0x37, 0xfa, 0x21, 0x3d, 0x7f, 0x9f, 0x4d, 0x51, 0x58], first, [0x85], KEY, MASKED_HELLO);
  }
}
