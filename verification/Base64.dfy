/** The base64 codec pair, proved against section 4 of RFC 4648: three bytes are one number of 24 bits, and
    its four digits to the base 64 are the symbols. */
module Base64 {
  import opened Bytes

  const PAD: byte := 0x3d // "="

  // ---- The alphabet ------------------------------------------------------------------------

  /** `base64_chars[v]`. */
  function Symbol(v: byte): (c: byte)
    requires v < 64
    ensures IsBase64(c) && c != PAD
  {
    if v < 26 then 0x41 + v
    else if v < 52 then 0x61 + v - 26
    else if v < 62 then 0x30 + v - 52
    else if v == 62 then 0x2b
    else 0x2f
  }

  predicate IsBase64(c: byte) {
    0x41 <= c <= 0x5a || 0x61 <= c <= 0x7a || 0x30 <= c <= 0x39 || c == 0x2b || c == 0x2f
  }

  /** `base64_chars.find(c)`, truncated to `unsigned char`: `npos` becomes 255. */
  function Find(c: byte): (v: byte)
    ensures v < 64 <==> IsBase64(c)
    ensures v < 64 ==> Symbol(v) == c
  {
    if 0x41 <= c <= 0x5a then c - 0x41
    else if 0x61 <= c <= 0x7a then c - 0x61 + 26
    else if 0x30 <= c <= 0x39 then c - 0x30 + 52
    else if c == 0x2b then 62
    else if c == 0x2f then 63
    else 255
  }

  lemma FindSymbol(v: byte)
    requires v < 64
    ensures Find(Symbol(v)) == v
  {
  }

  predicate AllDigits(v: seq<byte>) { forall i | 0 <= i < |v| :: v[i] < 64 }
  predicate AllSymbols(t: bytes) { forall i | 0 <= i < |t| :: IsBase64(t[i]) }

  function SymbolsOf(v: seq<byte>): (t: bytes)
    requires AllDigits(v)
    ensures |t| == |v| && AllSymbols(t) && forall i | 0 <= i < |v| :: t[i] == Symbol(v[i])
  {
    if v == [] then [] else [Symbol(v[0])] + SymbolsOf(v[1..])
  }

  function Values(t: bytes): (v: seq<byte>)
    requires AllSymbols(t)
    ensures |v| == |t| && AllDigits(v) && forall i | 0 <= i < |v| :: v[i] == Find(t[i])
  {
    if t == [] then [] else [Find(t[0])] + Values(t[1..])
  }

  lemma ValuesOfSymbols(v: seq<byte>)
    requires AllDigits(v)
    ensures Values(SymbolsOf(v)) == v
  {
    var w := Values(SymbolsOf(v));
    forall i | 0 <= i < |v| ensures w[i] == v[i] {
      FindSymbol(v[i]);
    }
  }

  lemma SymbolsOfValues(t: bytes)
    requires AllSymbols(t)
    ensures SymbolsOf(Values(t)) == t
  {
  }

  // ---- The reference: numbers and their digits ---------------------------------------------

  function Number64(v: seq<byte>): nat {
    if v == [] then 0 else Number64(v[..|v| - 1]) * 64 + v[|v| - 1]
  }

  function Digits64(n: nat, k: nat): (d: seq<byte>)
    ensures |d| == k && AllDigits(d)
  {
    if k == 0 then [] else Digits64(n / 64, k - 1) + [(n % 64)]
  }

  function Power64(k: nat): (c: nat)
    ensures c > 0
  {
    if k == 0 then 1 else 64 * Power64(k - 1)
  }

  lemma {:induction false} NumberOfDigits64(n: nat, k: nat)
    requires n < Power64(k)
    ensures Number64(Digits64(n, k)) == n
  {
    if k > 0 {
      NumberOfDigits64(n / 64, k - 1);
      var d := Digits64(n, k);
      assert d[..k - 1] == Digits64(n / 64, k - 1);
    }
  }

  lemma {:induction false} DigitsOfNumber64(v: seq<byte>)
    requires AllDigits(v)
    ensures Number64(v) < Power64(|v|) && Digits64(Number64(v), |v|) == v
  {
    if v != [] {
      var front, last := v[..|v| - 1], v[|v| - 1];
      DigitsOfNumber64(front);
      assert Number64(v) == Number64(front) * 64 + last;
      assert Number64(v) / 64 == Number64(front) && Number64(v) % 64 == last;
      assert v == front + [last];
    }
  }

  /** Three bytes hold as much as four symbols. */
  lemma SameCapacity()
    ensures Capacity(3) == Power64(4) == 0x100_0000
  {
    assert Capacity(1) == 0x100 && Capacity(2) == 0x1_0000;
    assert Power64(1) == 64 && Power64(2) == 0x1000 && Power64(3) == 0x4_0000;
  }

  /** Three bytes as four symbols. */
  function Group(a: byte, b: byte, c: byte): (s: bytes)
    ensures |s| == 4 && AllSymbols(s)
  {
    SymbolsOf(Digits64(Number([a, b, c]), 4))
  }

  /** Base64 with padding. */
  function Encode(x: bytes): bytes {
    if |x| >= 3 then Group(x[0], x[1], x[2]) + Encode(x[3..])
    else if |x| == 2 then Group(x[0], x[1], 0)[..3] + [PAD]
    else if |x| == 1 then Group(x[0], 0, 0)[..2] + [PAD, PAD]
    else []
  }

  /** The symbols at the front of `s`. */
  function Symbols(s: bytes): (t: bytes)
    ensures t <= s && AllSymbols(t)
  {
    if s != [] && IsBase64(s[0]) then [s[0]] + Symbols(s[1..]) else []
  }

  /** Four symbols as three bytes. */
  function Ungroup(s: bytes): (b: bytes)
    requires |s| == 4 && AllSymbols(s)
    ensures |b| == 3
  {
    Digits(Number64(Values(s)), 3)
  }

  /** Four symbols are three bytes; at the end, `k` symbols are `k - 1` bytes. */
  function DecodeSymbols(t: bytes): bytes
    requires AllSymbols(t)
  {
    if |t| >= 4 then Ungroup(t[..4]) + DecodeSymbols(t[4..])
    else if |t| >= 2 then Ungroup((t + [Symbol(0), Symbol(0)])[..4])[..|t| - 1]
    else []
  }

  /** What decoding yields, for every string: it reads up to the first character that is no symbol. */
  function Decode(s: bytes): bytes { DecodeSymbols(Symbols(s)) }

  // ---- The laws ----------------------------------------------------------------------------

  lemma UngroupGroup(a: byte, b: byte, c: byte)
    ensures Ungroup(Group(a, b, c)) == [a, b, c]
  {
    var n := Number([a, b, c]);
    DigitsOfNumber([a, b, c]);
    SameCapacity();
    NumberOfDigits64(n, 4);
    ValuesOfSymbols(Digits64(n, 4));
  }

  lemma {:induction false} SymbolsAppend(t: bytes, s: bytes)
    requires AllSymbols(t)
    ensures Symbols(t + s) == t + Symbols(s)
  {
    if t == [] {
      assert [] + s == s && [] + Symbols(s) == Symbols(s);
    } else {
      assert (t + s)[1..] == t[1..] + s;
      SymbolsAppend(t[1..], s);
      assert [t[0]] + t[1..] == t;
      Associate([t[0]], t[1..], Symbols(s));
    }
  }

  lemma DecodeGroup(a: byte, b: byte, c: byte, s: bytes)
    ensures Decode(Group(a, b, c) + s) == [a, b, c] + Decode(s)
  {
    var g := Group(a, b, c);
    UngroupGroup(a, b, c);
    SymbolsAppend(g, s);
    assert (g + Symbols(s))[..4] == g && (g + Symbols(s))[4..] == Symbols(s);
  }

  /** The symbols that padding stands for are those of zero. */
  lemma TailSymbols(a: byte, b: byte)
    ensures Group(a, b, 0)[3] == Symbol(0)
    ensures b == 0 ==> Group(a, b, 0)[2] == Symbol(0)
  {
    var n, h := Number([a, b, 0]), a as int * 0x400 + b as int * 4;
    NumberOfThree(a, b, 0);
    assert n == h * 64 && (b == 0 ==> h == a as int * 16 * 64);
    assert n / 64 == h && n % 64 == 0;
    var d := Digits64(n, 4);
    assert d[3] == 0;
    assert d[2] == Digits64(h, 3)[2] == h % 64;
  }

  lemma NumberOfThree(a: byte, b: byte, c: byte)
    ensures Number([a, b, c]) == a as int * 0x1_0000 + b as int * 0x100 + c
  {
    assert [a, b, c][..2] == [a, b] && [a, b][..1] == [a] && [a][..0] == [];
    assert Number([a]) == a;
    assert Number([a, b]) == a as int * 0x100 + b;
  }

  lemma NumberOfFour(a: byte, b: byte, c: byte, d: byte)
    ensures Number64([a, b, c, d]) == a as int * 0x4_0000 + b as int * 0x1000 + c as int * 64 + d
  {
    assert [a, b, c, d][..3] == [a, b, c] && [a, b, c][..2] == [a, b] && [a, b][..1] == [a] && [a][..0] == [];
    assert Number64([a]) == a;
    assert Number64([a, b]) == a as int * 64 + b;
    assert Number64([a, b, c]) == a as int * 0x1000 + b as int * 64 + c;
  }

  /** `g` up to some padding, where `g` ends in symbols of zero. */
  lemma DecodePadded(g: bytes, k: nat, pad: bytes)
    requires |g| == 4 && 2 <= k <= 3 && AllSymbols(g) && pad != [] && pad[0] == PAD
    requires g[3] == Symbol(0) && (k == 2 ==> g[2] == Symbol(0))
    ensures Decode(g[..k] + pad) == Ungroup(g)[..k - 1]
  {
    SymbolsAppend(g[..k], pad);
    assert Symbols(pad) == [] && g[..k] + [] == g[..k];
    assert (g[..k] + [Symbol(0), Symbol(0)])[..4] == g;
  }

  lemma DecodeTail(a: byte, b: byte)
    ensures Decode(Group(a, b, 0)[..3] + [PAD]) == [a, b]
    ensures b == 0 ==> Decode(Group(a, b, 0)[..2] + [PAD, PAD]) == [a]
  {
    UngroupGroup(a, b, 0);
    TailSymbols(a, b);
    DecodePadded(Group(a, b, 0), 3, [PAD]);
    if b == 0 {
      DecodePadded(Group(a, b, 0), 2, [PAD, PAD]);
    }
  }

  /** Decoding is the inverse of encoding, for every byte string. */
  lemma {:induction false} RoundTrip(x: bytes)
    ensures Decode(Encode(x)) == x
  {
    if |x| >= 3 {
      DecodeGroup(x[0], x[1], x[2], Encode(x[3..]));
      RoundTrip(x[3..]);
      assert [x[0], x[1], x[2]] + x[3..] == x;
    } else if |x| > 0 {
      DecodeTail(x[0], if |x| == 2 then x[1] else 0);
    }
  }

  /** How many groups `n` bytes make: the length, rounded up, over three. */
  function Groups(n: nat): (g: nat)
    ensures g == (n + 2) / 3
  {
    if n >= 3 then 1 + Groups(n - 3) else if n > 0 then 1 else 0
  }

  lemma {:induction false} EncodedLength(x: bytes)
    ensures |Encode(x)| == 4 * Groups(|x|)
  {
    if |x| >= 3 {
      EncodedLength(x[3..]);
    }
  }

  lemma GroupUngroup(s: bytes)
    requires |s| == 4 && AllSymbols(s)
    ensures var b := Ungroup(s); Group(b[0], b[1], b[2]) == s
  {
    var v, b := Values(s), Ungroup(s);
    DigitsOfNumber64(v);
    SameCapacity();
    NumberOfDigits(Number64(v), 3);
    assert b == [b[0], b[1], b[2]];
    SymbolsOfValues(s);
  }

  lemma {:induction false} SymbolsOfSymbols(t: bytes)
    requires AllSymbols(t)
    ensures Symbols(t) == t
  {
    if t != [] {
      SymbolsOfSymbols(t[1..]);
    }
  }

  /** Encoding is the inverse of decoding, for whole groups of symbols. */
  lemma {:induction false} UnpaddedRoundTrip(s: bytes)
    requires AllSymbols(s) && |s| % 4 == 0
    ensures Encode(Decode(s)) == s
  {
    SymbolsOfSymbols(s);
    if s != [] {
      UnpaddedRoundTrip(s[4..]);
      SymbolsOfSymbols(s[4..]);
      GroupUngroup(s[..4]);
      var b := Ungroup(s[..4]);
      assert (b + Decode(s[4..]))[3..] == Decode(s[4..]);
      assert s == s[..4] + s[4..];
    }
  }

  // ---- The loops ---------------------------------------------------------------------------

  /** The digits by shifts and masks. */
  lemma DigitsByMasks(a: byte, b: byte, c: byte)
    ensures Digits64(Number([a, b, c]), 4) == [a / 4, a % 4 * 16 + b / 16, b % 16 * 4 + c / 64, c % 64]
  {
    var d: seq<byte> := [a / 4, a % 4 * 16 + b / 16, b % 16 * 4 + c / 64, c % 64];
    NumberOfThree(a, b, c);
    NumberOfFour(d[0], d[1], d[2], d[3]);
    assert d == [d[0], d[1], d[2], d[3]];
    assert a == 4 * (a / 4) + a % 4 && b == 16 * (b / 16) + b % 16 && c == 64 * (c / 64) + c % 64;
    assert Number64(d) == Number([a, b, c]);
    DigitsOfNumber64(d);
  }

  /** And the bytes. */
  lemma BytesByMasks(v: seq<byte>)
    requires |v| == 4 && AllDigits(v)
    ensures Digits(Number64(v), 3) == [v[0] * 4 + v[1] / 16, v[1] % 16 * 16 + v[2] / 4, v[2] % 4 * 64 + v[3]]
  {
    var x: bytes := [v[0] * 4 + v[1] / 16, v[1] % 16 * 16 + v[2] / 4, v[2] % 4 * 64 + v[3]];
    NumberOfThree(x[0], x[1], x[2]);
    NumberOfFour(v[0], v[1], v[2], v[3]);
    assert x == [x[0], x[1], x[2]] && v == [v[0], v[1], v[2], v[3]];
    assert v[1] == 16 * (v[1] / 16) + v[1] % 16 && v[2] == 4 * (v[2] / 4) + v[2] % 4;
    assert Number64(v) == Number(x);
    DigitsOfNumber(x);
  }

  method SplitGroup(three: array<byte>, four: array<byte>)
    requires three.Length == 3 && four.Length == 4
    modifies four
    ensures four[..] == Digits64(Number([three[0], three[1], three[2]]), 4)
  {
    DigitsByMasks(three[0], three[1], three[2]);
    four[0] := three[0] / 4;
    four[1] := three[0] % 4 * 16 + three[1] / 16;
    four[2] := three[1] % 16 * 4 + three[2] / 64;
    four[3] := three[2] % 64;
  }

  method AppendSymbols(ret: bytes, four: array<byte>, n: nat) returns (longer: bytes)
    requires four.Length == 4 && n <= 4 && AllDigits(four[..])
    ensures longer == ret + SymbolsOf(four[..])[..n]
  {
    longer := ret;
    for j := 0 to n
      invariant longer == ret + SymbolsOf(four[..])[..j]
    {
      longer := longer + [Symbol(four[j])];
    }
  }

  /** Encode a full group. */
  method EncodeGroup(ret: bytes, three: array<byte>, four: array<byte>) returns (longer: bytes)
    requires three.Length == 3 && four.Length == 4 && three != four
    modifies four
    ensures longer == ret + Group(three[0], three[1], three[2])
  {
    SplitGroup(three, four);
    longer := AppendSymbols(ret, four, 4);
  }

  /** Encode the last one or two bytes. */
  method EncodeTail(ret: bytes, three: array<byte>, four: array<byte>, count: nat) returns (longer: bytes)
    requires three.Length == 3 && four.Length == 4 && three != four && 1 <= count <= 2
    modifies three, four
    ensures longer == ret + Encode(old(three[..count]))
  {
    var i := count;
    for j := i to 3
      invariant three[..i] == old(three[..i]) && forall h | i <= h < j :: three[h] == 0
    {
      three[j] := 0;
    }
    SplitGroup(three, four);
    longer := AppendSymbols(ret, four, i + 1);
    ghost var front := Group(three[0], three[1], three[2])[..i + 1];
    assert [PAD] + [PAD] + [] == [PAD, PAD] && [PAD] + [] == [PAD];
    Associate([PAD], [PAD], []);
    Associate(ret, front, Padding(3 - i));
    while i < 3
      invariant count <= i <= 3 && longer + Padding(3 - i) == ret + Encode(old(three[..count]))
    {
      Associate(longer, [PAD], Padding(2 - i));
      longer, i := longer + [PAD], i + 1;
    }
    assert longer + [] == longer;
  }

  function Padding(k: nat): bytes {
    if k == 0 then [] else [PAD] + Padding(k - 1)
  }

  lemma EncodeFront(x: bytes, k: nat, t: bytes)
    requires k + 3 <= |x| && |t| == 3 && t == x[k..k + 3]
    ensures Encode(x[k..]) == Group(t[0], t[1], t[2]) + Encode(x[k + 3..])
  {
    assert x[k..][3..] == x[k + 3..];
  }

  method Base64Encode(x: bytes) returns (ret: bytes)
    ensures ret == Encode(x)
  {
    var three, four := new byte[3], new byte[4];
    ret := [];
    var k, i := 0, 0;
    ghost var start := 0;
    while k < |x|
      invariant 0 <= i < 3 && 0 <= start && start + i == k <= |x|
      invariant forall h | 0 <= h < i :: three[h] == x[start + h]
      invariant ret + Encode(x[start..]) == Encode(x)
    {
      three[i] := x[k];
      k, i := k + 1, i + 1;
      if i == 3 {
        EncodeFront(x, start, three[..]);
        Associate(ret, Group(three[0], three[1], three[2]), Encode(x[k..]));
        ret := EncodeGroup(ret, three, four);
        i, start := 0, k;
      }
    }
    if i > 0 {
      assert three[..i] == x[start..];
      ret := EncodeTail(ret, three, four, i);
    }
  }

  lemma {:induction false} SymbolsStop(s: bytes)
    ensures |Symbols(s)| < |s| ==> !IsBase64(s[|Symbols(s)|])
  {
    if s != [] && IsBase64(s[0]) {
      SymbolsStop(s[1..]);
    }
  }

  /** Look four symbols up, and join them; symbols that are not there are zeros in `four`. */
  method JoinGroup(four: array<byte>, three: array<byte>)
    requires three.Length == 3 && four.Length == 4 && three != four
    modifies three, four
    ensures var a, b, c, d := Find(old(four[0])), Find(old(four[1])), Find(old(four[2])), Find(old(four[3]));
            && (a < 64 && b < 64 ==> three[0] == a * 4 + b / 16)
            && (b < 64 && c < 64 ==> three[1] == b % 16 * 16 + c / 4)
            && (c < 64 && d < 64 ==> three[2] == c % 4 * 64 + d)
  {
    for i := 0 to 4
      invariant forall h | 0 <= h < 4 :: four[h] == if h < i then Find(old(four[h])) else old(four[h])
    {
      four[i] := Find(four[i]);
    }
    Truncation(four[0], four[1], four[2], four[3]);
    three[0] := (four[0] as int * 4 + four[1] / 16 % 4) % 0x100;
    three[1] := (four[1] as int % 16 * 16 + four[2] / 4 % 16) % 0x100;
    three[2] := (four[2] as int % 4 * 64 + four[3]) % 0x100;
  }

  /** Between digits nothing is truncated. */
  lemma Truncation(a: byte, b: byte, c: byte, d: byte)
    ensures a < 64 && b < 64 ==> (a as int * 4 + b / 16 % 4) % 0x100 == a as int * 4 + b / 16
    ensures b < 64 && c < 64 ==> (b as int % 16 * 16 + c / 4 % 16) % 0x100 == b as int % 16 * 16 + c / 4
    ensures c < 64 && d < 64 ==> (c as int % 4 * 64 + d) % 0x100 == c as int % 4 * 64 + d
  {
  }

  lemma UngroupByMasks(s: bytes)
    requires |s| == 4 && AllSymbols(s)
    ensures var a, b, c, d := Find(s[0]), Find(s[1]), Find(s[2]), Find(s[3]);
            Ungroup(s) == [a * 4 + b / 16, b % 16 * 16 + c / 4, c % 4 * 64 + d]
  {
    BytesByMasks(Values(s));
  }

  method DecodeGroupLoop(ret: bytes, four: array<byte>, three: array<byte>) returns (longer: bytes)
    requires three.Length == 3 && four.Length == 4 && three != four && AllSymbols(four[..])
    modifies three, four
    ensures longer == ret + Ungroup(old(four[..]))
  {
    UngroupByMasks(four[..]);
    JoinGroup(four, three);
    longer := ret;
    for i := 0 to 3
      invariant longer == ret + three[..i]
    {
      longer := longer + [three[i]];
    }
  }

  method DecodeTailLoop(ret: bytes, four: array<byte>, three: array<byte>, count: nat) returns (longer: bytes)
    requires three.Length == 3 && four.Length == 4 && three != four
    requires 1 <= count <= 3 && AllSymbols(four[..count])
    modifies three, four
    ensures longer == ret + DecodeSymbols(old(four[..count]))
  {
    ghost var t := four[..count];
    ghost var g := (t + [Symbol(0), Symbol(0), Symbol(0)])[..4];
    UngroupByMasks(g);
    assert count >= 2 ==> g == (t + [Symbol(0), Symbol(0)])[..4];
    assert forall i | 0 <= i < count :: g[i] == four[i];
    for j := count to 4
      invariant four[..count] == t && forall h | count <= h < j :: four[h] == 0
    {
      four[j] := 0;
    }
    JoinGroup(four, three);
    assert three[..count - 1] == Ungroup(g)[..count - 1];
    longer := ret;
    for j := 0 to count - 1
      invariant longer == ret + three[..j]
    {
      longer := longer + [three[j]];
    }
  }

  /** One round: put a symbol in the scratch buffer, and decode it when it is full. */
  method TakeSymbol(ret: bytes, four: array<byte>, three: array<byte>, i: nat, c: byte)
    returns (longer: bytes, j: nat)
    requires three.Length == 3 && four.Length == 4 && three != four
    requires i < 4 && IsBase64(c) && AllSymbols(four[..i])
    modifies three, four
    ensures i < 3 ==> j == i + 1 && four[..j] == old(four[..i]) + [c] && longer == ret
    ensures i == 3 ==> j == 0 && longer == ret + Ungroup(old(four[..3]) + [c])
  {
    four[i] := c;
    longer, j := ret, i + 1;
    if j == 4 {
      assert four[..] == old(four[..3]) + [c];
      longer := DecodeGroupLoop(ret, four, three);
      j := 0;
    }
  }

  /** What is in the scratch buffer, and the symbol that comes next. */
  lemma NextSymbol(pending: bytes, t: bytes, k: nat)
    requires AllSymbols(pending) && AllSymbols(t) && k < |t|
    ensures AllSymbols(pending + [t[k]]) && AllSymbols(t[k + 1..]) && AllSymbols(pending + t[k..])
    ensures pending + t[k..] == pending + [t[k]] + t[k + 1..]
  {
  }

  lemma DecodeFull(g: bytes, rest: bytes)
    requires |g| == 4 && AllSymbols(g) && AllSymbols(rest)
    ensures AllSymbols(g + rest) && DecodeSymbols(g + rest) == Ungroup(g) + DecodeSymbols(rest)
  {
    assert (g + rest)[..4] == g && (g + rest)[4..] == rest;
  }

  /** The loop's guard is what delimits the symbols at the front. */
  lemma SymbolAt(s: bytes, k: nat)
    requires k <= |Symbols(s)|
    ensures if k < |s| && s[k] != PAD && IsBase64(s[k]) then k < |Symbols(s)| && Symbols(s)[k] == s[k]
            else k == |Symbols(s)|
  {
    SymbolsStop(s);
  }

  /** One more symbol: with three pending it completes a group. */
  lemma DecodeOn(ret: bytes, pending: bytes, t: bytes, k: nat)
    requires AllSymbols(pending) && AllSymbols(t) && k < |t| && |pending| <= 3
    ensures AllSymbols(pending + t[k..]) && AllSymbols(pending + [t[k]]) && AllSymbols([] + t[k + 1..])
    ensures AllSymbols(pending + [t[k]] + t[k + 1..])
    ensures ret + DecodeSymbols(pending + t[k..]) ==
            if |pending| == 3 then ret + Ungroup(pending + [t[k]]) + DecodeSymbols([] + t[k + 1..])
            else ret + DecodeSymbols(pending + [t[k]] + t[k + 1..])
  {
    NextSymbol(pending, t, k);
    assert [] + t[k + 1..] == t[k + 1..];
    if |pending| == 3 {
      DecodeFull(pending + [t[k]], t[k + 1..]);
      Associate(ret, Ungroup(pending + [t[k]]), DecodeSymbols(t[k + 1..]));
    }
  }

  method Base64Decode(s: bytes) returns (ret: bytes)
    ensures ret == Decode(s)
  {
    ghost var t, pending: bytes := Symbols(s), [];
    var three, four := new byte[3], new byte[4];
    ret := [];
    var k, i := 0, 0;
    assert [] + t[0..] == t;
    while k < |s| && s[k] != PAD && IsBase64(s[k])
      invariant 0 <= i < 4 && k <= |t| && four[..i] == pending && |pending| == i
      invariant AllSymbols(pending) && AllSymbols(pending + t[k..])
      invariant ret + DecodeSymbols(pending + t[k..]) == Decode(s)
    {
      SymbolAt(s, k);
      DecodeOn(ret, pending, t, k);
      ret, i := TakeSymbol(ret, four, three, i, s[k]);
      pending, k := if i == 0 then [] else pending + [t[k]], k + 1;
    }
    SymbolAt(s, k);
    assert pending + [] == pending;
    if i > 0 {
      ret := DecodeTailLoop(ret, four, three, i);
    }
  }
}
