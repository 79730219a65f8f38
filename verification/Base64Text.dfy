/** Base64 in plain text: the alphabet, the padding and the bits of each symbol. */
module Base64Text {
  import opened Bytes
  import opened Base64

  /** The alphabet of table 1 of RFC 4648. */
  lemma SymbolIs(v: byte)
    requires v < 64
    ensures Symbol(v) == if v < 26 then 'A' as int + v
                         else if v < 52 then 'a' as int + (v - 26)
                         else if v < 62 then '0' as int + (v - 52)
                         else if v == 62 then '+' as int
                         else '/' as int
  {
  }

  lemma GroupIs(a: byte, b: byte, c: byte)
    ensures Group(a, b, c) ==
            [Symbol(a / 4), Symbol(a % 4 * 16 + b / 16), Symbol(b % 16 * 4 + c / 64), Symbol(c % 64)]
  {
    DigitsByMasks(a, b, c);
  }

  /** Three bytes become the symbols of their bits, six at a time. */
  lemma ThreeBytes(a: byte, b: byte, c: byte, x: bytes)
    ensures Encode([a, b, c] + x) ==
            [Symbol(a / 4), Symbol(a % 4 * 16 + b / 16), Symbol(b % 16 * 4 + c / 64), Symbol(c % 64)] + Encode(x)
  {
    GroupIs(a, b, c);
    assert ([a, b, c] + x)[3..] == x;
  }

  lemma LastThree(a: byte, b: byte, c: byte)
    ensures Encode([a, b, c]) ==
            [Symbol(a / 4), Symbol(a % 4 * 16 + b / 16), Symbol(b % 16 * 4 + c / 64), Symbol(c % 64)]
  {
    ThreeBytes(a, b, c, []);
    assert [a, b, c] + [] == [a, b, c];
  }

  /** Two last bytes become three symbols and an equals sign. */
  lemma TwoBytes(a: byte, b: byte)
    ensures Encode([a, b]) == [Symbol(a / 4), Symbol(a % 4 * 16 + b / 16), Symbol(b % 16 * 4), '=' as int]
  {
    GroupIs(a, b, 0);
  }

  /** One last byte becomes two symbols and two equals signs. */
  lemma OneByte(a: byte)
    ensures Encode([a]) == [Symbol(a / 4), Symbol(a % 4 * 16), '=' as int, '=' as int]
  {
    GroupIs(a, 0, 0);
  }

  predicate IsLetterOrDigit(c: byte) {
    'A' as int <= c <= 'Z' as int || 'a' as int <= c <= 'z' as int || '0' as int <= c <= '9' as int
  }

  /** Decoding stops at the first character outside the alphabet. */
  lemma StopsAt(s: bytes, c: byte, rest: bytes)
    requires !IsLetterOrDigit(c) && c != '+' as int && c != '/' as int
    ensures Decode(s + [c] + rest) == Decode(s)
  {
    SymbolsStopAt(s, c, rest);
  }

  lemma {:induction false} SymbolsStopAt(s: bytes, c: byte, rest: bytes)
    requires !IsLetterOrDigit(c) && c != '+' as int && c != '/' as int
    ensures Symbols(s + [c] + rest) == Symbols(s)
    decreases |s|
  {
    var t := s + [c] + rest;
    if s != [] {
      assert t[0] == s[0] && t[1..] == s[1..] + [c] + rest;
      SymbolsStopAt(s[1..], c, rest);
    }
  }

  // ---- Test vectors of section 10 of RFC 4648 ----------------------------------------------

  /** `f` is `Zg==`. */
  lemma VectorF(f: byte)
    requires f == 'f' as int
    ensures Encode([f]) == ['Z' as int, 'g' as int, '=' as int, '=' as int]
  {
    OneByte(f);
    SymbolIs(25);
    SymbolIs(32);
  }

  /** `fo` is `Zm8=`. */
  lemma VectorFo(f: byte, o: byte)
    requires f == 'f' as int && o == 'o' as int
    ensures Encode([f, o]) == ['Z' as int, 'm' as int, '8' as int, '=' as int]
  {
    TwoBytes(f, o);
    SymbolIs(25);
    SymbolIs(38);
    SymbolIs(60);
  }

  /** `foo` is `Zm9v`. */
  lemma VectorFoo(f: byte, o: byte)
    requires f == 'f' as int && o == 'o' as int
    ensures Encode([f, o, o]) == ['Z' as int, 'm' as int, '9' as int, 'v' as int]
  {
    LastThree(f, o, o);
    SymbolIs(25);
    SymbolIs(38);
    SymbolIs(61);
    SymbolIs(47);
  }
}
