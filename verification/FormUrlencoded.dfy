/** Percent decoding and the parser of `application/x-www-form-urlencoded` texts. */
module FormUrlencoded {
  import opened Bytes

  const NUL: byte := 0x00
  const SPACE: byte := 0x20
  const PERCENT: byte := 0x25
  const AMPERSAND: byte := 0x26
  const PLUS: byte := 0x2b
  const EQUALS: byte := 0x3d

  // ---- Percent decoding --------------------------------------------------------------------

  predicate IsHex(c: byte) { 0x30 <= c <= 0x39 || 0x41 <= c <= 0x46 || 0x61 <= c <= 0x66 }

  /** A hexadecimal digit, in either case. */
  function HexValue(c: byte): (v: byte)
    requires IsHex(c)
    ensures v < 16
  {
    if c <= 0x39 then c - 0x30 else if c <= 0x46 then c - 0x41 + 10 else c - 0x61 + 10
  }

  /** An escape: a percent sign and two hexadecimal digits (section 2.1 of RFC 3986). */
  predicate IsEscape(s: bytes) { |s| == 3 && s[0] == PERCENT && IsHex(s[1]) && IsHex(s[2]) }

  function EscapeValue(s: bytes): byte
    requires IsEscape(s)
  {
    HexValue(s[1]) * 16 + HexValue(s[2])
  }

  function Decode(s: bytes): bytes {
    if s == [] then []
    else if s[0] == PLUS then [SPACE] + Decode(s[1..])
    else if |s| >= 3 && IsEscape(s[..3]) then [EscapeValue(s[..3])] + Decode(s[3..])
    else [s[0]] + Decode(s[1..])
  }

  /** The ways to write the byte `c` in the value of a form: itself if it means itself, a plus for a space,
      or an escape. */
  predicate Writes(piece: bytes, c: byte) {
    || (piece == [c] && c !in [PLUS, PERCENT, AMPERSAND, EQUALS, NUL])
    || (piece == [PLUS] && c == SPACE)
    || (IsEscape(piece) && EscapeValue(piece) == c)
  }

  predicate AllWrite(pieces: seq<bytes>, x: bytes) {
    |pieces| == |x| && forall i | 0 <= i < |x| :: Writes(pieces[i], x[i])
  }

  lemma DecodePiece(piece: bytes, c: byte, rest: bytes)
    requires Writes(piece, c)
    ensures Decode(piece + rest) == [c] + Decode(rest)
  {
    if IsEscape(piece) {
      assert (piece + rest)[..3] == piece && (piece + rest)[3..] == rest;
    } else {
      assert (piece + rest)[1..] == rest;
      if |piece + rest| >= 3 {
        assert (piece + rest)[..3][0] == piece[0];
      }
    }
  }

  /** Decoding undoes every encoder that writes byte after byte. */
  lemma {:induction false} DecodeInverts(pieces: seq<bytes>, x: bytes)
    requires AllWrite(pieces, x)
    ensures Decode(Concat(pieces)) == x
    decreases |pieces|
  {
    if pieces != [] {
      DecodePiece(pieces[0], x[0], Concat(pieces[1..]));
      DecodeInverts(pieces[1..], x[1..]);
    }
  }

  method Htoi(a: byte, b: byte) returns (value: int)
    requires IsHex(a) && IsHex(b)
    ensures value == EscapeValue([PERCENT, a, b])
  {
    var c: int := a;
    if 0x41 <= c <= 0x5a {
      c := c + 0x20;
    }
    value := (if 0x30 <= c <= 0x39 then c - 0x30 else c - 0x61 + 10) * 16;
    c := b;
    if 0x41 <= c <= 0x5a {
      c := c + 0x20;
    }
    value := value + (if 0x30 <= c <= 0x39 then c - 0x30 else c - 0x61 + 10);
  }

  lemma DecodeStep(s: bytes, k: nat)
    requires k < |s|
    ensures Decode(s[k..]) ==
              if s[k] == PLUS then [SPACE] + Decode(s[k + 1..])
              else if k + 3 <= |s| && IsEscape(s[k..k + 3]) then [EscapeValue(s[k..k + 3])] + Decode(s[k + 3..])
              else [s[k]] + Decode(s[k + 1..])
  {
    var t := s[k..];
    assert t[1..] == s[k + 1..];
    if k + 3 <= |s| {
      assert t[..3] == s[k..k + 3] && t[3..] == s[k + 3..];
    }
  }

  method UrlDecode(s: bytes) returns (dest: bytes)
    ensures dest == Decode(s)
  {
    dest := [];
    var data, len := 0, |s|;
    while len > 0
      invariant 0 <= data && 0 <= len && data + len == |s| && dest + Decode(s[data..]) == Decode(s)
    {
      DecodeStep(s, data);
      len := len - 1;
      if s[data] == PLUS {
        Associate(dest, [SPACE], Decode(s[data + 1..]));
        dest := dest + [SPACE];
      } else if s[data] == PERCENT && len >= 2 && IsHex(s[data + 1]) && IsHex(s[data + 2]) {
        var value := Htoi(s[data + 1], s[data + 2]);
        assert s[data..data + 3] == [PERCENT, s[data + 1], s[data + 2]];
        Associate(dest, [value], Decode(s[data + 3..]));
        dest := dest + [value];
        data, len := data + 2, len - 2;
      } else {
        Associate(dest, [s[data]], Decode(s[data + 1..]));
        dest := dest + [s[data]];
      }
      data := data + 1;
    }
  }

  // ---- In plain text -----------------------------------------------------------------------

  /** A hexadecimal digit as a character, in upper or in lower case. */
  function HexDigit(v: nat, upper: bool): byte
    requires v < 16
  {
    if v < 10 then '0' as int + v else if upper then 'A' as int + v - 10 else 'a' as int + v - 10
  }

  /** A byte, high digit first, in any letter case. */
  lemma EscapeDecodes(n: byte, first: bool, second: bool, rest: bytes)
    ensures Decode(Ascii("%") + [HexDigit(n / 16, first), HexDigit(n % 16, second)] + rest) == [n] + Decode(rest)
  {
    var piece: bytes := [0x25, HexDigit(n / 16, first), HexDigit(n % 16, second)];
    assert Ascii("%") == [0x25];
    assert Ascii("%") + [HexDigit(n / 16, first), HexDigit(n % 16, second)] == piece;
    assert IsEscape(piece) && EscapeValue(piece) == n;
    DecodePiece(piece, n, rest);
  }

  lemma PlusDecodes(rest: bytes)
    ensures Decode(Ascii("+") + rest) == Ascii(" ") + Decode(rest)
  {
    assert Ascii("+") == [0x2b] && Ascii(" ") == [0x20];
    assert (Ascii("+") + rest)[1..] == rest;
  }

  predicate IsHexDigit(c: byte) { exists v: nat, upper :: v < 16 && c == HexDigit(v, upper) }

  lemma HexDigits(c: byte)
    ensures IsHexDigit(c) <==> IsHex(c)
  {
    if IsHex(c) {
      assert c == HexDigit(HexValue(c), c < 0x61);
    }
  }

  /** Any other byte is itself, also a percent sign without two hexadecimal digits behind it. */
  lemma OthersDecode(c: byte, rest: bytes)
    requires c != '+' as int
    requires c == '%' as int ==> |rest| < 2 || !IsHexDigit(rest[0]) || !IsHexDigit(rest[1])
    ensures Decode([c] + rest) == [c] + Decode(rest)
  {
    var s := [c] + rest;
    assert s[1..] == rest;
    if |rest| >= 2 {
      HexDigits(rest[0]);
      HexDigits(rest[1]);
      assert s[..3] == [c, rest[0], rest[1]];
    }
  }

  // ---- Forms -------------------------------------------------------------------------------

  /** Where `c` first is in `s`, or the length of `s`. */
  function Position(s: bytes, c: byte): (k: nat)
    ensures k <= |s| && (k < |s| ==> s[k] == c)
  {
    if s == [] || s[0] == c then 0 else 1 + Position(s[1..], c)
  }

  lemma {:induction false} PositionIsFirst(s: bytes, c: byte)
    ensures c !in s[..Position(s, c)]
  {
    if s != [] && s[0] != c {
      PositionIsFirst(s[1..], c);
      var k := Position(s, c);
      assert s[..k] == [s[0]] + s[1..][..k - 1];
    }
  }

  function Without(s: bytes, c: byte): (t: bytes) {
    if s == [] then []
    else Without(s[..|s| - 1], c) + (if s[|s| - 1] == c then [] else [s[|s| - 1]])
  }

  /** The name of a field goes up to the first equals sign; further ones are dropped from its value. */
  function Field(item: bytes): bytes { item[..Position(item, EQUALS)] }
  function Value(item: bytes): bytes { Without(item[Position(item, EQUALS)..], EQUALS) }

  type Fields = map<bytes, bytes>

  /** One item; it counts only if neither side is empty. */
  function Add(m: Fields, item: bytes): Fields {
    if Field(item) == [] || Value(item) == [] then m else m[Field(item) := Decode(Value(item))]
  }

  /** The items between ampersands, one after the other; a later value of a field replaces an earlier one. */
  function AddAll(m: Fields, s: bytes): Fields
    decreases |s|
  {
    var k := Position(s, AMPERSAND);
    if k == |s| then Add(m, s) else AddAll(Add(m, s[..k]), s[k + 1..])
  }

  /** A C string ends at its first NUL. */
  function CString(s: bytes): bytes { s[..Position(s, NUL)] }

  lemma {:induction false} PositionFront(s: bytes, c: byte, t: bytes)
    requires c !in s
    ensures Position(s + t, c) == |s| + Position(t, c)
  {
    if s == [] {
      assert s + t == t;
    } else {
      assert (s + t)[1..] == s[1..] + t;
      PositionFront(s[1..], c, t);
    }
  }

  lemma LongerValue(item: bytes, c: byte)
    requires EQUALS in item
    ensures Field(item + [c]) == Field(item)
    ensures Value(item + [c]) == Value(item) + (if c == EQUALS then [] else [c])
  {
    var i, k := item + [c], Position(item, EQUALS);
    var front, back := item[..k], item[k..];
    PositionIsFirst(item, EQUALS);
    assert item == front + back && i == front + (back + [c]);
    assert back != [] by { assert item[..|item|] == item; }
    PositionFront(front, EQUALS, back + [c]);
    assert i[..k] == front && i[k..] == back + [c];
    assert (back + [c])[..|back|] == back;
  }

  lemma LongerField(item: bytes, c: byte)
    requires EQUALS !in item
    ensures Field(item + [c]) == Field(item) + (if c == EQUALS then [] else [c])
    ensures Value(item + [c]) == Value(item) == []
  {
    var i := item + [c];
    PositionFront(item, EQUALS, [c]);
    PositionFront(item, EQUALS, []);
    assert item + [] == item && item[|item|..] == [] && i[|item|..] == [c] && i[|item| + 1..] == [];
    assert Without([c], EQUALS) == Without([], EQUALS) + (if c == EQUALS then [] else [c]) by {
      assert [c][..0] == [];
    }
    assert item[..|item|] == item && i[..|item|] == item && i[..|item| + 1] == i;
  }

  /** One more character of an item. */
  lemma Longer(item: bytes, c: byte)
    ensures var i := item + [c];
            && (EQUALS in item ==> Field(i) == Field(item) &&
                                   Value(i) == Value(item) + (if c == EQUALS then [] else [c]))
            && (EQUALS !in item ==> Field(i) == Field(item) + (if c == EQUALS then [] else [c]) &&
                                    Value(i) == Value(item) == [])
  {
    if EQUALS in item {
      LongerValue(item, c);
    } else {
      LongerField(item, c);
    }
  }

  lemma ItemInFront(item: bytes, s: bytes, k: nat)
    requires k < |s| && s[k] == AMPERSAND && AMPERSAND !in item
    ensures var t := item + s[k..];
            Position(t, AMPERSAND) == |item| < |t| && t[..|item|] == item && t[|item| + 1..] == [] + s[k + 1..]
  {
    PositionFront(item, AMPERSAND, s[k..]);
  }

  lemma NextItem(m: Fields, item: bytes, s: bytes, k: nat)
    requires k < |s| && s[k] == AMPERSAND && AMPERSAND !in item
    ensures AddAll(m, item + s[k..]) == AddAll(Add(m, item), [] + s[k + 1..])
  {
    ItemInFront(item, s, k);
  }

  lemma LastItem(m: Fields, item: bytes)
    requires AMPERSAND !in item
    ensures AddAll(m, item) == Add(m, item)
  {
    PositionFront(item, AMPERSAND, []);
    assert item + [] == item;
  }

  /** The loop's guard is what delimits a C string. */
  lemma InCString(str: bytes, pos: nat)
    requires pos <= |CString(str)|
    ensures if pos < |str| && str[pos] != NUL then pos < |CString(str)| && CString(str)[pos] == str[pos]
            else pos == |CString(str)|
  {
    PositionIsFirst(str, NUL);
    if pos < |CString(str)| {
      assert CString(str)[pos] == str[pos];
    }
  }

  /** One round of the loop: `item` is what has been read of the current item. */
  lemma ItemStep(m: Fields, item: bytes, s: bytes, k: nat)
    requires k < |s| && AMPERSAND !in item
    ensures s[k] != AMPERSAND ==> AMPERSAND !in item + [s[k]] && item + s[k..] == item + [s[k]] + s[k + 1..]
    ensures s[k] != EQUALS ==> (EQUALS in item + [s[k]] <==> EQUALS in item)
  {
  }

  /** Add an item whose field and value have been read. */
  method AddItem(map_: Fields, field: bytes, value: bytes, ghost item: bytes) returns (m: Fields)
    requires field == Field(item) && value == Value(item)
    ensures m == Add(map_, item)
  {
    m := map_;
    if field != [] && value != [] {
      var decoded := UrlDecode(value);
      m := m[field := decoded];
    }
  }

  method ParseFormUrlencoded(map_: Fields, str: bytes) returns (m: Fields)
    ensures m == AddAll(map_, CString(str))
  {
    ghost var s, item: bytes := CString(str), [];
    m := map_;
    var is_field, field, value, pos := true, [], [], 0;
    assert [] + s[0..] == s;
    while pos < |str| && str[pos] != NUL
      invariant 0 <= pos <= |s| && AMPERSAND !in item
      invariant is_field <==> EQUALS !in item
      invariant field == Field(item) && value == Value(item)
      invariant AddAll(m, item + s[pos..]) == AddAll(map_, s)
      decreases |str| - pos
    {
      InCString(str, pos);
      var c := str[pos];
      if c == AMPERSAND {
        NextItem(m, item, s, pos);
        m := AddItem(m, field, value, item);
        field, value, is_field, item := [], [], true, [];
      } else {
        ItemStep(m, item, s, pos);
        Longer(item, c);
        item := item + [c];
        if c == EQUALS {
          is_field := false;
        } else if is_field {
          field := field + [c];
        } else {
          value := value + [c];
        }
      }
      pos := pos + 1;
    }
    InCString(str, pos);
    assert item + s[pos..] == item;
    LastItem(m, item);
    m := AddItem(m, field, value, item);
  }

  // ---- Items in plain text -----------------------------------------------------------------

  /** An item in front of an ampersand is dropped if its name or its value is empty; otherwise its name is bound
      to its decoded value. */
  lemma ItemIs(m: Fields, name: bytes, value: bytes, rest: bytes)
    requires forall c | c in name :: c != '&' as int && c != '=' as int
    requires forall c | c in value :: c != '&' as int && c != '=' as int
    ensures AddAll(m, name + Ascii("=") + value + Ascii("&") + rest) ==
            AddAll(if name == [] || value == [] then m else m[name := Decode(value)], rest)
  {
    assert Ascii("=") == [0x3d] && Ascii("&") == [0x26];
    var item, tail := name + [EQUALS] + value, [AMPERSAND] + rest;
    assert name + Ascii("=") + value + Ascii("&") + rest == item + tail;
    NextItem(m, item, tail, 0);
    assert tail[0..] == tail && [] + tail[1..] == rest;
    ItemAdds(m, name, value);
  }

  lemma ItemAdds(m: Fields, name: bytes, value: bytes)
    requires EQUALS !in name && EQUALS !in value
    ensures Add(m, name + [EQUALS] + value) == if name == [] || value == [] then m else m[name := Decode(value)]
  {
    FieldOf(name, value, name + [EQUALS] + value);
    WithoutFront(value);
  }

  lemma FieldOf(name: bytes, value: bytes, item: bytes)
    requires EQUALS !in name && item == name + [EQUALS] + value
    ensures Field(item) == name && item[Position(item, EQUALS)..] == [EQUALS] + value
  {
    Associate(name, [EQUALS], value);
    PositionFront(name, EQUALS, [EQUALS] + value);
    FrontOfSum(name, [EQUALS] + value);
  }

  /** An item without an equals sign is dropped. */
  lemma NoEquals(m: Fields, name: bytes, rest: bytes)
    requires forall c | c in name :: c != '&' as int && c != '=' as int
    ensures AddAll(m, name + Ascii("&") + rest) == AddAll(m, rest)
  {
    assert Ascii("&") == [0x26];
    var tail := [AMPERSAND] + rest;
    assert name + Ascii("&") + rest == name + tail;
    NextItem(m, name, tail, 0);
    assert tail[0..] == tail && [] + tail[1..] == rest;
    PositionFront(name, EQUALS, []);
    assert name + [] == name && name[|name|..] == [];
  }

  /** Further equals signs are dropped from a value. */
  lemma MoreEquals(m: Fields, name: bytes, value: bytes, more: bytes)
    requires name != [] && value + more != [] && forall c | c in name :: c != '=' as int
    requires forall c | c in value :: c != '=' as int
    requires forall c | c in more :: c != '=' as int
    ensures Add(m, name + Ascii("=") + value + Ascii("=") + more) == m[name := Decode(value + more)]
  {
    assert Ascii("=") == [0x3d];
    var item, back := name + Ascii("=") + value + Ascii("=") + more, [EQUALS] + value + [EQUALS] + more;
    assert item == name + back;
    PositionFront(name, EQUALS, back);
    assert item[..|name|] == name && item[|name|..] == back;
    WithoutMiddle([EQUALS] + value, more);
    WithoutFront(value);
  }

  lemma {:induction false} WithoutMiddle(front: bytes, more: bytes)
    requires EQUALS !in more
    ensures Without(front + [EQUALS] + more, EQUALS) == Without(front, EQUALS) + more
    decreases |more|
  {
    var s := front + [EQUALS] + more;
    if more == [] {
      assert s[..|s| - 1] == front;
    } else {
      var n := |more| - 1;
      assert s[..|s| - 1] == front + [EQUALS] + more[..n];
      WithoutMiddle(front, more[..n]);
      assert more[..n] + [more[n]] == more;
    }
  }

  /** The string ends at a NUL. */
  lemma CStringIs(s: bytes, rest: bytes)
    requires forall c | c in s :: c != 0
    ensures CString(s + [0] + rest) == s && CString(s) == s
  {
    PositionFront(s, NUL, [0] + rest);
    PositionFront(s, NUL, []);
    assert s + [0] + rest == s + ([0] + rest) && s + [] == s;
  }

  // ---- The round trip ----------------------------------------------------------------------

  /** A field and its value, and the pieces in which an encoder writes the value. */
  datatype Pair = Pair(field: bytes, value: bytes, pieces: seq<bytes>) {
    predicate Valid() {
      && field != [] && EQUALS !in field && AMPERSAND !in field && NUL !in field
      && value != [] && AllWrite(pieces, value)
    }

    function Print(): bytes { field + [EQUALS] + Concat(pieces) }
  }

  function Print(pairs: seq<Pair>): bytes {
    if pairs == [] then []
    else if |pairs| == 1 then pairs[0].Print()
    else pairs[0].Print() + [AMPERSAND] + Print(pairs[1..])
  }

  /** A later pair for the same field replaces an earlier one. */
  function Gather(m: Fields, pairs: seq<Pair>): Fields
    decreases |pairs|
  {
    if pairs == [] then m else Gather(m[pairs[0].field := pairs[0].value], pairs[1..])
  }

  predicate Plain(s: bytes) { EQUALS !in s && AMPERSAND !in s && NUL !in s }

  lemma {:induction false} WrittenIsPlain(pieces: seq<bytes>, x: bytes)
    requires AllWrite(pieces, x)
    ensures Plain(Concat(pieces)) && |Concat(pieces)| >= |x|
    decreases |pieces|
  {
    if pieces != [] {
      var piece := pieces[0];
      assert Writes(piece, x[0]);
      if IsEscape(piece) {
        assert piece == [piece[0], piece[1], piece[2]];
      }
      WrittenIsPlain(pieces[1..], x[1..]);
    }
  }

  lemma {:induction false} WithoutFront(w: bytes)
    requires EQUALS !in w
    ensures Without([EQUALS] + w, EQUALS) == w
  {
    var s := [EQUALS] + w;
    if w == [] {
      assert s[..0] == [];
    } else {
      var n := |w| - 1;
      assert s[..|s| - 1] == [EQUALS] + w[..n];
      WithoutFront(w[..n]);
      assert w[..n] + [w[n]] == w;
    }
  }

  lemma AddPair(m: Fields, p: Pair)
    requires p.Valid()
    ensures Add(m, p.Print()) == m[p.field := p.value]
    ensures AMPERSAND !in p.Print() && NUL !in p.Print()
  {
    var w := Concat(p.pieces);
    WrittenIsPlain(p.pieces, p.value);
    Associate(p.field, [EQUALS], w);
    PositionFront(p.field, EQUALS, [EQUALS] + w);
    assert p.Print()[..|p.field|] == p.field && p.Print()[|p.field|..] == [EQUALS] + w;
    WithoutFront(w);
    DecodeInverts(p.pieces, p.value);
  }

  lemma {:induction false} PrintIsCString(pairs: seq<Pair>)
    requires forall p | p in pairs :: p.Valid()
    ensures NUL !in Print(pairs)
    decreases |pairs|
  {
    if pairs != [] {
      AddPair(map[], pairs[0]);
      PrintIsCString(pairs[1..]);
    }
  }

  lemma {:induction false} AddAllPrinted(m: Fields, pairs: seq<Pair>)
    requires pairs != [] && forall p | p in pairs :: p.Valid()
    ensures AddAll(m, Print(pairs)) == Gather(m, pairs)
    decreases |pairs|
  {
    var item := pairs[0].Print();
    AddPair(m, pairs[0]);
    if |pairs| == 1 {
      LastItem(m, item);
      assert pairs[1..] == [];
    } else {
      var rest := [AMPERSAND] + Print(pairs[1..]);
      Associate(item, [AMPERSAND], Print(pairs[1..]));
      NextItem(m, item, rest, 0);
      assert rest[0..] == rest && [] + rest[1..] == Print(pairs[1..]);
      AddAllPrinted(m[pairs[0].field := pairs[0].value], pairs[1..]);
    }
  }

  lemma {:induction false} GatherIs(m: Fields, pairs: seq<Pair>, whole: Fields)
    requires forall p | p in pairs :: p.field in whole && whole[p.field] == p.value
    requires forall k | k in m :: k in whole && m[k] == whole[k]
    requires forall k | k in whole :: k in m || exists p | p in pairs :: p.field == k
    ensures Gather(m, pairs) == whole
    decreases |pairs|
  {
    if pairs != [] {
      GatherIs(m[pairs[0].field := pairs[0].value], pairs[1..], whole);
    }
  }

  /** Parsing gives back every form, whichever encoder has written the values and in whichever order. */
  lemma RoundTrip(form: Fields, pairs: seq<Pair>)
    requires forall p | p in pairs :: p.Valid() && p.field in form && form[p.field] == p.value
    requires forall k | k in form :: exists p | p in pairs :: p.field == k
    ensures AddAll(map[], CString(Print(pairs))) == form
  {
    PrintIsCString(pairs);
    var s := Print(pairs);
    assert CString(s) == s by {
      PositionFront(s, NUL, []);
      assert s + [] == s;
    }
    if pairs != [] {
      AddAllPrinted(map[], pairs);
    }
    GatherIs(map[], pairs, form);
  }
}
