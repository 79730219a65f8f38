/** Requests in plain text: what the parser makes of ASCII, stated with the characters themselves. */
module HttpText {
  import opened Bytes
  import opened HttpParser
  import opened HttpGrammar
  import opened HttpRoundTrip
  import opened Wrappers

  // ---- Characters --------------------------------------------------------------------------

  /** The characters of the token table: letters fold to lower case, printable characters but the backslash are
      themselves, and so are space, CR and LF. No other byte may occur. */
  lemma TokenIs(c: char)
    requires c as int < 0x100
    ensures Token(c as int) ==
            if 'A' <= c <= 'Z' then c as int - 'A' as int + 'a' as int
            else if c == ' ' || c == '\r' || c == '\n' || ('!' <= c <= '~' && c != '\\') then c as int
            else 0
  {
  }

  /** The characters of a target: printable, but no space, hash or question mark. */
  lemma UrlCharIs(c: char)
    requires c as int < 0x100
    ensures IsUrlChar(c as int) <==> '!' <= c <= '~' && c != '#' && c != '?'
  {
  }

  /** The byte is this letter, in either case. */
  predicate IsLetter(b: byte, upper: char)
    requires 'A' <= upper <= 'Z'
  {
    b == upper as int || b == upper as int - 'A' as int + 'a' as int
  }

  // ---- Words -------------------------------------------------------------------------------

  /** The nine methods. */
  function Word(m: Method): (s: string)
    requires !m.UNKNOWN?
    ensures s != "" && IsAscii(s) && forall i | 0 <= i < |s| :: 'A' <= s[i] <= 'Z'
  {
    match m
    case GET => "GET"
    case POST => "POST"
    case HEAD => "HEAD"
    case PUT => "PUT"
    case DELETE => "DELETE"
    case CONNECT => "CONNECT"
    case OPTIONS => "OPTIONS"
    case TRACE => "TRACE"
    case PATCH => "PATCH"
  }

  /** The method's word, in any letter case. */
  predicate Says(word: bytes, m: Method)
    requires !m.UNKNOWN?
  {
    |word| == |Word(m)| && forall i | 0 <= i < |word| :: IsLetter(word[i], Word(m)[i])
  }

  lemma NameIsWord(m: Method)
    requires !m.UNKNOWN?
    ensures |Name(m)| == |Word(m)|
    ensures forall i | 0 <= i < |Word(m)| :: Name(m)[i] == Word(m)[i] as int - 'A' as int + 'a' as int
  {
  }

  lemma SaysIsSpells(word: bytes, m: Method)
    requires !m.UNKNOWN?
    ensures Says(word, m) <==> |word| == |Name(m)| && Spells(word, 0, Name(m))
  {
    NameIsWord(m);
    if |word| == |Name(m)| {
      forall i | 0 <= i < |word| ensures Token(word[0 + i]) == Name(m)[i] <==> IsLetter(word[i], Word(m)[i]) {
        assert 'A' <= Word(m)[i] <= 'Z';
      }
    }
  }

  lemma WordSaysItself(m: Method)
    requires !m.UNKNOWN?
    ensures Says(Ascii(Word(m)), m)
  {
    forall i | 0 <= i < |Word(m)| ensures IsLetter(Ascii(Word(m))[i], Word(m)[i]) {
      assert 'A' <= Word(m)[i] <= 'Z';
    }
  }

  predicate IsMethodWord(word: bytes) { exists m: Method :: !m.UNKNOWN? && Says(word, m) }

  // ---- Request lines that are refused ------------------------------------------------------

  /** The first `offset` tokens of `buf` are those of the method's name. */
  predicate Begun(buf: bytes, m: Method, offset: nat) {
    offset <= |Name(m)| && offset <= |buf| && forall i | 0 <= i < offset :: Token(buf[i]) == Name(m)[i]
  }

  lemma NameHasNoSpace(m: Method, i: nat)
    requires i < |Name(m)|
    ensures Name(m)[i] != SP && Name(m)[i] != 0
  {
  }

  /** `buf` starts with a word that has no space, and a space. */
  predicate FirstWordIs(buf: bytes, word: bytes) {
    |word| < |buf| && buf[|word|] == SP && forall i | 0 <= i < |word| :: buf[i] == word[i] && buf[i] != SP
  }

  lemma OtherWordStep(buf: bytes, word: bytes, m: Method, offset: nat)
    requires !m.UNKNOWN? && 0 < offset && Begun(buf, m, offset) && FirstWordIs(buf, word)
    requires offset <= |word| && !Says(word, m)
    ensures Step(buf, AtMethod(m, offset)).verdict == ERROR ||
            (Step(buf, AtMethod(m, offset)) == Stepped(CONTINUE, AtMethod(m, offset + 1)) &&
             Begun(buf, m, offset + 1) && offset + 1 <= |word|)
  {
    if offset < |Name(m)| {
      NameHasNoSpace(m, offset);
    } else if offset == |word| {
      BegunIsSaid(buf, word, m);
    }
  }

  lemma {:induction false} OtherWordRun(buf: bytes, word: bytes, m: Method, offset: nat)
    requires !m.UNKNOWN? && 0 < offset && Begun(buf, m, offset) && FirstWordIs(buf, word)
    requires offset <= |word| && !Says(word, m)
    ensures Run(buf, AtMethod(m, offset)).verdict == ERROR
    decreases |Name(m)| - offset
  {
    OtherWordStep(buf, word, m, offset);
    RunUnroll(buf, AtMethod(m, offset));
    if Step(buf, AtMethod(m, offset)).verdict == CONTINUE {
      OtherWordRun(buf, word, m, offset + 1);
    }
  }

  lemma BegunIsSaid(buf: bytes, word: bytes, m: Method)
    requires !m.UNKNOWN? && Begun(buf, m, |Name(m)|) && |word| == |Name(m)|
    requires forall i | 0 <= i < |word| :: buf[i] == word[i]
    ensures Says(word, m)
  {
    SaysIsSpells(word, m);
    assert forall i | 0 <= i < |word| :: Token(word[0 + i]) == Name(m)[i];
  }

  lemma WordThenSpace(buf: bytes, word: bytes)
    requires At(buf, 0, word + [SP]) && SP !in word
    ensures FirstWordIs(buf, word)
  {
    AtConcat(buf, 0, word, [SP]);
    assert buf[|word|..|word| + 1][0] == SP;
    forall i | 0 <= i < |word| ensures buf[i] == word[i] && buf[i] != SP {
      assert buf[0..|word|][i] == word[i] && word[i] in word;
    }
  }

  /** A request line whose first word is none of the nine methods is refused, whatever follows. */
  lemma OtherMethodsRefused(word: bytes, rest: bytes)
    requires SP !in word && !IsMethodWord(word)
    ensures Run(word + Ascii(" ") + rest, START).verdict == ERROR
  {
    var buf := word + Ascii(" ") + rest;
    assert Ascii(" ") == [SP];
    assert buf[0..|word| + 1] == word + [SP];
    forall m: Method | !m.UNKNOWN? ensures !Says(word, m) {
    }
    WordThenSpace(buf, word);
    RunUnroll(buf, START);
    if word != [] {
      assert buf[0] == word[0] && word[0] in word;
      var s := Step(buf, START);
      if s.verdict == CONTINUE {
        if s.p.status.S_METHOD? {
          assert Begun(buf, s.p.fields.verb, 1);
          OtherWordRun(buf, word, s.p.fields.verb, 1);
        } else {
          PWordRefused(buf, word, s.p);
        }
      }
    }
  }

  lemma PWordRefused(buf: bytes, word: bytes, p: Parser)
    requires word != [] && FirstWordIs(buf, word) && Token(buf[0]) == LETTER_P
    requires forall m: Method | !m.UNKNOWN? :: !Says(word, m)
    requires p == Parser(S_METHOD_P, 1, 0, NO_FIELDS)
    ensures Run(buf, p).verdict == ERROR
  {
    RunUnroll(buf, p);
    var s := Step(buf, p);
    if s.verdict == CONTINUE {
      assert Token(SP) == SP;
      assert Begun(buf, s.p.fields.verb, 2);
      OtherWordRun(buf, word, s.p.fields.verb, 2);
    }
  }

  lemma {:induction false} WordRun(buf: bytes, m: Method, offset: nat)
    requires !m.UNKNOWN? && 0 < offset <= |Name(m)| && |buf| > |Name(m)|
    requires Spells(buf, 0, Name(m)) && buf[|Name(m)|] == SP
    ensures Run(buf, AtMethod(m, offset)) == Run(buf, AtMethod(m, |Name(m)| + 1))
    decreases |Name(m)| - offset
  {
    RunUnroll(buf, AtMethod(m, offset));
    if offset < |Name(m)| {
      NameHasNoSpace(m, offset);
      assert Token(buf[0 + offset]) == Name(m)[offset];
      WordRun(buf, m, offset + 1);
    }
  }

  /** From the start to the character behind the method's word and one space. */
  lemma MethodWordRun(buf: bytes, word: bytes, m: Method)
    requires !m.UNKNOWN? && Says(word, m) && At(buf, 0, word + [SP])
    ensures |word| + 1 <= |buf| && Run(buf, START) == Run(buf, AtMethod(m, |word| + 1))
  {
    SaysIsSpells(word, m);
    AtConcat(buf, 0, word, [SP]);
    assert buf[|word|..|word| + 1][0] == SP;
    forall i | 0 <= i < |word| ensures Token(buf[0 + i]) == Name(m)[i] {
      assert buf[0..|word|][i] == word[0 + i];
    }
    MethodStart(buf, [], m);
    WordRun(buf, m, if Name(m)[0] == LETTER_P then 2 else 1);
  }

  /** The characters of a target that are recorded. */
  predicate IsTarget(s: bytes) { forall i | 0 <= i < |s| :: '!' as int <= s[i] <= '~' as int && s[i] !in Ascii("#?\\") }

  lemma TargetIsUrl(s: bytes)
    requires IsTarget(s)
    ensures IsUrl(s) && SP !in s
  {
    assert Ascii("#?\\") == [0x23, 0x3f, 0x5c];
    forall i | 0 <= i < |s| ensures IsUrlChar(s[i]) && Token(s[i]) != 0 && s[i] != SP {
      assert 0x23 in Ascii("#?\\") && 0x3f in Ascii("#?\\") && 0x5c in Ascii("#?\\");
    }
  }

  /** A path is refused at a character that is neither recorded nor a space nor a question mark. */
  lemma BadPathRefused(m: Method, path: bytes, bad: byte, rest: bytes)
    requires !m.UNKNOWN? && IsTarget(path)
    requires !IsTarget([bad]) && bad !in Ascii(" ?")
    ensures Run(Ascii(Word(m)) + Ascii(" ") + path + [bad] + rest, START).verdict == ERROR
  {
    var word := Ascii(Word(m));
    assert Ascii(" ") == [SP] && Ascii(" ?") == [SP, QUESTION];
    assert bad != SP && bad != QUESTION by { assert SP in Ascii(" ?") && QUESTION in Ascii(" ?"); }
    WordSaysItself(m);
    PathSlices(word, [SP], path, [bad], rest);
    PathRefused(word + [SP] + path + [bad] + rest, m, word, path, bad);
  }

  lemma PathSlices(a: bytes, b: bytes, c: bytes, d: bytes, e: bytes)
    ensures var s := a + b + c + d + e;
            var k, l := |a| + |b|, |a| + |b| + |c|;
            s[0..k] == a + b && s[k..l] == c && s[l..l + |d|] == d
  {
  }

  lemma PathRefused(buf: bytes, m: Method, word: bytes, path: bytes, bad: byte)
    requires !m.UNKNOWN? && Says(word, m) && IsTarget(path) && !IsTarget([bad]) && bad != SP && bad != QUESTION
    requires var n := |word| + 1; At(buf, 0, word + [SP]) && At(buf, n, path) && At(buf, n + |path|, [bad])
    ensures Run(buf, START).verdict == ERROR
  {
    var n := |word| + 1;
    assert buf[n + |path|] == buf[n + |path|..n + |path| + 1][0];
    SaysIsSpells(word, m);
    MethodWordRun(buf, word, m);
    RefusedThere(buf, m, n, path, bad);
  }

  lemma BadIsRefused(bad: byte)
    requires !IsTarget([bad]) && bad != SP && bad != QUESTION
    ensures Token(bad) == 0 || (!IsUrlChar(bad) && Token(bad) != SP)
  {
    if !('!' as int <= bad <= '~' as int) {
      assert Token(bad) == 0 || bad == CR || bad == LF;
    } else {
      assert bad in Ascii("#?\\");
      assert Ascii("#?\\") == [0x23, 0x3f, 0x5c];
    }
  }

  /** From behind the method's word and a space to behind the path. */
  lemma ToPath(buf: bytes, m: Method, n: nat, path: bytes)
    requires !m.UNKNOWN? && n == |Name(m)| + 1 && n + |path| < |buf| && buf[n..n + |path|] == path && IsTarget(path)
    requires path == [] ==> Token(buf[n]) != 0 && buf[n] != SP
    ensures Run(buf, AtMethod(m, n)) ==
            Run(buf, Parser(S_PATH, n + |path|, n, NO_FIELDS.(verb := m, path := path)))
  {
    TargetIsUrl(path);
    var p, q := AtMethod(m, n), Parser(S_PATH, n, n, NO_FIELDS.(verb := m));
    RunUnroll(buf, p);
    if path != [] {
      assert buf[n] == path[0] by { assert buf[n..n + |path|][0] == buf[n]; }
      UrlToken(path[0]);
      NotASpace(path[0]);
    }
    PathRun(buf, [], q, path);
    assert [] + path == path;
  }

  lemma RefusedThere(buf: bytes, m: Method, n: nat, path: bytes, bad: byte)
    requires !m.UNKNOWN? && n == |Name(m)| + 1 && n + |path| < |buf| && buf[n..n + |path|] == path
    requires buf[n + |path|] == bad && IsTarget(path) && !IsTarget([bad]) && bad != SP && bad != QUESTION
    ensures Run(buf, AtMethod(m, n)).verdict == ERROR
  {
    BadIsRefused(bad);
    if path == [] && Token(bad) == 0 {
      RunUnroll(buf, AtMethod(m, n));
    } else {
      ToPath(buf, m, n, path);
      RunUnroll(buf, Parser(S_PATH, n + |path|, n, NO_FIELDS.(verb := m, path := path)));
    }
  }

  /** A query string is refused at a character that is neither recorded nor a space, be it a second question
      mark. */
  lemma BadQueryRefused(m: Method, path: bytes, query: bytes, bad: byte, rest: bytes)
    requires !m.UNKNOWN? && IsTarget(path) && IsTarget(query) && !IsTarget([bad]) && bad !in Ascii(" ")
    ensures Run(Ascii(Word(m)) + Ascii(" ") + path + Ascii("?") + query + [bad] + rest, START).verdict == ERROR
  {
    var word := Ascii(Word(m));
    assert Ascii(" ") == [SP] && Ascii("?") == [QUESTION];
    WordSaysItself(m);
    Slices(word, [SP], path, [QUESTION], query, [bad], rest);
    QueryRefused(word + [SP] + path + [QUESTION] + query + [bad] + rest, m, word, path, query, bad);
  }

  lemma ByteAt(buf: bytes, at: nat, b: byte)
    requires At(buf, at, [b])
    ensures buf[at] == b
  {
    assert buf[at..at + 1][0] == b;
  }

  lemma ToTarget(buf: bytes, m: Method, word: bytes, path: bytes)
    requires !m.UNKNOWN? && Says(word, m) && IsTarget(path)
    requires var n := |word| + 1;
             && At(buf, 0, word + [SP]) && At(buf, n, path) && n + |path| < |buf| && buf[n + |path|] == QUESTION
    ensures var n := |word| + 1;
            Run(buf, START) == Run(buf, Parser(S_PATH, n + |path|, n, NO_FIELDS.(verb := m, path := path)))
  {
    SaysIsSpells(word, m);
    MethodWordRun(buf, word, m);
    ToPath(buf, m, |word| + 1, path);
  }

  lemma QueryRefused(buf: bytes, m: Method, word: bytes, path: bytes, query: bytes, bad: byte)
    requires !m.UNKNOWN? && Says(word, m) && IsTarget(path) && IsTarget(query) && !IsTarget([bad]) && bad != SP
    requires var n, u := |word| + 1, |word| + 1 + |path|;
             && At(buf, 0, word + [SP]) && At(buf, n, path) && At(buf, u, [QUESTION]) && At(buf, u + 1, query)
             && At(buf, u + 1 + |query|, [bad])
    ensures Run(buf, START).verdict == ERROR
  {
    var n, u := |word| + 1, |word| + 1 + |path|;
    ByteAt(buf, u, QUESTION);
    ByteAt(buf, u + 1 + |query|, bad);
    ToTarget(buf, m, word, path);
    RefusedInQuery(buf, Parser(S_PATH, u, n, NO_FIELDS.(verb := m, path := path)), query, bad);
  }

  lemma Slices(a: bytes, b: bytes, c: bytes, d: bytes, e: bytes, f: bytes, g: bytes)
    ensures var s := a + b + c + d + e + f + g;
            var k, l, m, n := |a| + |b|, |a| + |b| + |c|, |a| + |b| + |c| + |d|, |a| + |b| + |c| + |d| + |e|;
            s[0..k] == a + b && s[k..l] == c && s[l..m] == d && s[m..n] == e && s[n..n + |f|] == f
  {
  }

  lemma RefusedInQuery(buf: bytes, p: Parser, query: bytes, bad: byte)
    requires p.status == S_PATH && p.offset + 1 + |query| < |buf| && buf[p.offset] == QUESTION
    requires buf[p.offset + 1..p.offset + 1 + |query|] == query && buf[p.offset + 1 + |query|] == bad
    requires IsTarget(query) && !IsTarget([bad]) && bad != SP
    ensures Run(buf, p).verdict == ERROR
  {
    var q := p.(status := S_QUERY_STRING, offset := p.offset + 1);
    TargetIsUrl(query);
    RunUnroll(buf, p);
    QueryRun(buf, [], q, query);
    if bad != QUESTION {
      BadIsRefused(bad);
    }
    RunUnroll(buf, q.(offset := q.offset + |query|,
                      fields := q.fields.(query_string := q.fields.query_string + query)));
  }

  // ---- A whole request ---------------------------------------------------------------------

  /** A value that is one word: printable characters, and no colon in front. */
  predicate IsWord(s: bytes) {
    (forall i | 0 <= i < |s| :: '!' as int <= s[i] <= '~' as int && s[i] != '\\' as int) &&
    (s != [] ==> s[0] != ':' as int)
  }

  predicate AreDigits(s: bytes) { forall i | 0 <= i < |s| :: '0' as int <= s[i] <= '9' as int }

  /** The number that a decimal numeral means. */
  function Numeral(s: bytes): nat
    requires AreDigits(s)
  {
    if s == [] then 0 else 10 * Numeral(s[..|s| - 1]) + (s[|s| - 1] - '0' as int)
  }

  lemma {:induction false} AccumulateIs(s: bytes)
    requires AreDigits(s)
    ensures IsDecimal(s) && Accumulate(0, s) == Numeral(s) % 4294967296
  {
    if s != [] {
      var front, last := s[..|s| - 1], s[|s| - 1..];
      AccumulateIs(front);
      assert s == front + last && last[1..] == [];
      assert IsDecimal(last);
      AccumulateConcat(0, front, last);
      Wraps(Numeral(front), s[|s| - 1] - '0' as int);
    }
  }

  lemma Wraps(n: nat, d: nat)
    ensures (n % 4294967296 * 10 + d) % 4294967296 == (10 * n + d) % 4294967296
  {
  }

  /** The name, in any letter case, is the `word` of a header. */
  predicate Names(name: bytes, word: string)
    requires IsAscii(word)
  {
    |name| == |word| && forall i | 0 <= i < |name| ::
      if 'A' <= word[i] <= 'Z' then IsLetter(name[i], word[i]) else name[i] == word[i] as int
  }

  lemma LengthName(name: bytes)
    requires Names(name, "CONTENT-LENGTH")
    ensures |name| == |CONTENT_LENGTH| && Spells(name, 0, CONTENT_LENGTH) && Clean(name) && COLON !in name
  {
  }

  lemma TypeName(name: bytes)
    requires Names(name, "CONTENT-TYPE")
    ensures |name| == |CONTENT_TYPE| && Spells(name, 0, CONTENT_TYPE) && Clean(name) && COLON !in name
  {
  }

  lemma KeyName(name: bytes)
    requires Names(name, "SEC-WEBSOCKET-KEY")
    ensures |name| == |SEC_WEBSOCKET_KEY| && Spells(name, 0, SEC_WEBSOCKET_KEY) && Clean(name) && COLON !in name
  {
  }

  lemma WordIsValue(v: bytes)
    requires IsWord(v)
    ensures Clean(v) && SP !in v && (v != [] ==> v[0] != COLON)
  {
  }

  /** A header whose name is one of the three, and whose value is a word. */
  lemma PlainHeader(h: Header, word: bytes)
    requires word in {CONTENT_LENGTH, CONTENT_TYPE, SEC_WEBSOCKET_KEY} && h.Is(word)
    requires Clean(h.name) && COLON !in h.name
    requires IsWord(h.value) && (word == CONTENT_LENGTH ==> IsDecimal(h.value))
    ensures h.Valid()
    ensures forall other | other in {CONTENT_LENGTH, CONTENT_TYPE, SEC_WEBSOCKET_KEY} && other != word :: !h.Is(other)
  {
    WordIsValue(h.value);
    WordsDiffer(h.name);
  }

  lemma DigitsAreWord(s: bytes)
    requires AreDigits(s)
    ensures IsWord(s)
  {
  }

  /** The text of a request with these three headers. */
  function PlainText(word: bytes, path: bytes, query: bytes, type_: Header, key: Header, length: Header): bytes {
    word + Ascii(" ") + path + Ascii("?") + query + Ascii(" HTTP/1.1\r\n") +
    type_.name + Ascii(": ") + type_.value + Ascii("\r\n") +
    key.name + Ascii(": ") + key.value + Ascii("\r\n") +
    length.name + Ascii(": ") + length.value + Ascii("\r\n\r\n")
  }

  /** Such a request, with words and header names in any letter case: method, path, query and headers come back,
      the length as the number that its digits mean, modulo 2^32. */
  lemma PlainRequest(m: Method, word: bytes, path: bytes, query: bytes, type_: Header, key: Header, length: Header,
                     body: bytes)
    requires !m.UNKNOWN? && Says(word, m) && IsTarget(path) && IsTarget(query)
    requires Names(type_.name, "CONTENT-TYPE") && IsWord(type_.value)
    requires Names(key.name, "SEC-WEBSOCKET-KEY") && IsWord(key.value)
    requires Names(length.name, "CONTENT-LENGTH") && AreDigits(length.value)
    ensures var text := PlainText(word, path, query, type_, key, length);
            var s := Run(text + body, START);
            && s.verdict == FINISHED
            && s.p.fields == Fields(m, path, query, Numeral(length.value) % 4294967296, type_.value, key.value, |text|)
  {
    var r := RequestLine(m, word, path, Some(query), Ascii("HTTP/1.1"));
    PlainLineValid(m, word, path, query);
    PlainRoundTrip(r, type_, key, length, body);
    PlainTextIs(r, word, path, query, type_, key, length);
  }

  lemma PlainLineValid(m: Method, word: bytes, path: bytes, query: bytes)
    requires !m.UNKNOWN? && Says(word, m) && IsTarget(path) && IsTarget(query)
    ensures RequestLine(m, word, path, Some(query), Ascii("HTTP/1.1")).Valid()
  {
    SaysIsSpells(word, m);
    TargetIsUrl(path);
    TargetIsUrl(query);
  }

  lemma PlainRoundTrip(r: RequestLine, type_: Header, key: Header, length: Header, body: bytes)
    requires r.Valid()
    requires Names(type_.name, "CONTENT-TYPE") && IsWord(type_.value)
    requires Names(key.name, "SEC-WEBSOCKET-KEY") && IsWord(key.value)
    requires Names(length.name, "CONTENT-LENGTH") && AreDigits(length.value)
    ensures var text := PrintRequest(r, Lines([type_, key, length]));
            var s := Run(text + body, START);
            && s.verdict == FINISHED
            && s.p.fields == Fields(r.verb, r.path, r.Query(), Numeral(length.value) % 4294967296, type_.value,
                                    key.value, |text|)
  {
    PlainHeaders(type_, key, length);
    AccumulateIs(length.value);
    RoundTrip(r, [type_, key, length], body);
  }

  lemma PlainHeaders(type_: Header, key: Header, length: Header)
    requires Names(type_.name, "CONTENT-TYPE") && IsWord(type_.value)
    requires Names(key.name, "SEC-WEBSOCKET-KEY") && IsWord(key.value)
    requires Names(length.name, "CONTENT-LENGTH") && AreDigits(length.value)
    ensures type_.Valid() && key.Valid() && length.Valid()
    ensures var headers := [type_, key, length];
            && Found(headers, CONTENT_TYPE) == type_.value && Found(headers, SEC_WEBSOCKET_KEY) == key.value
            && Found(headers, CONTENT_LENGTH) == length.value
  {
    TypeName(type_.name);
    KeyName(key.name);
    LengthName(length.name);
    AccumulateIs(length.value);
    DigitsAreWord(length.value);
    PlainHeader(type_, CONTENT_TYPE);
    PlainHeader(key, SEC_WEBSOCKET_KEY);
    PlainHeader(length, CONTENT_LENGTH);
    FoundOnce([type_, key, length], CONTENT_TYPE, 0);
    FoundOnce([type_, key, length], SEC_WEBSOCKET_KEY, 1);
    FoundOnce([type_, key, length], CONTENT_LENGTH, 2);
  }

  lemma {:induction false} FirstWordEnds(v: bytes, tail: bytes)
    requires forall i | 0 <= i < |v| :: v[i] != SP && v[i] != CR
    ensures FirstWord(v + [SP] + tail) == v
    decreases |v|
  {
    var s := v + [SP] + tail;
    if v != [] {
      assert s[0] == v[0] && s[1..] == v[1..] + [SP] + tail;
      FirstWordEnds(v[1..], tail);
      assert [v[0]] + v[1..] == v;
    }
  }

  /** A value ends at the first space: what is behind it does not count. */
  lemma ValueEndsAtSpace(h: Header, word: bytes, tail: bytes)
    requires h.Is(word) && IsWord(h.value) && h.value != []
    ensures var line := h.name + Ascii(": ") + h.value + Ascii(" ") + tail;
            |word| <= |line| && Value(line, word) == h.value
  {
    LiteralsAre();
    var rest := h.value + [SP] + tail;
    var line := h.name + Ascii(": ") + h.value + Ascii(" ") + tail;
    assert line[|word|..] == [COLON, SP] + rest;
    var t: bytes := [COLON, SP] + rest;
    assert t[1..] == [SP] + rest && t[1..][1..] == rest;
    assert Trimmed(t) == Trimmed(t[1..]) == Trimmed(rest);
    assert rest[0] == h.value[0];
    FirstWordEnds(h.value, tail);
  }

  lemma AppendFour(x: bytes, a: bytes, b: bytes, c: bytes, d: bytes)
    ensures x + (a + b + c + d) == x + a + b + c + d
  {
  }

  lemma LiteralsAre()
    ensures Ascii(" ") == [SP] && Ascii("?") == [QUESTION] && Ascii(": ") == [COLON, SP]
    ensures Ascii("\r\n") == CRLF && Ascii("\r\n\r\n") == CRLF + CRLF
    ensures Ascii(" HTTP/1.1\r\n") == [SP] + (Ascii("HTTP/1.1") + CRLF)
  {
  }

  lemma FirstLineIs(r: RequestLine, query: bytes)
    requires r.query == Some(query) && r.version == Ascii("HTTP/1.1")
    ensures r.Print() == r.word + Ascii(" ") + r.path + Ascii("?") + query + Ascii(" HTTP/1.1\r\n")
  {
    LiteralsAre();
    var version := r.PrintVersion();
    Associate([QUESTION], query, version);
    Associate(r.path, [QUESTION], query + version);
    Associate(r.word, [SP], r.path + ([QUESTION] + (query + version)));
    Associate(r.word + [SP], r.path, [QUESTION] + (query + version));
    Associate(r.word + [SP] + r.path, [QUESTION], query + version);
    Associate(r.word + [SP] + r.path + [QUESTION], query, version);
  }

  lemma HeaderLineIs(h: Header)
    ensures h.Line() + CRLF == h.name + Ascii(": ") + h.value + Ascii("\r\n")
  {
    LiteralsAre();
  }

  lemma ThreeLines(a: Header, b: Header, c: Header, x: bytes)
    ensures x + Text(Lines([a, b, c])) == x + (a.Line() + CRLF) + (b.Line() + CRLF) + (c.Line() + CRLF)
  {
    var lines := Lines([a, b, c]);
    assert lines == [a.Line(), b.Line(), c.Line()];
    var last := [c.Line()];
    assert lines[1..] == [b.Line(), c.Line()] && [b.Line(), c.Line()][1..] == last && last[1..] == [];
    assert Text([c.Line()]) == c.Line() + CRLF + [] == c.Line() + CRLF;
    assert Text([b.Line(), c.Line()]) == b.Line() + CRLF + (c.Line() + CRLF);
    Associate(x, a.Line() + CRLF, b.Line() + CRLF + (c.Line() + CRLF));
    Associate(x + (a.Line() + CRLF), b.Line() + CRLF, c.Line() + CRLF);
  }

  lemma PlainTextIs(r: RequestLine, word: bytes, path: bytes, query: bytes, type_: Header, key: Header, length: Header)
    requires r.word == word && r.path == path && r.query == Some(query) && r.version == Ascii("HTTP/1.1")
    ensures PrintRequest(r, Lines([type_, key, length])) == PlainText(word, path, query, type_, key, length)
  {
    var x := r.Print();
    FirstLineIs(r, query);
    ThreeLines(type_, key, length, x);
    HeaderLineIs(type_);
    HeaderLineIs(key);
    HeaderLineIs(length);
    AppendFour(x, type_.name, Ascii(": "), type_.value, Ascii("\r\n"));
    var y := x + (type_.name + Ascii(": ") + type_.value + Ascii("\r\n"));
    AppendFour(y, key.name, Ascii(": "), key.value, Ascii("\r\n"));
    var z := y + (key.name + Ascii(": ") + key.value + Ascii("\r\n"));
    AppendFour(z, length.name, Ascii(": "), length.value, Ascii("\r\n"));
    LiteralsAre();
    Associate(z + length.name + Ascii(": ") + length.value, CRLF, CRLF);
  }
}
