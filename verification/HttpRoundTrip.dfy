/** Whole requests: the parser against the line-by-line reference, and print/parse round trips. */
module HttpRoundTrip {
  import opened Bytes
  import opened HttpParser
  import opened HttpGrammar
  import opened Wrappers

  // ---- Header lines and the end of the header ----------------------------------------------

  /** What is left of a line that starts at `k` when the parser takes it up: with fewer than nine bytes at
      hand it skips a c, and the next byte is taken for the line's first. */
  function Left(line: bytes, k: nat, cuts: seq<nat>, n: nat): (s: bytes)
    ensures |s| <= |line|
    decreases |line|
  {
    if line != [] && Token(line[0]) == LETTER_C && Seen(cuts, k, n) - k < 9 then Left(line[1..], k + 1, cuts, n)
    else line
  }

  /** The parser at the start of a header line. */
  function AtLine(offset: nat, f: Fields): Parser
    requires offset > 0
  {
    Parser(S_HEADER_FIELD, offset, offset - 1, f)
  }

  /** The end `short` of a line, taken up at `k`. */
  lemma ShortRun(buf: bytes, cuts: seq<nat>, k: nat, e: nat, m: nat, f: Fields, short: bytes)
    requires short != [] && LineAt(buf, k, short) && IsLine(short) && e == k + |short| + 2
    requires Token(short[0]) == LETTER_C ==> Seen(cuts, k, |buf|) - k >= 9
    ensures match LineMeaning(short, f)
            case None => Read(buf, cuts, Parser(S_HEADER_FIELD, k, m, f)).verdict == ERROR
            case Some(g) => Read(buf, cuts, Parser(S_HEADER_FIELD, k, m, f)) == Read(buf, cuts, AtLine(e, g))
  {
    var q := Parser(S_HEADER_FIELD, k, m, f);
    LineRun(buf, cuts, q, short);
    match LineMeaning(short, f)
    case None =>
    case Some(g) => assert NextLine(q.(fields := g), k + |short|) == AtLine(e, g);
  }

  /** At the start `k` of `line` the parser goes on as from the start of `short`, its end. */
  ghost predicate TakenUp(buf: bytes, cuts: seq<nat>, k: nat, m: nat, f: Fields, line: bytes, short: bytes)
    requires k <= |buf|
  {
    && |short| <= |line| && LineAt(buf, k + |line| - |short|, short) && IsLine(short)
    && (short != [] && Token(short[0]) == LETTER_C ==>
          Seen(cuts, k + |line| - |short|, |buf|) - (k + |line| - |short|) >= 9)
    && Read(buf, cuts, Parser(S_HEADER_FIELD, k, m, f)) ==
       Read(buf, cuts, Parser(S_HEADER_FIELD, k + |line| - |short|, m, f))
  }

  lemma TakenUpAtOnce(buf: bytes, cuts: seq<nat>, k: nat, m: nat, f: Fields, line: bytes)
    requires LineAt(buf, k, line) && IsLine(line)
    requires line != [] && Token(line[0]) == LETTER_C ==> Seen(cuts, k, |buf|) - k >= 9
    ensures TakenUp(buf, cuts, k, m, f, line, line)
  {
  }

  lemma TakenUpLater(buf: bytes, cuts: seq<nat>, k: nat, m: nat, f: Fields, line: bytes, short: bytes)
    requires LineAt(buf, k, line) && line != [] && Token(line[0]) == LETTER_C && Seen(cuts, k, |buf|) - k < 9
    requires k + 1 <= |buf| && TakenUp(buf, cuts, k + 1, m, f, line[1..], short)
    ensures TakenUp(buf, cuts, k, m, f, line, short)
  {
    assert buf[k] == line[0] by { assert buf[k..k + |line|][0] == line[0]; }
    StepTo(buf, cuts, Parser(S_HEADER_FIELD, k, m, f), Parser(S_HEADER_FIELD, k + 1, m, f));
  }

  lemma LineTail(buf: bytes, k: nat, line: bytes)
    requires LineAt(buf, k, line) && IsLine(line) && line != []
    ensures LineAt(buf, k + 1, line[1..]) && IsLine(line[1..])
  {
    assert buf[k + 1..k + |line|] == buf[k..k + |line|][1..];
  }

  /** The parser takes a line up where `Left` says. */
  lemma {:induction false} LeftTakenUp(buf: bytes, cuts: seq<nat>, k: nat, m: nat, f: Fields, line: bytes)
    requires LineAt(buf, k, line) && IsLine(line)
    ensures TakenUp(buf, cuts, k, m, f, line, Left(line, k, cuts, |buf|))
    decreases |line|
  {
    if line != [] && Token(line[0]) == LETTER_C && Seen(cuts, k, |buf|) - k < 9 {
      LineTail(buf, k, line);
      LeftTakenUp(buf, cuts, k + 1, m, f, line[1..]);
      TakenUpLater(buf, cuts, k, m, f, line, Left(line[1..], k + 1, cuts, |buf|));
    } else {
      TakenUpAtOnce(buf, cuts, k, m, f, line);
    }
  }

  /** A header line is worth what is left of it. */
  lemma FieldRun(buf: bytes, cuts: seq<nat>, k: nat, m: nat, f: Fields, line: bytes, short: bytes)
    requires k <= |buf| && TakenUp(buf, cuts, k, m, f, line, short) && short != []
    ensures match LineMeaning(short, f)
            case None => Read(buf, cuts, Parser(S_HEADER_FIELD, k, m, f)).verdict == ERROR
            case Some(g) =>
              k + |line| + 2 <= |buf| &&
              Read(buf, cuts, Parser(S_HEADER_FIELD, k, m, f)) == Read(buf, cuts, AtLine(k + |line| + 2, g))
  {
    ShortRun(buf, cuts, k + |line| - |short|, k + |line| + 2, m, f, short);
  }

  lemma EndRun(buf: bytes, cuts: seq<nat>, p: Parser)
    requires p.status == S_HEADER_FIELD && p.offset + 2 <= |buf| && buf[p.offset] == CR && buf[p.offset + 1] == LF
    ensures Read(buf, cuts, p).verdict == FINISHED
    ensures Read(buf, cuts, p).p.fields == p.fields.(header_len := p.offset + 2)
  {
    var q := p.(status := S_EOH, offset := p.offset + 1);
    StepTo(buf, cuts, p, q);
    ReadUnroll(buf, cuts, q);
  }

  /** A line of which nothing is left ends the header. */
  lemma NothingLeftRun(buf: bytes, cuts: seq<nat>, k: nat, m: nat, f: Fields, line: bytes)
    requires k <= |buf| && TakenUp(buf, cuts, k, m, f, line, [])
    ensures AnswerOf(Read(buf, cuts, Parser(S_HEADER_FIELD, k, m, f))) ==
            Accepted(f.(header_len := k + |line| + 2))
  {
    EndRun(buf, cuts, Parser(S_HEADER_FIELD, k + |line|, m, f));
  }

  lemma LineFirst(buf: bytes, k: nat, line: bytes, rest: bytes)
    requires k <= |buf| && buf[k..] == line + (CRLF + rest)
    ensures LineAt(buf, k, line) && buf[k + |line| + 2..] == rest
  {
    FrontOfSum(line, CRLF + rest);
    FrontOfSum(CRLF, rest);
    SliceOfDrop(buf, k, 0, |line|);
    DropOfDrop(buf, k, |line|);
    DropOfDrop(buf, k + |line|, 2);
    assert buf[k + |line|..][0] == CR && buf[k + |line|..][1] == LF;
  }

  lemma HeaderLineAt(buf: bytes, k: nat, lines: seq<bytes>, rest: bytes)
    requires k <= |buf| && buf[k..] == Text(lines) + rest && lines != []
    ensures LineAt(buf, k, lines[0])
    ensures k + |lines[0]| + 2 <= |buf| && buf[k + |lines[0]| + 2..] == Text(lines[1..]) + rest
  {
    Associate(lines[0] + CRLF, Text(lines[1..]), rest);
    Associate(lines[0], CRLF, Text(lines[1..]) + rest);
    LineFirst(buf, k, lines[0], Text(lines[1..]) + rest);
  }

  /** The answer to header lines from `k` on, in a stream of `n` bytes cut into pieces at `cuts`: each line is
      worth what is left of it, and a line of which nothing is left ends the header. */
  function Reading(lines: seq<bytes>, k: nat, cuts: seq<nat>, n: nat, f: Fields): Answer
    decreases |lines|
  {
    if lines == [] then Accepted(f.(header_len := k + 2))
    else
      var short, e := Left(lines[0], k, cuts, n), k + |lines[0]| + 2;
      if short == [] then Accepted(f.(header_len := e))
      else match LineMeaning(short, f)
        case None => Refused
        case Some(g) => Reading(lines[1..], e, cuts, n, g)
  }

  predicate AreLines(lines: seq<bytes>) { forall i | 0 <= i < |lines| :: IsLine(lines[i]) }

  /** The lines as they are read: what is left of each, up to the first of which nothing is left. */
  function LinesRead(lines: seq<bytes>, k: nat, cuts: seq<nat>, n: nat): seq<bytes>
    decreases |lines|
  {
    if lines == [] then []
    else
      var short := Left(lines[0], k, cuts, n);
      if short == [] then [] else [short] + LinesRead(lines[1..], k + |lines[0]| + 2, cuts, n)
  }

  /** Where the header is found to end: behind the blank line or the first line of which nothing is left. */
  function HeaderEnd(lines: seq<bytes>, k: nat, cuts: seq<nat>, n: nat): (end: nat)
    ensures end >= k + 2
    decreases |lines|
  {
    if lines == [] then k + 2
    else
      var e := k + |lines[0]| + 2;
      if Left(lines[0], k, cuts, n) == [] then e else HeaderEnd(lines[1..], e, cuts, n)
  }

  lemma {:induction false} ReadingIs(lines: seq<bytes>, k: nat, cuts: seq<nat>, n: nat, f: Fields)
    ensures Reading(lines, k, cuts, n, f) ==
            Expected(Meaning(LinesRead(lines, k, cuts, n), f), HeaderEnd(lines, k, cuts, n))
    decreases |lines|
  {
    if lines != [] {
      var short, e := Left(lines[0], k, cuts, n), k + |lines[0]| + 2;
      if short != [] {
        assert LinesRead(lines, k, cuts, n)[1..] == LinesRead(lines[1..], e, cuts, n);
        match LineMeaning(short, f)
        case None =>
        case Some(g) => ReadingIs(lines[1..], e, cuts, n, g);
      }
    }
  }

  lemma BlankLineEnds(buf: bytes, cuts: seq<nat>, k: nat, f: Fields, body: bytes)
    requires 0 < k <= |buf| && buf[k..] == [] + (CRLF + body)
    ensures AnswerOf(Read(buf, cuts, AtLine(k, f))) == Accepted(f.(header_len := k + 2))
  {
    assert buf[k] == buf[k..][0] && buf[k + 1] == buf[k..][1];
    EndRun(buf, cuts, AtLine(k, f));
  }

  /** From the first header line to the verdict. */
  lemma {:induction false} HeaderRun(buf: bytes, cuts: seq<nat>, k: nat, f: Fields, lines: seq<bytes>, body: bytes)
    requires 0 < k <= |buf| && buf[k..] == Text(lines) + (CRLF + body)
    requires AreLines(lines)
    ensures AnswerOf(Read(buf, cuts, AtLine(k, f))) == Reading(lines, k, cuts, |buf|, f)
    decreases |lines|
  {
    if lines == [] {
      BlankLineEnds(buf, cuts, k, f, body);
    } else {
      var line, more := lines[0], lines[1..];
      assert AreLines(more);
      HeaderLineAt(buf, k, lines, CRLF + body);
      var short := Left(line, k, cuts, |buf|);
      LeftTakenUp(buf, cuts, k, k - 1, f, line);
      if short == [] {
        NothingLeftRun(buf, cuts, k, k - 1, f, line);
      } else {
        FieldRun(buf, cuts, k, k - 1, f, line, short);
        match LineMeaning(short, f)
        case None =>
        case Some(g) => HeaderRun(buf, cuts, k + |line| + 2, g, more, body);
      }
    }
  }

  // ---- The request line --------------------------------------------------------------------

  predicate IsUrl(s: bytes) { forall i | 0 <= i < |s| :: IsUrlChar(s[i]) && Token(s[i]) != 0 }

  /** `word` is the verb in any letter case; `version` is whatever stands behind the target. */
  datatype RequestLine = RequestLine(verb: Method, word: bytes, path: bytes, query: Option<bytes>, version: bytes) {
    predicate Valid() {
      && !verb.UNKNOWN? && |word| == |Name(verb)| && Spells(word, 0, Name(verb))
      && IsUrl(path) && (query.Some? ==> IsUrl(query.value)) && (path != [] || query.Some?)
      && Clean(version)
    }

    function Query(): bytes { if query.Some? then query.value else [] }

    function PrintQuery(): bytes { if query.Some? then [QUESTION] + query.value else [] }

    function PrintVersion(): bytes { [SP] + (version + CRLF) }
    function PrintTarget(): bytes { path + (PrintQuery() + PrintVersion()) }
    function Print(): bytes { word + ([SP] + PrintTarget()) }

    function Fields(): Fields { NO_FIELDS.(verb := verb, path := path, query_string := Query()) }
  }

  function AtMethod(verb: Method, offset: nat): Parser {
    Parser(S_METHOD, offset, 0, NO_FIELDS.(verb := verb))
  }

  lemma MethodStart(buf: bytes, cuts: seq<nat>, verb: Method)
    requires !verb.UNKNOWN? && |buf| > |Name(verb)| && Spells(buf, 0, Name(verb))
    ensures Read(buf, cuts, START) == Read(buf, cuts, AtMethod(verb, if Name(verb)[0] == LETTER_P then 2 else 1))
  {
    var name := Name(verb);
    assert Token(buf[0 + 0]) == name[0] && Token(buf[0 + 1]) == name[1];
    StepTo(buf, cuts, START, Step(buf, START).p);
    if name[0] == LETTER_P {
      StepTo(buf, cuts, Step(buf, START).p, AtMethod(verb, 2));
    }
  }

  lemma {:induction false} MethodRun(buf: bytes, cuts: seq<nat>, verb: Method, offset: nat)
    requires !verb.UNKNOWN? && 0 < offset <= |Name(verb)| && |buf| > |Name(verb)| + 1
    requires Spells(buf, 0, Name(verb)) && buf[|Name(verb)|] == SP && Token(buf[|Name(verb)| + 1]) !in {0, SP}
    ensures var n := |Name(verb)| + 1;
            Read(buf, cuts, AtMethod(verb, offset)) == Read(buf, cuts, Parser(S_PATH, n, n, NO_FIELDS.(verb := verb)))
    decreases |Name(verb)| - offset
  {
    var p, n := AtMethod(verb, offset), |Name(verb)|;
    if offset < n {
      assert Token(buf[0 + offset]) == Name(verb)[offset];
      assert Name(verb)[offset] != 0;
      StepTo(buf, cuts, p, AtMethod(verb, offset + 1));
      MethodRun(buf, cuts, verb, offset + 1);
    } else {
      StepTo(buf, cuts, p, AtMethod(verb, n + 1));
      StepTo(buf, cuts, AtMethod(verb, n + 1), Parser(S_PATH, n + 1, n + 1, NO_FIELDS.(verb := verb)));
    }
  }

  lemma {:induction false} PathRun(buf: bytes, cuts: seq<nat>, p: Parser, s: bytes)
    requires p.status == S_PATH && p.offset + |s| <= |buf| && buf[p.offset..p.offset + |s|] == s && IsUrl(s)
    ensures Read(buf, cuts, p) ==
            Read(buf, cuts, p.(offset := p.offset + |s|, fields := p.fields.(path := p.fields.path + s)))
    decreases |s|
  {
    if s == [] {
      assert p.fields.path + [] == p.fields.path;
    } else {
      assert buf[p.offset..p.offset + |s|][0] == buf[p.offset];
      var q := p.(offset := p.offset + 1, fields := p.fields.(path := p.fields.path + [s[0]]));
      NotASpace(s[0]);
      StepTo(buf, cuts, p, q);
      assert buf[q.offset..q.offset + |s| - 1] == s[1..];
      Associate(p.fields.path, [s[0]], s[1..]);
      assert [s[0]] + s[1..] == s;
      PathRun(buf, cuts, q, s[1..]);
    }
  }

  lemma {:induction false} QueryRun(buf: bytes, cuts: seq<nat>, p: Parser, s: bytes)
    requires p.status == S_QUERY_STRING && p.offset + |s| <= |buf| && buf[p.offset..p.offset + |s|] == s && IsUrl(s)
    ensures Read(buf, cuts, p) ==
            Read(buf, cuts,
                 p.(offset := p.offset + |s|, fields := p.fields.(query_string := p.fields.query_string + s)))
    decreases |s|
  {
    if s == [] {
      assert p.fields.query_string + [] == p.fields.query_string;
    } else {
      assert buf[p.offset..p.offset + |s|][0] == buf[p.offset];
      var q := p.(offset := p.offset + 1, fields := p.fields.(query_string := p.fields.query_string + [s[0]]));
      NotASpace(s[0]);
      StepTo(buf, cuts, p, q);
      assert buf[q.offset..q.offset + |s| - 1] == s[1..];
      Associate(p.fields.query_string, [s[0]], s[1..]);
      assert [s[0]] + s[1..] == s;
      QueryRun(buf, cuts, q, s[1..]);
    }
  }

  lemma NotASpace(ch: byte)
    requires IsUrlChar(ch)
    ensures ch != SP && ch != QUESTION
  {
  }

  /** `part` stands at `at` in `buf`. */
  predicate At(buf: bytes, at: nat, part: bytes) { at + |part| <= |buf| && buf[at..at + |part|] == part }

  lemma AtConcat(buf: bytes, at: nat, a: bytes, b: bytes)
    requires At(buf, at, a + b)
    ensures At(buf, at, a) && At(buf, at + |a|, b)
  {
    assert buf[at..at + |a|] == (a + b)[..|a|];
    assert buf[at + |a|..at + |a| + |b|] == (a + b)[|a|..];
  }

  lemma AtFirst(buf: bytes, at: nat, ch: byte, b: bytes)
    requires At(buf, at, [ch] + b)
    ensures at < |buf| && buf[at] == ch && At(buf, at + 1, b)
  {
    AtConcat(buf, at, [ch], b);
    assert buf[at..at + 1][0] == ch;
  }

  lemma VerbRun(buf: bytes, cuts: seq<nat>, verb: Method, word: bytes)
    requires !verb.UNKNOWN? && |word| == |Name(verb)| && Spells(word, 0, Name(verb))
    requires At(buf, 0, word) && |buf| > |word| + 1 && buf[|word|] == SP && Token(buf[|word| + 1]) !in {0, SP}
    ensures var n := |word| + 1;
            Read(buf, cuts, START) == Read(buf, cuts, Parser(S_PATH, n, n, NO_FIELDS.(verb := verb)))
  {
    var name := Name(verb);
    forall i | 0 <= i < |name| ensures Token(buf[0 + i]) == name[i] {
      assert buf[0..|word|][i] == word[0 + i];
    }
    MethodStart(buf, cuts, verb);
    MethodRun(buf, cuts, verb, if name[0] == LETTER_P then 2 else 1);
  }

  lemma TargetStarts(r: RequestLine, buf: bytes, t: nat)
    requires r.Valid() && At(buf, t, r.PrintTarget())
    ensures t < |buf| && Token(buf[t]) !in {0, SP}
  {
    AtConcat(buf, t, r.path, r.PrintQuery() + r.PrintVersion());
    if r.path == [] {
      Associate([QUESTION], r.query.value, r.PrintVersion());
      AtFirst(buf, t, QUESTION, r.query.value + r.PrintVersion());
    } else {
      assert buf[t..t + |r.path|][0] == r.path[0];
      NotASpace(r.path[0]);
      UrlToken(r.path[0]);
    }
  }

  lemma UrlToken(ch: byte)
    requires IsUrlChar(ch) && Token(ch) != 0
    ensures Token(ch) != SP
  {
  }

  lemma WordRun(r: RequestLine, buf: bytes, cuts: seq<nat>)
    requires r.Valid() && At(buf, 0, r.Print())
    ensures var n := |r.word| + 1;
            && At(buf, n, r.PrintTarget())
            && Read(buf, cuts, START) == Read(buf, cuts, Parser(S_PATH, n, n, NO_FIELDS.(verb := r.verb)))
  {
    AtConcat(buf, 0, r.word, [SP] + r.PrintTarget());
    AtFirst(buf, |r.word|, SP, r.PrintTarget());
    TargetStarts(r, buf, |r.word| + 1);
    VerbRun(buf, cuts, r.verb, r.word);
  }

  lemma WholePathRun(buf: bytes, cuts: seq<nat>, t: nat, f: Fields, path: bytes)
    requires At(buf, t, path) && IsUrl(path) && f.path == []
    ensures Read(buf, cuts, Parser(S_PATH, t, t, f)) ==
            Read(buf, cuts, Parser(S_PATH, t + |path|, t, f.(path := path)))
  {
    PathRun(buf, cuts, Parser(S_PATH, t, t, f), path);
    assert [] + path == path;
  }

  lemma WholeQueryRun(buf: bytes, cuts: seq<nat>, u: nat, t: nat, f: Fields, query: bytes, rest: bytes)
    requires At(buf, u, [QUESTION] + (query + ([SP] + rest))) && IsUrl(query) && f.query_string == []
    ensures Read(buf, cuts, Parser(S_PATH, u, t, f)) ==
            Read(buf, cuts, Parser(S_EOL, u + 1 + |query| + 1, t, f.(query_string := query)))
    ensures At(buf, u + 1 + |query| + 1, rest)
  {
    AtFirst(buf, u, QUESTION, query + ([SP] + rest));
    AtConcat(buf, u + 1, query, [SP] + rest);
    AtFirst(buf, u + 1 + |query|, SP, rest);
    var q, g := Parser(S_QUERY_STRING, u + 1, t, f), f.(query_string := query);
    StepTo(buf, cuts, Parser(S_PATH, u, t, f), q);
    QueryRun(buf, cuts, q, query);
    assert [] + query == query;
    var v := u + 1 + |query|;
    StepTo(buf, cuts, Parser(S_QUERY_STRING, v, t, g), Parser(S_EOL, v + 1, t, g));
  }

  lemma NoQueryRun(buf: bytes, cuts: seq<nat>, u: nat, t: nat, f: Fields, rest: bytes)
    requires At(buf, u, [] + ([SP] + rest)) && f.path != []
    ensures u + 1 <= |buf| && Read(buf, cuts, Parser(S_PATH, u, t, f)) == Read(buf, cuts, Parser(S_EOL, u + 1, t, f))
    ensures At(buf, u + 1, rest)
  {
    assert [] + ([SP] + rest) == [SP] + rest;
    AtFirst(buf, u, SP, rest);
    StepTo(buf, cuts, Parser(S_PATH, u, t, f), Parser(S_EOL, u + 1, t, f));
  }

  /** From the start of the target, at `t`, to the character behind it. */
  lemma TargetRun(r: RequestLine, buf: bytes, cuts: seq<nat>, t: nat)
    requires r.Valid() && At(buf, t, r.PrintTarget())
    ensures var w := t + |r.path| + |r.PrintQuery()| + 1;
            && At(buf, w, r.version + CRLF)
            && Read(buf, cuts, Parser(S_PATH, t, t, NO_FIELDS.(verb := r.verb))) ==
               Read(buf, cuts, Parser(S_EOL, w, t, r.Fields()))
  {
    var f, u := NO_FIELDS.(verb := r.verb), t + |r.path|;
    var g := f.(path := r.path);
    AtConcat(buf, t, r.path, r.PrintQuery() + r.PrintVersion());
    WholePathRun(buf, cuts, t, f, r.path);
    if r.query.Some? {
      Associate([QUESTION], r.query.value, r.PrintVersion());
      WholeQueryRun(buf, cuts, u, t, g, r.query.value, r.version + CRLF);
    } else {
      NoQueryRun(buf, cuts, u, t, g, r.version + CRLF);
    }
  }

  lemma VersionRun(buf: bytes, cuts: seq<nat>, w: nat, t: nat, f: Fields, version: bytes)
    requires At(buf, w, version + CRLF) && Clean(version)
    ensures Read(buf, cuts, Parser(S_EOL, w, t, f)) == Read(buf, cuts, AtLine(w + |version| + 2, f))
  {
    var e := w + |version|;
    AtConcat(buf, w, version, CRLF);
    assert buf[e..e + 2][0] == CR && buf[e..e + 2][1] == LF;
    LegalLineEnds(buf, w, version, w);
    SkipToNextLine(buf, cuts, Parser(S_EOL, w, t, f), e);
  }

  lemma PrintLength(r: RequestLine)
    ensures |r.Print()| == |r.word| + 1 + |r.path| + |r.PrintQuery()| + 1 + |r.version| + 2
  {
  }

  lemma RequestLineRun(r: RequestLine, buf: bytes, cuts: seq<nat>)
    requires r.Valid() && At(buf, 0, r.Print())
    ensures Read(buf, cuts, START) == Read(buf, cuts, AtLine(|r.Print()|, r.Fields()))
  {
    var n := |r.word| + 1;
    PrintLength(r);
    WordRun(r, buf, cuts);
    TargetRun(r, buf, cuts, n);
    VersionRun(buf, cuts, n + |r.path| + |r.PrintQuery()| + 1, n, r.Fields(), r.version);
  }

  // ---- Whole requests ----------------------------------------------------------------------

  function PrintRequest(r: RequestLine, lines: seq<bytes>): bytes { r.Print() + Text(lines) + CRLF }

  /** For every request line, every list of header lines and whatever follows, in whatever pieces. */
  lemma RequestRun(r: RequestLine, cuts: seq<nat>, lines: seq<bytes>, body: bytes)
    requires r.Valid() && AreLines(lines)
    ensures var whole := PrintRequest(r, lines) + body;
            AnswerOf(Read(whole, cuts, START)) == Reading(lines, |r.Print()|, cuts, |whole|, r.Fields())
  {
    var head, rest := r.Print(), Text(lines) + (CRLF + body);
    var buf := PrintRequest(r, lines) + body;
    assert buf == head + rest by {
      Associate(head + Text(lines), CRLF, body);
      Associate(head, Text(lines), CRLF + body);
    }
    assert buf[0..|head|] == head && buf[|head|..] == rest;
    RequestLineRun(r, buf, cuts);
    HeaderRun(buf, cuts, |head|, r.Fields(), lines, body);
  }

  /** A line of nothing but c's. */
  predicate OnlyCs(line: bytes) { forall i | 0 <= i < |line| :: Token(line[i]) == LETTER_C }

  /** The line without its leading c's. */
  function Bare(line: bytes): bytes {
    if line != [] && Token(line[0]) == LETTER_C then Bare(line[1..]) else line
  }

  /** A legal line in which only c's stand before the first carriage return, be it the line's end. */
  predicate LooksBlank(line: bytes) {
    && line != [] && Token(line[0]) == LETTER_C && !HasForbidden(line)
    && (Bare(line) == [] || Bare(line)[0] == CR)
  }

  lemma {:induction false} LeftNearEnd(line: bytes, k: nat, n: nat)
    requires n - k < 9
    ensures Left(line, k, [], n) == Bare(line)
    decreases |line|
  {
    if line != [] && Token(line[0]) == LETTER_C {
      LeftNearEnd(line[1..], k + 1, n);
    }
  }

  /** A line that looks blank, with fewer than nine bytes from its start to the end of the stream, comes before
      any malformed one; and it is not the case that it is refused, and a line behind it would be too. */
  predicate Misread(lines: seq<bytes>, k: nat, n: nat, f: Fields)
    decreases |lines|
  {
    lines != [] &&
    var line, rest := lines[0], lines[1..];
    if n - k < 9 && LooksBlank(line) then Bare(line) == [] || Meaning(rest, f).Some?
    else match LineMeaning(line, f)
      case None => false
      case Some(g) => Misread(rest, k + |line| + 2, n, g)
  }

  lemma ShortMeansNothing(line: bytes, f: Fields)
    requires |line| < 9
    ensures LineMeaning(line, f) == if Illegal(line) then None else Some(f)
  {
  }

  lemma {:induction false} BareKeeps(line: bytes)
    ensures |Bare(line)| <= |line| && (Bare(line) == [] ==> !HasForbidden(line))
    ensures HasForbidden(Bare(line)) <==> HasForbidden(line)
    decreases |line|
  {
    if line != [] && Token(line[0]) == LETTER_C {
      BareKeeps(line[1..]);
      ForbiddenTail(line);
    }
  }

  lemma ForbiddenTail(line: bytes)
    requires line != [] && Token(line[0]) != 0
    ensures HasForbidden(line[1..]) <==> HasForbidden(line)
  {
    if HasForbidden(line) {
      var i :| 0 <= i < |line| && Token(line[i]) == 0;
      assert line[1..][i - 1] == line[i];
    }
    if HasForbidden(line[1..]) {
      var i :| 0 <= i < |line[1..]| && Token(line[1..][i]) == 0;
      assert line[i + 1] == line[1..][i];
    }
  }

  /** What the end of the stream makes of a short line. */
  lemma NearEnd(line: bytes, f: Fields)
    requires line != [] && |line| < 9 && Bare(line) != []
    ensures LineMeaning(Bare(line), f) == if LooksBlank(line) then None else LineMeaning(line, f)
    ensures LooksBlank(line) ==> LineMeaning(line, f) == Some(f)
  {
    BareKeeps(line);
    ShortMeansNothing(line, f);
    ShortMeansNothing(Bare(line), f);
  }

  lemma BareIsBlank(line: bytes)
    requires line != [] && Bare(line) == []
    ensures LooksBlank(line)
  {
    BareKeeps(line);
  }

  predicate NoneEmpty(lines: seq<bytes>) { forall i | 0 <= i < |lines| :: lines[i] != [] }

  /** In one piece the answer is that of the reference unless a line is misread near the end of the stream. */
  lemma {:induction false} OnePieceIff(lines: seq<bytes>, k: nat, n: nat, f: Fields)
    requires k + |Text(lines)| + 2 <= n && NoneEmpty(lines)
    ensures Reading(lines, k, [], n, f) == Expected(Meaning(lines, f), k + |Text(lines)| + 2) <==>
            !Misread(lines, k, n, f)
    decreases |lines|
  {
    if lines != [] {
      var line, e := lines[0], k + |lines[0]| + 2;
      if n - k < 9 {
        LeftNearEnd(line, k, n);
        if Bare(line) == [] {
          BareIsBlank(line);
        } else {
          NearEnd(line, f);
        }
      }
      match LineMeaning(line, f)
      case None =>
      case Some(g) => OnePieceIff(lines[1..], e, n, g);
    }
  }

  /** For every request line, every list of nonempty header lines, with any bytes but line feeds in them, and
      whatever follows, one call of `Parse` gives the verdict and the fields of the line-by-line reference, if
      and only if no line is misread near the end of the stream. */
  lemma ParserMeetsReference(r: RequestLine, lines: seq<bytes>, body: bytes)
    requires r.Valid() && AreLines(lines) && NoneEmpty(lines)
    ensures var whole := PrintRequest(r, lines) + body;
            AnswerOf(Run(whole, START)) == Expected(Meaning(lines, r.Fields()), |PrintRequest(r, lines)|) <==>
            !Misread(lines, |r.Print()|, |whole|, r.Fields())
  {
    RequestRun(r, [], lines, body);
    OnePieceIff(lines, |r.Print()|, |PrintRequest(r, lines) + body|, r.Fields());
  }

  /** A header line that is not of c's alone. */
  predicate IsField(line: bytes) { Clean(line) && !OnlyCs(line) }

  lemma {:induction false} BareOfCs(line: bytes)
    ensures Bare(line) == [] <==> OnlyCs(line)
    ensures Clean(line) && Bare(line) != [] ==> Bare(line)[0] != CR
    decreases |line|
  {
    if line != [] && Token(line[0]) == LETTER_C {
      BareOfCs(line[1..]);
      assert line == [line[0]] + line[1..];
      if OnlyCs(line) {
        assert forall i | 0 <= i < |line[1..]| :: line[1..][i] == line[i + 1];
      }
    }
  }

  lemma {:induction false} FieldsNotMisread(lines: seq<bytes>, k: nat, n: nat, f: Fields)
    requires forall i | 0 <= i < |lines| :: IsField(lines[i])
    ensures !Misread(lines, k, n, f)
    decreases |lines|
  {
    if lines != [] {
      BareOfCs(lines[0]);
      match LineMeaning(lines[0], f)
      case None =>
      case Some(g) => FieldsNotMisread(lines[1..], k + |lines[0]| + 2, n, g);
    }
  }

  lemma FieldsMeetReference(r: RequestLine, lines: seq<bytes>, body: bytes)
    requires r.Valid() && forall i | 0 <= i < |lines| :: IsField(lines[i])
    ensures AnswerOf(Run(PrintRequest(r, lines) + body, START)) ==
            Expected(Meaning(lines, r.Fields()), |PrintRequest(r, lines)|)
  {
    FieldsNotMisread(lines, |r.Print()|, |PrintRequest(r, lines) + body|, r.Fields());
    ParserMeetsReference(r, lines, body);
  }

  /** Such a request: its last line is two c's, and the header is found to end behind that line. */
  lemma SwallowedExample(r: RequestLine)
    requires r.Valid()
    ensures var whole := PrintRequest(r, [[0x63, 0x63]]);
            var s := Run(whole, START);
            s.verdict == FINISHED && s.p.fields.header_len == |whole| - 2
  {
    var line: bytes := [0x63, 0x63];
    var whole, k := PrintRequest(r, [line]), |r.Print()|;
    assert whole + [] == whole && Text([line]) == line + CRLF + [];
    RequestRun(r, [], [line], []);
    LeftNearEnd(line, k, |whole|);
    BareOfCs(line);
  }

  /** Another: its last line is a c, a carriage return and an x. It means nothing, and the request is refused. */
  lemma RefusedExample(r: RequestLine)
    requires r.Valid()
    ensures var line: bytes := [0x63, CR, 0x78];
            LineMeaning(line, r.Fields()).Some? && Run(PrintRequest(r, [line]), START).verdict == ERROR
  {
    var line: bytes := [0x63, CR, 0x78];
    var whole, k := PrintRequest(r, [line]), |r.Print()|;
    assert whole + [] == whole && Text([line]) == line + CRLF + [];
    RequestRun(r, [], [line], []);
    LeftNearEnd(line, k, |whole|);
    assert Bare(line) == line[1..] == [CR, 0x78];
    ShortMeansNothing(line, r.Fields());
    assert !HasForbidden(line);
  }

  // ---- Round trip of named headers ---------------------------------------------------------

  datatype Header = Header(name: bytes, value: bytes) {
    function Line(): bytes { name + [COLON, SP] + value }

    predicate Is(word: bytes) { |name| == |word| && Spells(name, 0, word) }

    /** Names are clean and do not extend a recognised name; recognised values are single words. */
    predicate Valid() {
      && Clean(name) && COLON !in name && Clean(value)
      && (forall word <- [CONTENT_LENGTH, CONTENT_TYPE, SEC_WEBSOCKET_KEY] :: Spells(name, 0, word) ==> Is(word))
      && (Is(CONTENT_LENGTH) || Is(CONTENT_TYPE) || Is(SEC_WEBSOCKET_KEY) ==>
            SP !in value && (value != [] ==> value[0] != COLON))
      && (Is(CONTENT_LENGTH) ==> IsDecimal(value))
    }
  }

  function Lines(headers: seq<Header>): (lines: seq<bytes>)
    ensures |lines| == |headers| && forall i | 0 <= i < |lines| :: lines[i] == headers[i].Line()
  {
    seq(|headers|, i requires 0 <= i < |headers| => headers[i].Line())
  }

  /** The value of the header `word`; with several of them, their values one after another. */
  function Found(headers: seq<Header>, word: bytes): bytes
    decreases |headers|
  {
    if headers == [] then []
    else (if headers[0].Is(word) then headers[0].value else []) + Found(headers[1..], word)
  }

  lemma {:induction false} FoundNowhere(headers: seq<Header>, word: bytes)
    requires forall i | 0 <= i < |headers| :: !headers[i].Is(word)
    ensures Found(headers, word) == []
    decreases |headers|
  {
    if headers != [] {
      FoundNowhere(headers[1..], word);
    }
  }

  /** A header that occurs once is found, wherever it stands. */
  lemma {:induction false} FoundOnce(headers: seq<Header>, word: bytes, k: nat)
    requires k < |headers| && headers[k].Is(word)
    requires forall i | 0 <= i < |headers| && i != k :: !headers[i].Is(word)
    ensures Found(headers, word) == headers[k].value
    decreases |headers|
  {
    if k == 0 {
      FoundNowhere(headers[1..], word);
      assert headers[0].value + [] == headers[0].value;
    } else {
      assert !headers[0].Is(word);
      FoundOnce(headers[1..], word, k - 1);
      assert [] + Found(headers[1..], word) == Found(headers[1..], word);
    }
  }

  lemma LineSpells(h: Header, word: bytes)
    requires word in {CONTENT_LENGTH, CONTENT_TYPE, SEC_WEBSOCKET_KEY} && COLON !in h.name
    ensures Spells(h.Line(), 0, word) <==> Spells(h.name, 0, word)
  {
    var line := h.Line();
    assert line[|h.name|] == COLON && Token(COLON) == COLON;
    NoColonInName(word);
    assert forall i | 0 <= i < |h.name| :: line[i] == h.name[i];
    assert Token(line[0 + |h.name|]) == COLON;
    if |word| > |h.name| {
      assert word[|h.name|] in word;
    }
    if Spells(line, 0, word) {
      forall i | 0 <= i < |word| ensures Token(h.name[0 + i]) == word[i] {
        assert Token(line[0 + i]) == word[i];
      }
    } else if Spells(h.name, 0, word) {
      forall i | 0 <= i < |word| ensures Token(line[0 + i]) == word[i] {
        assert Token(h.name[0 + i]) == word[i];
      }
    }
  }

  lemma NoColonInName(word: bytes)
    requires word in {CONTENT_LENGTH, CONTENT_TYPE, SEC_WEBSOCKET_KEY}
    ensures COLON !in word
  {
  }

  lemma {:induction false} FirstWordOfWord(s: bytes)
    requires SP !in s && CR !in s
    ensures FirstWord(s) == s
    decreases |s|
  {
    if s != [] {
      FirstWordOfWord(s[1..]);
    }
  }

  lemma LineValue(h: Header, word: bytes)
    requires h.Is(word) && SP !in h.value && CR !in h.value && (h.value != [] ==> h.value[0] != COLON)
    ensures |word| <= |h.Line()| && Value(h.Line(), word) == h.value
  {
    var rest := [COLON, SP] + h.value;
    assert h.Line() == h.name + rest;
    assert h.Line()[|word|..] == rest;
    assert rest[1..] == [SP] + h.value;
    assert rest[1..][1..] == h.value;
    assert Trimmed(rest) == Trimmed(rest[1..]) == Trimmed(h.value) == h.value;
    FirstWordOfWord(h.value);
  }

  function WithFound(f: Fields, headers: seq<Header>): Fields
    requires IsDecimal(Found(headers, CONTENT_LENGTH))
  {
    f.(content_length := Accumulate(f.content_length, Found(headers, CONTENT_LENGTH)),
       content_type := f.content_type + Found(headers, CONTENT_TYPE),
       sec_websocket_key := f.sec_websocket_key + Found(headers, SEC_WEBSOCKET_KEY))
  }

  lemma {:induction false} FoundIsDecimal(headers: seq<Header>)
    requires forall i | 0 <= i < |headers| :: headers[i].Valid()
    ensures IsDecimal(Found(headers, CONTENT_LENGTH))
    decreases |headers|
  {
    if headers != [] {
      FoundIsDecimal(headers[1..]);
      assert headers[0].Valid();
    }
  }

  lemma {:induction false} AccumulateConcat(n: nat, a: bytes, b: bytes)
    requires IsDecimal(a) && IsDecimal(b)
    ensures IsDecimal(a + b) && Accumulate(n, a + b) == Accumulate(Accumulate(n, a), b)
    decreases |a|
  {
    if a == [] {
      assert a + b == b;
    } else {
      assert (a + b)[1..] == a[1..] + b;
      assert forall i | 0 <= i < |a[1..]| :: a[1..][i] == a[i + 1];
      AccumulateConcat((n * 10 + (a[0] - 0x30)) % TWO_32, a[1..], b);
      assert (a + b)[0] == a[0];
    }
  }

  lemma HeaderMeaning(h: Header, f: Fields)
    requires h.Valid()
    ensures !Illegal(h.Line())
    ensures h.Is(CONTENT_LENGTH) ==> IsDecimal(h.value)
    ensures LineMeaning(h.Line(), f) ==
              Some(if h.Is(CONTENT_LENGTH) then f.(content_length := Accumulate(f.content_length, h.value))
                   else if h.Is(CONTENT_TYPE) then f.(content_type := f.content_type + h.value)
                   else if h.Is(SEC_WEBSOCKET_KEY) then f.(sec_websocket_key := f.sec_websocket_key + h.value)
                   else f)
  {
    LineIsField(h);
    assert CR !in h.value;
    forall word <- [CONTENT_LENGTH, CONTENT_TYPE, SEC_WEBSOCKET_KEY] ensures Spells(h.Line(), 0, word) <==> h.Is(word) {
      LineSpells(h, word);
    }
    assert CONTENT_LENGTH in [CONTENT_LENGTH, CONTENT_TYPE, SEC_WEBSOCKET_KEY];
    assert CONTENT_TYPE in [CONTENT_LENGTH, CONTENT_TYPE, SEC_WEBSOCKET_KEY];
    assert SEC_WEBSOCKET_KEY in [CONTENT_LENGTH, CONTENT_TYPE, SEC_WEBSOCKET_KEY];
    if h.Is(CONTENT_LENGTH) {
      LineValue(h, CONTENT_LENGTH);
    } else if h.Is(CONTENT_TYPE) {
      LineValue(h, CONTENT_TYPE);
    } else if h.Is(SEC_WEBSOCKET_KEY) {
      LineValue(h, SEC_WEBSOCKET_KEY);
    }
  }

  lemma {:induction false} HeadersMeaning(headers: seq<Header>, f: Fields)
    requires forall i | 0 <= i < |headers| :: headers[i].Valid()
    ensures IsDecimal(Found(headers, CONTENT_LENGTH))
    ensures Meaning(Lines(headers), f) == Some(WithFound(f, headers))
    decreases |headers|
  {
    FoundIsDecimal(headers);
    if headers == [] {
      assert f.content_type + [] == f.content_type && f.sec_websocket_key + [] == f.sec_websocket_key;
    } else {
      var h, more := headers[0], headers[1..];
      assert h.Valid();
      HeaderMeaning(h, f);
      var g := LineMeaning(h.Line(), f).value;
      HeadersMeaning(more, g);
      assert Lines(headers)[0] == h.Line() && Lines(headers)[1..] == Lines(more);
      var none: bytes := [];
      AccumulateConcat(f.content_length, if h.Is(CONTENT_LENGTH) then h.value else none, Found(more, CONTENT_LENGTH));
      Associate(f.content_type, if h.Is(CONTENT_TYPE) then h.value else none, Found(more, CONTENT_TYPE));
      Associate(f.sec_websocket_key, if h.Is(SEC_WEBSOCKET_KEY) then h.value else none, Found(more, SEC_WEBSOCKET_KEY));
      OneName(h);
      assert f.content_type + none == f.content_type && f.sec_websocket_key + none == f.sec_websocket_key;
      assert WithFound(g, more) == WithFound(f, headers);
    }
  }

  lemma OneName(h: Header)
    ensures h.Is(CONTENT_LENGTH) ==> !h.Is(CONTENT_TYPE) && !h.Is(SEC_WEBSOCKET_KEY)
    ensures h.Is(CONTENT_TYPE) ==> !h.Is(SEC_WEBSOCKET_KEY)
  {
  }

  lemma LineIsField(h: Header)
    requires h.Valid()
    ensures IsField(h.Line())
  {
    var line := h.Line();
    assert line[|h.name|] == COLON && Token(COLON) != LETTER_C;
    forall i | 0 <= i < |line| ensures Token(line[i]) != 0 && line[i] != CR && line[i] != LF {
      if i < |h.name| {
        assert line[i] == h.name[i];
      } else if i >= |h.name| + 2 {
        assert line[i] == h.value[i - |h.name| - 2];
      }
    }
  }

  /** Print and parse: verb, target, the recognised headers and the header length come back. */
  lemma RoundTrip(r: RequestLine, headers: seq<Header>, body: bytes)
    requires r.Valid() && forall i | 0 <= i < |headers| :: headers[i].Valid()
    ensures IsDecimal(Found(headers, CONTENT_LENGTH))
    ensures var text := PrintRequest(r, Lines(headers));
            var s := Run(text + body, START);
            && s.verdict == FINISHED
            && s.p.fields == Fields(r.verb, r.path, r.Query(), Accumulate(0, Found(headers, CONTENT_LENGTH)),
                                    Found(headers, CONTENT_TYPE), Found(headers, SEC_WEBSOCKET_KEY), |text|)
  {
    forall i | 0 <= i < |headers| ensures IsField(Lines(headers)[i]) {
      LineIsField(headers[i]);
    }
    HeadersMeaning(headers, r.Fields());
    FieldsMeetReference(r, Lines(headers), body);
    assert [] + Found(headers, CONTENT_TYPE) == Found(headers, CONTENT_TYPE);
    assert [] + Found(headers, SEC_WEBSOCKET_KEY) == Found(headers, SEC_WEBSOCKET_KEY);
  }

  function Decimal(n: nat): (s: bytes)
    ensures IsDecimal(s) && s != []
  {
    if n < 10 then [0x30 + n] else Decimal(n / 10) + [0x30 + n % 10]
  }

  lemma {:induction false} DecimalRoundTrip(n: nat)
    requires n < TWO_32
    ensures Accumulate(0, Decimal(n)) == n
    decreases n
  {
    var last := [0x30 + n % 10];
    assert last[1..] == [];
    if n >= 10 {
      DecimalRoundTrip(n / 10);
      AccumulateConcat(0, Decimal(n / 10), last);
      assert Accumulate(n / 10, last) == (n / 10 * 10 + n % 10) % TWO_32;
    }
  }

  /** A request with one Content-Length header, anywhere among its headers, has that length. */
  lemma ContentLengthRoundTrip(r: RequestLine, headers: seq<Header>, body: bytes, k: nat, n: nat)
    requires r.Valid() && forall i | 0 <= i < |headers| :: headers[i].Valid()
    requires k < |headers| && headers[k].Is(CONTENT_LENGTH) && headers[k].value == Decimal(n) && n < TWO_32
    requires forall i | 0 <= i < |headers| && i != k :: !headers[i].Is(CONTENT_LENGTH)
    ensures var s := Run(PrintRequest(r, Lines(headers)) + body, START);
            s.verdict == FINISHED && s.p.fields.content_length == n
  {
    RoundTrip(r, headers, body);
    FoundOnce(headers, CONTENT_LENGTH, k);
    DecimalRoundTrip(n);
  }
}
