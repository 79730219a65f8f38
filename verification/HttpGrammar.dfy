/** What a request says, line by line, and a proof that the parser agrees. The reference reads whole lines
    and whole words; it has no states, offsets or look-ahead. */
module HttpGrammar {
  import opened Bytes
  import opened HttpParser
  import opened Wrappers

  // ---- The reference -----------------------------------------------------------------------

  /** A line ends at a line feed, so it has none. Carriage returns and any other bytes may stand in it. */
  predicate IsLine(line: bytes) { forall i | 0 <= i < |line| :: line[i] != LF }

  /** A character that no request may contain. */
  predicate HasForbidden(line: bytes) { exists i :: 0 <= i < |line| && Token(line[i]) == 0 }

  /** A line that is refused whatever its name: it has a forbidden character, or starts with a carriage return. */
  predicate Illegal(line: bytes) { HasForbidden(line) || (line != [] && line[0] == CR) }

  /** Characters that may stand inside a line. */
  predicate Clean(line: bytes) {
    forall i | 0 <= i < |line| :: Token(line[i]) != 0 && line[i] != CR && line[i] != LF
  }

  /** The line behind a header name: without leading spaces and colons. */
  function Trimmed(s: bytes): bytes {
    if s != [] && (s[0] == SP || s[0] == COLON) then Trimmed(s[1..]) else s
  }

  /** The bytes in front of the first space or carriage return. */
  function FirstWord(s: bytes): bytes {
    if s == [] || s[0] == SP || s[0] == CR then [] else [s[0]] + FirstWord(s[1..])
  }

  function Value(line: bytes, name: bytes): bytes
    requires |name| <= |line|
  {
    FirstWord(Trimmed(line[|name|..]))
  }

  predicate IsDecimal(s: bytes) { forall i | 0 <= i < |s| :: IsNum(s[i]) }

  /** A uint32_t accumulator that starts at `n`. */
  function Accumulate(n: nat, s: bytes): nat
    requires IsDecimal(s)
    decreases |s|
  {
    if s == [] then n else Accumulate((n * 10 + (s[0] - 0x30)) % TWO_32, s[1..])
  }

  /** The effect of one header line; None if it is malformed. */
  function LineMeaning(line: bytes, f: Fields): Option<Fields> {
    if Illegal(line) then None
    else if Spells(line, 0, CONTENT_LENGTH) then
      var v := Value(line, CONTENT_LENGTH);
      if IsDecimal(v) then Some(f.(content_length := Accumulate(f.content_length, v))) else None
    else if Spells(line, 0, CONTENT_TYPE) then
      Some(f.(content_type := f.content_type + Value(line, CONTENT_TYPE)))
    else if Spells(line, 0, SEC_WEBSOCKET_KEY) then
      Some(f.(sec_websocket_key := f.sec_websocket_key + Value(line, SEC_WEBSOCKET_KEY)))
    else Some(f)
  }

  function Meaning(lines: seq<bytes>, f: Fields): Option<Fields>
    decreases |lines|
  {
    if lines == [] then Some(f)
    else match LineMeaning(lines[0], f)
      case None => None
      case Some(g) => Meaning(lines[1..], g)
  }

  /** More lines, unless a line before them was malformed. */
  function Then(m: Option<Fields>, lines: seq<bytes>): Option<Fields> {
    match m case None => None case Some(f) => Meaning(lines, f)
  }

  /** What a caller of `Parse` learns. */
  datatype Answer = Unfinished | Refused | Accepted(fields: Fields)

  function AnswerOf(s: Stepped): Answer {
    match s.verdict case CONTINUE => Unfinished case ERROR => Refused case FINISHED => Accepted(s.p.fields)
  }

  /** The answer to a request with this meaning and a header of `len` bytes. */
  function Expected(meaning: Option<Fields>, len: nat): Answer {
    match meaning case None => Refused case Some(f) => Accepted(f.(header_len := len))
  }

  const CRLF: bytes := [CR, LF]

  function Text(lines: seq<bytes>): bytes
    decreases |lines|
  {
    if lines == [] then [] else lines[0] + CRLF + Text(lines[1..])
  }

  // ---- Within one line ---------------------------------------------------------------------

  /** `buf` has a line end at `e`, and no line feed or forbidden character from `from` to there. */
  predicate LineEndsAt(buf: bytes, from: nat, e: nat) {
    && e + 2 <= |buf| && buf[e] == CR && buf[e + 1] == LF
    && forall i | from <= i < e :: Token(buf[i]) != 0 && buf[i] != LF
  }

  /** The parser behind the line that ends at `e`. */
  function NextLine(p: Parser, e: nat): Parser { p.(status := S_HEADER_FIELD, offset := e + 2, match_ := e + 1) }

  lemma {:induction false} SkipToNextLine(buf: bytes, cuts: seq<nat>, p: Parser, e: nat)
    requires p.status == S_EOL && p.offset <= e + 1 && LineEndsAt(buf, p.offset, e)
    ensures Read(buf, cuts, p) == Read(buf, cuts, NextLine(p, e))
    decreases e + 1 - p.offset
  {
    ReadUnroll(buf, cuts, p);
    if p.offset <= e {
      SkipToNextLine(buf, cuts, p.(offset := p.offset + 1), e);
    }
  }

  lemma StepTo(buf: bytes, cuts: seq<nat>, p: Parser, q: Parser)
    requires p.offset < |buf| && StepSeen(buf, cuts, p) == Stepped(CONTINUE, q)
    ensures Read(buf, cuts, p) == Read(buf, cuts, q)
  {
    ReadUnroll(buf, cuts, p);
  }

  lemma SpellsTail(buf: bytes, offset: nat, word: bytes)
    requires word != []
    ensures Spells(buf, offset, word) <==>
              offset < |buf| && Token(buf[offset]) == word[0] && Spells(buf, offset + 1, word[1..])
  {
    if offset < |buf| && Token(buf[offset]) == word[0] && Spells(buf, offset + 1, word[1..]) {
      forall i | 0 <= i < |word| ensures Token(buf[offset + i]) == word[i] {
        if i > 0 {
          assert Token(buf[offset + 1 + (i - 1)]) == word[1..][i - 1];
        }
      }
    } else if Spells(buf, offset, word) {
      assert Token(buf[offset + 0]) == word[0];
      forall i | 0 <= i < |word| - 1 ensures Token(buf[offset + 1 + i]) == word[1..][i] {
        assert Token(buf[offset + (i + 1)]) == word[i + 1];
      }
    }
  }

  lemma NameCharRun(buf: bytes, cuts: seq<nat>, p: Parser, name: bytes, value: ParseStatus, e: nat)
    requires p.match_ <= p.offset <= e && LineEndsAt(buf, p.offset, e) && IsName(p.status, name, value)
    requires p.offset - p.match_ < |name|
    ensures Read(buf, cuts, p) ==
              Read(buf, cuts, if Token(buf[p.offset]) == name[p.offset - p.match_] then p.(offset := p.offset + 1)
                       else NextLine(p, e))
    ensures Token(buf[p.offset]) == name[p.offset - p.match_] ==> p.offset < e
  {
    NameIsClean(name, p.offset - p.match_);
    NameStep(buf, p, name, value);
    var q := Step(buf, p).p;
    StepTo(buf, cuts, p, q);
    if q.status == S_EOL {
      SkipToNextLine(buf, cuts, q, e);
    }
  }

  /** The parser behind the rest of a name, or behind its line if that goes on in another way. */
  function BehindName(buf: bytes, p: Parser, name: bytes, e: nat): Parser
    requires p.match_ <= p.offset <= p.match_ + |name|
  {
    if Spells(buf, p.offset, name[p.offset - p.match_..]) then p.(offset := p.match_ + |name|) else NextLine(p, e)
  }

  lemma BehindNameStep(buf: bytes, p: Parser, name: bytes, e: nat)
    requires p.match_ <= p.offset < p.match_ + |name| && p.offset < |buf|
    ensures BehindName(buf, p, name, e) ==
              if Token(buf[p.offset]) == name[p.offset - p.match_]
              then BehindName(buf, p.(offset := p.offset + 1), name, e) else NextLine(p, e)
  {
    var j := p.offset - p.match_;
    SpellsTail(buf, p.offset, name[j..]);
    assert name[j..][1..] == name[j + 1..];
  }

  lemma {:induction false} NameRun(buf: bytes, cuts: seq<nat>, p: Parser, name: bytes, value: ParseStatus, e: nat)
    requires p.match_ <= p.offset <= e && LineEndsAt(buf, p.offset, e) && IsName(p.status, name, value)
    requires p.offset - p.match_ <= |name|
    ensures Read(buf, cuts, p) == Read(buf, cuts, BehindName(buf, p, name, e))
    decreases |name| - (p.offset - p.match_)
  {
    var j := p.offset - p.match_;
    if j < |name| {
      NameCharRun(buf, cuts, p, name, value, e);
      BehindNameStep(buf, p, name, e);
      if Token(buf[p.offset]) == name[j] {
        NameRun(buf, cuts, p.(offset := p.offset + 1), name, value, e);
      }
    } else {
      assert name[j..] == [];
    }
  }

  lemma NameStep(buf: bytes, p: Parser, name: bytes, value: ParseStatus)
    requires p.match_ <= p.offset < |buf| && IsName(p.status, name, value) && Token(buf[p.offset]) != 0
    ensures var c, j := Token(buf[p.offset]), p.offset - p.match_;
            Step(buf, p) ==
              if j >= |name| && c != SP && c != COLON
              then Stepped(CONTINUE, p.(status := value, match_ := p.offset))
              else if j >= |name| || c == name[j] then Advance(p)
              else Advance(p.(status := S_EOL))
  {
  }

  predicate IsName(s: ParseStatus, name: bytes, value: ParseStatus) {
    || (s == S_CONTENT_LENGTH && name == CONTENT_LENGTH && value == S_CONTENT_LENGTH_V)
    || (s == S_CONTENT_TYPE && name == CONTENT_TYPE && value == S_CONTENT_TYPE_V)
    || (s == S_SEC_WEBSOCKET_KEY && name == SEC_WEBSOCKET_KEY && value == S_SEC_WEBSOCKET_KEY_V)
  }

  lemma NameIsClean(name: bytes, j: nat)
    requires name in {CONTENT_LENGTH, CONTENT_TYPE, SEC_WEBSOCKET_KEY} && j < |name|
    ensures name[j] != CR && name[j] != LF
  {
  }

  lemma {:induction false} TrimRun(buf: bytes, cuts: seq<nat>, p: Parser, name: bytes, value: ParseStatus, e: nat)
    returns (v: nat)
    requires p.match_ + |name| <= p.offset <= e && LineEndsAt(buf, p.offset, e)
    requires IsName(p.status, name, value)
    ensures p.offset <= v <= e && Trimmed(buf[p.offset..e]) == buf[v..e]
    ensures Read(buf, cuts, p) == Read(buf, cuts, p.(status := value, offset := v, match_ := v))
    decreases e - p.offset
  {
    var c := buf[p.offset];
    NameStep(buf, p, name, value);
    if p.offset < e && (c == SP || c == COLON) {
      var q := p.(offset := p.offset + 1);
      StepTo(buf, cuts, p, q);
      assert buf[p.offset..e][1..] == buf[p.offset + 1..e];
      v := TrimRun(buf, cuts, q, name, value, e);
    } else {
      v := p.offset;
      StepTo(buf, cuts, p, p.(status := value, match_ := v));
    }
  }

  lemma {:induction false} TypeRun(buf: bytes, cuts: seq<nat>, p: Parser, e: nat)
    requires p.status == S_CONTENT_TYPE_V && p.offset <= e && LineEndsAt(buf, p.offset, e)
    ensures var v := FirstWord(buf[p.offset..e]);
            Read(buf, cuts, p) ==
            Read(buf, cuts, NextLine(p.(fields := p.fields.(content_type := p.fields.content_type + v)), e))
    decreases e - p.offset
  {
    var s := buf[p.offset..e];
    if s == [] || s[0] == SP || s[0] == CR {
      assert p.fields.content_type + [] == p.fields.content_type;
      var q := p.(status := S_EOL, offset := p.offset + 1);
      StepTo(buf, cuts, p, q);
      SkipToNextLine(buf, cuts, q, e);
    } else {
      assert s[1..] == buf[p.offset + 1..e];
      Associate(p.fields.content_type, [s[0]], FirstWord(s[1..]));
      ReadUnroll(buf, cuts, p);
      TypeRun(buf, cuts, Step(buf, p).p, e);
    }
  }

  lemma {:induction false} KeyRun(buf: bytes, cuts: seq<nat>, p: Parser, e: nat)
    requires p.status == S_SEC_WEBSOCKET_KEY_V && p.offset <= e && LineEndsAt(buf, p.offset, e)
    ensures var v := FirstWord(buf[p.offset..e]);
            Read(buf, cuts, p) ==
            Read(buf, cuts, NextLine(p.(fields := p.fields.(sec_websocket_key := p.fields.sec_websocket_key + v)), e))
    decreases e - p.offset
  {
    var s := buf[p.offset..e];
    if s == [] || s[0] == SP || s[0] == CR {
      assert p.fields.sec_websocket_key + [] == p.fields.sec_websocket_key;
      var q := p.(status := S_EOL, offset := p.offset + 1);
      StepTo(buf, cuts, p, q);
      SkipToNextLine(buf, cuts, q, e);
    } else {
      assert s[1..] == buf[p.offset + 1..e];
      Associate(p.fields.sec_websocket_key, [s[0]], FirstWord(s[1..]));
      ReadUnroll(buf, cuts, p);
      KeyRun(buf, cuts, Step(buf, p).p, e);
    }
  }

  lemma DecimalTail(s: bytes)
    requires s != []
    ensures IsDecimal(s) <==> IsNum(s[0]) && IsDecimal(s[1..])
  {
    if IsDecimal(s) {
      forall i | 0 <= i < |s| - 1 ensures IsNum(s[1..][i]) {
        assert IsNum(s[i + 1]);
      }
    } else {
      var i :| 0 <= i < |s| && !IsNum(s[i]);
      assert i > 0 ==> s[1..][i - 1] == s[i];
    }
  }

  lemma LengthStep(buf: bytes, p: Parser)
    requires p.status == S_CONTENT_LENGTH_V && p.offset < |buf| && Token(buf[p.offset]) != 0
    ensures var ch := buf[p.offset];
            Step(buf, p) ==
              if ch == SP || ch == CR then Advance(p.(status := S_EOL))
              else if !IsNum(ch) then Fail(p)
              else
                var n := (p.fields.content_length * 10 + (ch - 0x30)) % TWO_32;
                Advance(p.(fields := p.fields.(content_length := n)))
  {
    var n, d := p.fields.content_length, buf[p.offset] as int - 0x30;
    assert (n * 10 % TWO_32 + d) % TWO_32 == (n * 10 + d) % TWO_32;
  }

  lemma {:induction false} LengthRun(buf: bytes, cuts: seq<nat>, p: Parser, e: nat)
    requires p.status == S_CONTENT_LENGTH_V && p.offset <= e && LineEndsAt(buf, p.offset, e)
    ensures var v := FirstWord(buf[p.offset..e]);
            if IsDecimal(v) then
              var n := Accumulate(p.fields.content_length, v);
              Read(buf, cuts, p) == Read(buf, cuts, NextLine(p.(fields := p.fields.(content_length := n)), e))
            else Read(buf, cuts, p).verdict == ERROR
    decreases e - p.offset
  {
    var s := buf[p.offset..e];
    LengthStep(buf, p);
    if s == [] || s[0] == SP || s[0] == CR {
      var q := p.(status := S_EOL, offset := p.offset + 1);
      StepTo(buf, cuts, p, q);
      SkipToNextLine(buf, cuts, q, e);
    } else {
      assert s[1..] == buf[p.offset + 1..e];
      DecimalTail(FirstWord(s));
      if IsNum(s[0]) {
        var q := Step(buf, p).p;
        StepTo(buf, cuts, p, q);
        LengthRun(buf, cuts, q, e);
      } else {
        ReadUnroll(buf, cuts, p);
      }
    }
  }

  // ---- One header line ---------------------------------------------------------------------

  /** The line `line` with its line end stands at `from` in `buf`. */
  predicate LineAt(buf: bytes, from: nat, line: bytes) {
    && from + |line| + 2 <= |buf| && buf[from..from + |line|] == line
    && buf[from + |line|] == CR && buf[from + |line| + 1] == LF
  }

  lemma LegalLineEnds(buf: bytes, from: nat, line: bytes, at: nat)
    requires LineAt(buf, from, line) && IsLine(line) && !HasForbidden(line) && from <= at <= from + |line|
    ensures LineEndsAt(buf, at, from + |line|)
  {
    forall i | at <= i < from + |line| ensures Token(buf[i]) != 0 && buf[i] != LF {
      assert buf[i] == line[i - from];
    }
  }

  /** States of the parser inside the header. */
  predicate InHeader(s: ParseStatus) {
    !s.S_START? && !s.S_METHOD? && !s.S_METHOD_P? && !s.S_PATH? && !s.S_QUERY_STRING?
  }

  lemma ForbiddenStep(buf: bytes, cuts: seq<nat>, p: Parser)
    requires p.offset < |buf| && InHeader(p.status)
    ensures var s := StepSeen(buf, cuts, p);
            && (Token(buf[p.offset]) == 0 ==> s.verdict == ERROR)
            && (buf[p.offset] != LF ==> s.verdict != FINISHED)
            && (s.verdict == CONTINUE ==> InHeader(s.p.status) && s.p.offset <= p.offset + 1)
  {
  }

  /** In the header the parser does not get past a forbidden character, unless the header ends before it. */
  lemma {:induction false} ForbiddenRun(buf: bytes, cuts: seq<nat>, p: Parser, i: nat)
    requires p.offset <= i < |buf| && InHeader(p.status) && Token(buf[i]) == 0
    requires forall j | p.offset <= j < i :: buf[j] != LF
    ensures Read(buf, cuts, p).verdict == ERROR
    decreases i - p.offset, MayStay(p.status)
  {
    ReadUnroll(buf, cuts, p);
    ForbiddenStep(buf, cuts, p);
    var s := StepSeen(buf, cuts, p);
    if s.verdict == CONTINUE {
      ForbiddenRun(buf, cuts, s.p, i);
    }
  }

  lemma IllegalRun(buf: bytes, cuts: seq<nat>, p: Parser, line: bytes)
    requires p.status == S_HEADER_FIELD && LineAt(buf, p.offset, line) && IsLine(line) && Illegal(line)
    ensures Read(buf, cuts, p).verdict == ERROR
  {
    var k := p.offset;
    forall i | 0 <= i < |line| ensures buf[k + i] == line[i] {
      assert buf[k..k + |line|][i] == line[i];
    }
    if HasForbidden(line) {
      var i :| 0 <= i < |line| && Token(line[i]) == 0;
      forall j | k <= j < k + i ensures buf[j] != LF {
        assert buf[j] == line[j - k];
      }
      ForbiddenRun(buf, cuts, p, k + i);
    } else {
      assert buf[k + 0] == CR;
      var q := p.(status := S_EOH, offset := k + 1);
      StepTo(buf, cuts, p, q);
      assert buf[k + 1] != LF by {
        if |line| > 1 {
          assert buf[k + 1] == line[1];
        }
      }
      ReadUnroll(buf, cuts, q);
    }
  }

  lemma SpellsInLine(buf: bytes, from: nat, line: bytes, word: bytes)
    requires LineAt(buf, from, line) && forall i | 0 <= i < |word| :: word[i] != CR
    ensures Spells(buf, from, word) <==> Spells(line, 0, word)
  {
    var e := from + |line|;
    assert Token(buf[from + |line|]) == CR;
    if |word| > |line| {
      assert word[|line|] != CR;
    }
    forall i | 0 <= i < |line| ensures buf[from + i] == line[i] {
      assert buf[from..e][i] == line[i];
    }
    if Spells(line, 0, word) {
      forall i | 0 <= i < |word| ensures Token(buf[from + i]) == word[i] {
        assert Token(line[0 + i]) == word[i];
      }
    }
  }

  /** From `p` the parser fails, or goes on behind the line that ends at `e` with the fields `meaning`. */
  ghost predicate Becomes(buf: bytes, cuts: seq<nat>, p: Parser, meaning: Option<Fields>, e: nat)
    requires p.offset <= |buf| && e + 2 <= |buf|
  {
    match meaning
    case None => Read(buf, cuts, p).verdict == ERROR
    case Some(f) => Read(buf, cuts, p) == Read(buf, cuts, Parser(S_HEADER_FIELD, e + 2, e + 1, f))
  }

  /** The effect of the value `v` of the recognised header `name`. */
  function ValueMeaning(name: bytes, v: bytes, f: Fields): Option<Fields> {
    if name == CONTENT_LENGTH then
      (if IsDecimal(v) then Some(f.(content_length := Accumulate(f.content_length, v))) else None)
    else if name == CONTENT_TYPE then Some(f.(content_type := f.content_type + v))
    else Some(f.(sec_websocket_key := f.sec_websocket_key + v))
  }

  lemma ValueRun(buf: bytes, cuts: seq<nat>, p: Parser, e: nat, s: ParseStatus, name: bytes)
    requires IsName(s, name, p.status) && p.offset <= e && LineEndsAt(buf, p.offset, e)
    ensures Becomes(buf, cuts, p, ValueMeaning(name, FirstWord(buf[p.offset..e]), p.fields), e)
  {
    match p.status
    case S_CONTENT_LENGTH_V => LengthRun(buf, cuts, p, e);
    case S_CONTENT_TYPE_V => TypeRun(buf, cuts, p, e);
    case S_SEC_WEBSOCKET_KEY_V => KeyRun(buf, cuts, p, e);
  }

  /** From the end of a name on. */
  lemma BehindNameRun(buf: bytes, cuts: seq<nat>, p: Parser, line: bytes, name: bytes, value: ParseStatus, e: nat)
    requires |name| <= |line| && LineAt(buf, p.match_, line) && IsLine(line) && !HasForbidden(line)
    requires p.offset == p.match_ + |name|
    requires IsName(p.status, name, value) && e == p.match_ + |line|
    ensures Becomes(buf, cuts, p, ValueMeaning(name, Value(line, name), p.fields), e)
  {
    LegalLineEnds(buf, p.match_, line, p.offset);
    var v := TrimRun(buf, cuts, p, name, value, e);
    assert buf[p.offset..e] == line[|name|..];
    LegalLineEnds(buf, p.match_, line, v);
    ValueRun(buf, cuts, p.(status := value, offset := v, match_ := v), e, p.status, name);
  }

  lemma RestOfName(buf: bytes, k: nat, line: bytes, name: bytes)
    requires name in {CONTENT_LENGTH, CONTENT_TYPE, SEC_WEBSOCKET_KEY}
    requires |line| > 0 && LineAt(buf, k, line) && Token(line[0]) == name[0]
    ensures Spells(buf, k + 1, name[1..]) <==> Spells(line, 0, name)
  {
    SpellsTail(buf, k, name);
    assert buf[k] == line[0] by { assert buf[k..k + |line|][0] == line[0]; }
    forall i | 0 <= i < |name| ensures name[i] != CR { NameIsClean(name, i); }
    SpellsInLine(buf, k, line, name);
  }

  /** From the second character of a line that may start with `name` to the next line. */
  lemma NamedLineRun(buf: bytes, cuts: seq<nat>, p: Parser, line: bytes, name: bytes, value: ParseStatus)
    requires |line| > 0 && LineAt(buf, p.match_, line) && IsLine(line) && !HasForbidden(line)
    requires p.offset == p.match_ + 1
    requires IsName(p.status, name, value) && Token(line[0]) == name[0]
    ensures Becomes(buf, cuts, p, if Spells(line, 0, name) then ValueMeaning(name, Value(line, name), p.fields)
                                  else Some(p.fields), p.match_ + |line|)
  {
    var k, e := p.match_, p.match_ + |line|;
    LegalLineEnds(buf, k, line, k + 1);
    NameRun(buf, cuts, p, name, value, e);
    RestOfName(buf, k, line, name);
    if Spells(line, 0, name) {
      BehindNameRun(buf, cuts, p.(offset := k + |name|), line, name, value, e);
    }
  }

  lemma WordsDiffer(line: bytes)
    ensures Spells(line, 0, CONTENT_LENGTH) ==>
              Spells(line, 0, CONTENT_) && Token(line[8]) == LETTER_L && !Spells(line, 0, SEC_WEBSOCKET_KEY)
    ensures Spells(line, 0, CONTENT_TYPE) ==>
              Spells(line, 0, CONTENT_) && Token(line[8]) == LETTER_T && !Spells(line, 0, SEC_WEBSOCKET_KEY)
    ensures Spells(line, 0, CONTENT_LENGTH) || Spells(line, 0, CONTENT_TYPE) ==> Token(line[0]) == LETTER_C
    ensures Spells(line, 0, SEC_WEBSOCKET_KEY) ==> Token(line[0]) == LETTER_S
  {
    if Spells(line, 0, CONTENT_LENGTH) {
      assert Token(line[0 + 8]) == CONTENT_LENGTH[8] && Token(line[0 + 0]) == CONTENT_LENGTH[0];
      forall i | 0 <= i < 8 ensures Token(line[0 + i]) == CONTENT_[i] {
        assert Token(line[0 + i]) == CONTENT_LENGTH[i];
      }
    }
    if Spells(line, 0, CONTENT_TYPE) {
      assert Token(line[0 + 8]) == CONTENT_TYPE[8] && Token(line[0 + 0]) == CONTENT_TYPE[0];
      forall i | 0 <= i < 8 ensures Token(line[0 + i]) == CONTENT_[i] {
        assert Token(line[0 + i]) == CONTENT_TYPE[i];
      }
    }
    if Spells(line, 0, SEC_WEBSOCKET_KEY) {
      assert Token(line[0 + 0]) == SEC_WEBSOCKET_KEY[0];
    }
  }

  /** The state after a line's first character, and what the line can then spell. */
  predicate Named(line: bytes, s: ParseStatus)
    requires |line| > 0
  {
    && s in {S_EOL, S_CONTENT_LENGTH, S_CONTENT_TYPE, S_SEC_WEBSOCKET_KEY}
    && (Spells(line, 0, CONTENT_LENGTH) ==> s == S_CONTENT_LENGTH)
    && (Spells(line, 0, CONTENT_TYPE) ==> s == S_CONTENT_TYPE)
    && (Spells(line, 0, SEC_WEBSOCKET_KEY) ==> s == S_SEC_WEBSOCKET_KEY)
    && (s == S_SEC_WEBSOCKET_KEY ==> Token(line[0]) == LETTER_S)
    && (s in {S_CONTENT_LENGTH, S_CONTENT_TYPE} ==> Token(line[0]) == LETTER_C)
  }

  /** What the parser makes of a line's first character. */
  lemma FirstOfLine(buf: bytes, p: Parser, line: bytes)
    requires p.status == S_HEADER_FIELD && |line| > 0 && LineAt(buf, p.offset, line) && IsLine(line) && !Illegal(line)
    requires Token(line[0]) == LETTER_C ==> |buf| - p.offset >= 9
    ensures var q := Step(buf, p).p;
            && Step(buf, p) == Stepped(CONTINUE, q) && q.offset == p.offset + 1 && q.fields == p.fields
            && Named(line, q.status) && (q.status == S_EOL || q.match_ == p.offset)
  {
    var k := p.offset;
    assert buf[k] == line[0] by { assert buf[k..k + |line|][0] == line[0]; }
    WordsDiffer(line);
    SpellsInLine(buf, k, line, CONTENT_);
    if |line| > 8 {
      assert buf[k + 8] == line[8] by { assert buf[k..k + |line|][8] == line[8]; }
    }
  }

  /** No line starts with two names. */
  lemma MeaningOfNamed(line: bytes, f: Fields, name: bytes)
    requires name in {CONTENT_LENGTH, CONTENT_TYPE, SEC_WEBSOCKET_KEY} && Spells(line, 0, name) && !Illegal(line)
    ensures LineMeaning(line, f) == ValueMeaning(name, Value(line, name), f)
  {
    WordsDiffer(line);
  }

  lemma MeaningOfOther(line: bytes, f: Fields)
    requires !Spells(line, 0, CONTENT_LENGTH) && !Spells(line, 0, CONTENT_TYPE) && !Spells(line, 0, SEC_WEBSOCKET_KEY)
    requires !Illegal(line)
    ensures LineMeaning(line, f) == Some(f)
  {
  }

  lemma LineOfName(buf: bytes, cuts: seq<nat>, p: Parser, line: bytes, name: bytes, value: ParseStatus, f: Fields)
    requires |line| > 0 && LineAt(buf, p.match_, line) && IsLine(line) && !Illegal(line)
    requires p.offset == p.match_ + 1 && f == p.fields
    requires IsName(p.status, name, value) && Token(line[0]) == name[0]
    requires Named(line, p.status)
    ensures Becomes(buf, cuts, p, LineMeaning(line, f), p.match_ + |line|)
  {
    NamedLineRun(buf, cuts, p, line, name, value);
    if Spells(line, 0, name) {
      MeaningOfNamed(line, f, name);
    } else {
      MeaningOfOther(line, f);
    }
  }

  /** From the second character of a line at `k` to the next line. */
  lemma RestOfLineRun(buf: bytes, cuts: seq<nat>, q: Parser, k: nat, line: bytes, f: Fields)
    requires q.offset == k + 1 && q.fields == f && |line| > 0 && LineAt(buf, k, line) && IsLine(line) && !Illegal(line)
    requires q.status == S_EOL || q.match_ == k
    requires Named(line, q.status)
    ensures Becomes(buf, cuts, q, LineMeaning(line, f), k + |line|)
  {
    match q.status
    case S_CONTENT_LENGTH => LineOfName(buf, cuts, q, line, CONTENT_LENGTH, S_CONTENT_LENGTH_V, f);
    case S_CONTENT_TYPE => LineOfName(buf, cuts, q, line, CONTENT_TYPE, S_CONTENT_TYPE_V, f);
    case S_SEC_WEBSOCKET_KEY => LineOfName(buf, cuts, q, line, SEC_WEBSOCKET_KEY, S_SEC_WEBSOCKET_KEY_V, f);
    case S_EOL =>
      MeaningOfOther(line, f);
      LegalLineEnds(buf, k, line, k + 1);
      SkipToNextLine(buf, cuts, q, k + |line|);
  }

  /** A header line that the parser reads from its start is worth exactly its meaning. */
  lemma LineRun(buf: bytes, cuts: seq<nat>, p: Parser, line: bytes)
    requires p.status == S_HEADER_FIELD && |line| > 0 && LineAt(buf, p.offset, line) && IsLine(line)
    requires Token(line[0]) == LETTER_C ==> Seen(cuts, p.offset, |buf|) - p.offset >= 9
    ensures Becomes(buf, cuts, p, LineMeaning(line, p.fields), p.offset + |line|)
  {
    if Illegal(line) {
      IllegalRun(buf, cuts, p, line);
    } else {
      FirstOfLine(buf, p, line);
      var q := Step(buf, p).p;
      StepTo(buf, cuts, p, q);
      RestOfLineRun(buf, cuts, q, p.offset, line, p.fields);
    }
  }
}
