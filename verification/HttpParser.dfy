/** The request parser's transition function. One call of `Request::Parse` is `Run`. */
module HttpParser {
  import opened Bytes

  const LF: byte := 0x0a
  const CR: byte := 0x0d
  const SP: byte := 0x20
  const COLON: byte := 0x3a
  const QUESTION: byte := 0x3f
  const LETTER_A: byte := 0x61
  const LETTER_C: byte := 0x63
  const LETTER_D: byte := 0x64
  const LETTER_E: byte := 0x65
  const LETTER_G: byte := 0x67
  const LETTER_H: byte := 0x68
  const LETTER_L: byte := 0x6c
  const LETTER_O: byte := 0x6f
  const LETTER_P: byte := 0x70
  const LETTER_S: byte := 0x73
  const LETTER_T: byte := 0x74
  const LETTER_U: byte := 0x75

  const CONTENT_: bytes := [0x63, 0x6f, 0x6e, 0x74, 0x65, 0x6e, 0x74, 0x2d] // "content-"
  const CONTENT_LENGTH: bytes := CONTENT_ + [0x6c, 0x65, 0x6e, 0x67, 0x74, 0x68] // "content-length"
  const CONTENT_TYPE: bytes := CONTENT_ + [0x74, 0x79, 0x70, 0x65] // "content-type"
  const SEC_WEBSOCKET_KEY: bytes := // "sec-websocket-key"
    [0x73, 0x65, 0x63, 0x2d, 0x77, 0x65, 0x62, 0x73, 0x6f, 0x63, 0x6b, 0x65, 0x74, 0x2d, 0x6b, 0x65, 0x79]

  datatype Method = GET | POST | HEAD | PUT | DELETE | CONNECT | OPTIONS | TRACE | PATCH | UNKNOWN

  function Name(m: Method): bytes {
    match m
    case GET => [0x67, 0x65, 0x74]
    case POST => [0x70, 0x6f, 0x73, 0x74]
    case HEAD => [0x68, 0x65, 0x61, 0x64]
    case PUT => [0x70, 0x75, 0x74]
    case DELETE => [0x64, 0x65, 0x6c, 0x65, 0x74, 0x65]
    case CONNECT => [0x63, 0x6f, 0x6e, 0x6e, 0x65, 0x63, 0x74]
    case OPTIONS => [0x6f, 0x70, 0x74, 0x69, 0x6f, 0x6e, 0x73]
    case TRACE => [0x74, 0x72, 0x61, 0x63, 0x65]
    case PATCH => [0x70, 0x61, 0x74, 0x63, 0x68]
    case UNKNOWN => []
  }

  /** The `TOKEN` table: letters folded to lower case, 0 for characters that no request may contain. */
  function Token(ch: byte): byte {
    if ch == SP || ch == CR || ch == LF then ch
    else if 0x41 <= ch <= 0x5a then ch + 0x20
    else if 0x21 <= ch <= 0x7e && ch != 0x5c then ch
    else 0
  }

  /** The `normal_url_char` bit table: printable ASCII but for `#` and `?`. */
  predicate IsUrlChar(ch: byte) { 0x21 <= ch <= 0x7e && ch != 0x23 && ch != QUESTION }

  predicate IsNum(c: byte) { 0x30 <= c <= 0x39 }

  datatype ParseStatus =
    | S_START | S_METHOD | S_METHOD_P | S_PATH | S_QUERY_STRING
    | S_CONTENT_LENGTH | S_CONTENT_LENGTH_V | S_CONTENT_TYPE | S_CONTENT_TYPE_V
    | S_SEC_WEBSOCKET_KEY | S_SEC_WEBSOCKET_KEY_V | S_EOL | S_HEADER_FIELD | S_EOH

  datatype ParserStatus = CONTINUE | ERROR | FINISHED

  /** What a request has been found to say so far. */
  datatype Fields = Fields(verb: Method, path: bytes, query_string: bytes, content_length: nat,
                           content_type: bytes, sec_websocket_key: bytes, header_len: nat)

  datatype Parser = Parser(status: ParseStatus, offset: nat, match_: nat, fields: Fields)

  const NO_FIELDS := Fields(UNKNOWN, [], [], 0, [], [], 0)
  const START := Parser(S_START, 0, 0, NO_FIELDS)

  datatype Stepped = Stepped(verdict: ParserStatus, p: Parser)

  function Advance(p: Parser): Stepped { Stepped(CONTINUE, p.(offset := p.offset + 1)) }
  function Fail(p: Parser): Stepped { Stepped(ERROR, p) }

  /** `Advance` in another state. */
  function To(p: Parser, status: ParseStatus): Stepped { Advance(p.(status := status)) }

  function StepStart(p: Parser, c: byte): Stepped {
    if c == LETTER_G then To(p.(fields := p.fields.(verb := GET)), S_METHOD)
    else if c == LETTER_P then To(p, S_METHOD_P)
    else if c == LETTER_H then To(p.(fields := p.fields.(verb := HEAD)), S_METHOD)
    else if c == LETTER_D then To(p.(fields := p.fields.(verb := DELETE)), S_METHOD)
    else if c == LETTER_C then To(p.(fields := p.fields.(verb := CONNECT)), S_METHOD)
    else if c == LETTER_O then To(p.(fields := p.fields.(verb := OPTIONS)), S_METHOD)
    else if c == LETTER_T then To(p.(fields := p.fields.(verb := TRACE)), S_METHOD)
    else Fail(p)
  }

  function StepMethodP(p: Parser, c: byte): Stepped {
    if c == LETTER_O then To(p.(fields := p.fields.(verb := POST)), S_METHOD)
    else if c == LETTER_U then To(p.(fields := p.fields.(verb := PUT)), S_METHOD)
    else if c == LETTER_A then To(p.(fields := p.fields.(verb := PATCH)), S_METHOD)
    else Fail(p.(status := S_METHOD))
  }

  function StepMethod(p: Parser, c: byte): Stepped {
    var name := Name(p.fields.verb);
    if name == [] then Fail(p)
    else if p.offset > |name| - 1 then
      if c == SP then Advance(p)
      else if p.offset == |name| then Fail(p)
      else Stepped(CONTINUE, p.(status := S_PATH, match_ := p.offset))
    else if p.offset < p.match_ || name[p.offset - p.match_] != c then Fail(p)
    else Advance(p)
  }

  function StepPath(p: Parser, ch: byte): Stepped {
    if ch == SP then (if p.fields.path != [] then To(p, S_EOL) else Fail(p))
    else if IsUrlChar(ch) then Advance(p.(fields := p.fields.(path := p.fields.path + [ch])))
    else if ch == QUESTION then To(p, S_QUERY_STRING)
    else Fail(p)
  }

  function StepQuery(p: Parser, ch: byte): Stepped {
    if ch == SP then To(p, S_EOL)
    else if IsUrlChar(ch) then Advance(p.(fields := p.fields.(query_string := p.fields.query_string + [ch])))
    else Fail(p)
  }

  function StepEol(buf: bytes, p: Parser, c: byte): Stepped
    requires p.offset < |buf|
  {
    if c != LF then Advance(p)
    else if p.offset > 0 && buf[p.offset - 1] == CR then To(p.(match_ := p.offset), S_HEADER_FIELD)
    else Fail(p)
  }

  /** The tokens of `buf` at `offset` spell `word`. */
  predicate Spells(buf: bytes, offset: nat, word: bytes) {
    offset + |word| <= |buf| && forall i | 0 <= i < |word| :: Token(buf[offset + i]) == word[i]
  }

  /** With fewer than nine bytes at hand a `c` is skipped, and the next byte is taken for a line's first. */
  function StepHeaderField(buf: bytes, p: Parser, c: byte): Stepped
    requires p.offset < |buf|
  {
    if c == CR then To(p, S_EOH)
    else if c == LETTER_C then
      if |buf| - p.offset < 9 then Advance(p)
      else if Spells(buf, p.offset, CONTENT_) then
        if Token(buf[p.offset + 8]) == LETTER_L then To(p.(match_ := p.offset), S_CONTENT_LENGTH)
        else if Token(buf[p.offset + 8]) == LETTER_T then To(p.(match_ := p.offset), S_CONTENT_TYPE)
        else To(p, S_EOL)
      else To(p, S_EOL)
    else if c == LETTER_S then To(p.(match_ := p.offset), S_SEC_WEBSOCKET_KEY)
    else To(p, S_EOL)
  }

  function StepEoh(p: Parser, c: byte): Stepped {
    if c == LF then Stepped(FINISHED, p.(fields := p.fields.(header_len := p.offset + 1))) else Fail(p)
  }

  /** Inside a header name that should be `name`, or between it and its value. */
  function StepName(p: Parser, c: byte, name: bytes, value: ParseStatus): Stepped {
    if p.offset - p.match_ >= |name| then
      if c != SP && c != COLON then Stepped(CONTINUE, p.(status := value, match_ := p.offset)) else Advance(p)
    else if p.offset < p.match_ || name[p.offset - p.match_] != c then To(p, S_EOL)
    else Advance(p)
  }

  function StepLengthValue(p: Parser, c: byte): Stepped {
    if c == SP || c == CR then To(p, S_EOL)
    else if !IsNum(c) then Fail(p)
    else
      var n := (p.fields.content_length * 10 % TWO_32 + (c - 0x30)) % TWO_32;
      Advance(p.(fields := p.fields.(content_length := n)))
  }

  function StepTypeValue(p: Parser, ch: byte, c: byte): Stepped {
    if c == SP || c == CR then To(p, S_EOL)
    else Advance(p.(fields := p.fields.(content_type := p.fields.content_type + [ch])))
  }

  function StepKeyValue(p: Parser, ch: byte, c: byte): Stepped {
    if c == SP || c == CR then To(p, S_EOL)
    else Advance(p.(fields := p.fields.(sec_websocket_key := p.fields.sec_websocket_key + [ch])))
  }

  /** One round of the parse loop. */
  function Step(buf: bytes, p: Parser): (s: Stepped)
    requires p.offset < |buf|
    ensures Moves(buf, p, s)
  {
    var ch := buf[p.offset];
    var c := Token(ch);
    if c == 0 then Fail(p)
    else match p.status
      case S_EOL => StepEol(buf, p, c)
      case S_START => StepStart(p, c)
      case S_METHOD => StepMethod(p, c)
      case S_METHOD_P => StepMethodP(p, c)
      case S_PATH => StepPath(p, ch)
      case S_QUERY_STRING => StepQuery(p, ch)
      case S_HEADER_FIELD => StepHeaderField(buf, p, c)
      case S_EOH => StepEoh(p, c)
      case S_CONTENT_LENGTH => StepName(p, c, CONTENT_LENGTH, S_CONTENT_LENGTH_V)
      case S_CONTENT_LENGTH_V => StepLengthValue(p, c)
      case S_SEC_WEBSOCKET_KEY => StepName(p, c, SEC_WEBSOCKET_KEY, S_SEC_WEBSOCKET_KEY_V)
      case S_SEC_WEBSOCKET_KEY_V => StepKeyValue(p, ch, c)
      case S_CONTENT_TYPE => StepName(p, c, CONTENT_TYPE, S_CONTENT_TYPE_V)
      case S_CONTENT_TYPE_V => StepTypeValue(p, ch, c)
  }

  /** States with a transition that looks at the same character again. */
  predicate MayStay(s: ParseStatus) {
    s.S_METHOD? || s.S_CONTENT_LENGTH? || s.S_SEC_WEBSOCKET_KEY? || s.S_CONTENT_TYPE?
  }

  /** A round moves on in the buffer or, once, to a value state; a verdict leaves the offset alone. */
  predicate Moves(buf: bytes, p: Parser, s: Stepped)
    requires p.offset < |buf|
  {
    if s.verdict == CONTINUE
    then p.offset < s.p.offset <= |buf| || (s.p.offset == p.offset && MayStay(p.status) && !MayStay(s.p.status))
    else s.p.offset == p.offset && (s.verdict == FINISHED ==> s.p.fields.header_len == p.offset + 1)
  }

  /** The end of the bytes at hand when the parser looks at `k`: the first boundary behind it among `cuts`,
      or the end of all `n` bytes. */
  function Seen(cuts: seq<nat>, k: nat, n: nat): (e: nat)
    ensures e <= n && (k < n ==> k < e)
    decreases |cuts|
  {
    if cuts == [] then n else if k < cuts[0] <= n then cuts[0] else Seen(cuts[1..], k, n)
  }

  /** One round of the parse loop on a stream that comes in pieces. The pieces matter only to the look-ahead. */
  function StepSeen(buf: bytes, cuts: seq<nat>, p: Parser): (s: Stepped)
    requires p.offset < |buf|
    ensures Moves(buf, p, s)
  {
    if p.status.S_HEADER_FIELD? && Token(buf[p.offset]) == LETTER_C && Seen(cuts, p.offset, |buf|) - p.offset < 9
    then Advance(p)
    else Step(buf, p)
  }

  type Machine = (bytes, Parser) -> Stepped

  /** `step` is `StepSeen`. Proofs look inside it only where they mention `StepSeen`. */
  ghost predicate Follows(step: Machine, cuts: seq<nat>) {
    forall buf, p: Parser {:trigger StepSeen(buf, cuts, p)} ::
      p.offset < |buf| ==> step(buf, p) == StepSeen(buf, cuts, p)
  }

  ghost predicate Progresses(step: Machine) {
    forall buf, p: Parser {:trigger step(buf, p)} :: p.offset < |buf| ==> Moves(buf, p, step(buf, p))
  }

  ghost function TheMachine(cuts: seq<nat>): (step: Machine)
    ensures Follows(step, cuts) && Progresses(step)
  {
    var literal: Machine :=
      (buf: bytes, p: Parser) => if p.offset < |buf| then StepSeen(buf, cuts, p) else Stepped(CONTINUE, p);
    assert Follows(literal, cuts) && Progresses(literal);
    var step :| Follows(step, cuts) && Progresses(step);
    step
  }

  function RunBy(step: Machine, buf: bytes, p: Parser): (s: Stepped)
    requires p.offset <= |buf| && Progresses(step)
    ensures p.offset <= s.p.offset <= |buf| && (s.verdict == CONTINUE ==> s.p.offset == |buf|)
    ensures s.verdict == FINISHED ==> s.p.fields.header_len == s.p.offset + 1 <= |buf|
    decreases |buf| - p.offset, MayStay(p.status)
  {
    if p.offset == |buf| then Stepped(CONTINUE, p)
    else
      var s := step(buf, p);
      if s.verdict == CONTINUE then RunBy(step, buf, s.p) else s
  }

  /** The calls of `Parse` on a stream that is cut into pieces at `cuts`. */
  ghost function Read(buf: bytes, cuts: seq<nat>, p: Parser): (s: Stepped)
    requires p.offset <= |buf|
    ensures p.offset <= s.p.offset <= |buf| && (s.verdict == CONTINUE ==> s.p.offset == |buf|)
    ensures s.verdict == FINISHED ==> s.p.fields.header_len == s.p.offset + 1 <= |buf|
  {
    RunBy(TheMachine(cuts), buf, p)
  }

  /** One call of `Parse` on the buffer `buf`. */
  ghost function Run(buf: bytes, p: Parser): (s: Stepped)
    requires p.offset <= |buf|
    ensures p.offset <= s.p.offset <= |buf| && (s.verdict == CONTINUE ==> s.p.offset == |buf|)
    ensures s.verdict == FINISHED ==> s.p.fields.header_len == s.p.offset + 1 <= |buf|
  {
    Read(buf, [], p)
  }

  lemma ReadUnroll(buf: bytes, cuts: seq<nat>, p: Parser)
    requires p.offset <= |buf|
    ensures Read(buf, cuts, p) ==
              if p.offset == |buf| then Stepped(CONTINUE, p)
              else if StepSeen(buf, cuts, p).verdict == CONTINUE then Read(buf, cuts, StepSeen(buf, cuts, p).p)
              else StepSeen(buf, cuts, p)
  {
  }

  lemma RunUnroll(buf: bytes, p: Parser)
    requires p.offset <= |buf|
    ensures Run(buf, p) ==
              if p.offset == |buf| then Stepped(CONTINUE, p)
              else if Step(buf, p).verdict == CONTINUE then Run(buf, Step(buf, p).p)
              else Step(buf, p)
  {
    ReadUnroll(buf, [], p);
    if p.offset < |buf| {
      assert StepSeen(buf, [], p) == Step(buf, p);
    }
  }
}
