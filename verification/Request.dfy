/** The request object: the parse loop on its own buffer, and the driver that fills that buffer under limits. */
module Request {
  import opened Bytes
  import opened Io
  import opened Connection
  import opened HttpParser
  import HttpResume

  datatype RequestStatus = HEADER_RECEIVING | BODY_RECEIVING | BODY_RECEIVED | UPGRADED

  // ---- Failed parses -----------------------------------------------------------------------

  /** The parser stands at a character it rejects. */
  predicate Stuck(buf: bytes, p: Parser) { p.offset < |buf| && Step(buf, p) == Fail(p) }

  /** No method is known before the second letter of one that starts with p. */
  predicate VerbLate(p: Parser) { p.status == S_START || p.status == S_METHOD_P ==> p.fields.verb == UNKNOWN }

  /** A parser that has failed fails again at the same character, whatever else arrives. */
  lemma {:induction false} RunFailsForGood(buf: bytes, p: Parser)
    requires p.offset <= |buf| && VerbLate(p)
    ensures var s := Run(buf, p);
            VerbLate(s.p) && (s.verdict == ParserStatus.ERROR ==> Stuck(buf, s.p))
    decreases |buf| - p.offset, MayStay(p.status)
  {
    RunUnroll(buf, p);
    if p.offset < |buf| {
      StepFailsForGood(buf, p);
      if Step(buf, p).verdict == CONTINUE {
        RunFailsForGood(buf, Step(buf, p).p);
      }
    }
  }

  lemma StepFailsForGood(buf: bytes, p: Parser)
    requires p.offset < |buf| && VerbLate(p)
    ensures var s := Step(buf, p);
            VerbLate(s.p) && (s.verdict == ParserStatus.ERROR ==> Stuck(buf, s.p))
  {
  }

  lemma StuckStays(buf: bytes, more: bytes, p: Parser)
    requires Stuck(buf, p)
    ensures Stuck(buf + more, p) && Run(buf + more, p) == Fail(p)
  {
    RunUnroll(buf + more, p);
  }

  // ---- The request object ------------------------------------------------------------------

  /** `buf` starts with the pieces `chunks`, with all of them while the parser asks for more, and fed with
      them piece by piece the parser has come to `verdict` and `p`. */
  ghost predicate ParsedFrom(chunks: seq<bytes>, buf: bytes, verdict: ParserStatus, p: Parser) {
    && Concat(chunks) <= buf
    && (verdict == CONTINUE ==> Concat(chunks) == buf && p.offset == |buf|)
    && HttpResume.Feed([], START, chunks) == Stepped(verdict, p)
  }

  lemma ParsedNothing()
    ensures ParsedFrom([], [], CONTINUE, START)
  {
  }

  /** One more piece for a parser that has asked for more. */
  lemma {:induction false} FeedMore(buf: bytes, p: Parser, chunks: seq<bytes>, data: bytes)
    requires p.offset <= |buf| && HttpResume.Feed(buf, p, chunks).verdict == CONTINUE
    ensures var s := HttpResume.Feed(buf, p, chunks);
            && s.p.offset <= |buf + Concat(chunks)|
            && HttpResume.Feed(buf, p, chunks + [data]) == Run(buf + Concat(chunks) + data, s.p)
    ensures Concat(chunks + [data]) == Concat(chunks) + data
    decreases |chunks|
  {
    if chunks == [] {
      assert buf + [] == buf && data + [] == [] + data;
    } else {
      var s := Run(buf + chunks[0], p);
      assert (chunks + [data])[1..] == chunks[1..] + [data];
      FeedMore(buf + chunks[0], s.p, chunks[1..], data);
      Associate(buf, chunks[0], Concat(chunks[1..]));
      Associate(chunks[0], Concat(chunks[1..]), data);
    }
  }

  lemma ParsesOn(chunks: seq<bytes>, buf: bytes, p: Parser, data: bytes)
    requires ParsedFrom(chunks, buf, CONTINUE, p) && VerbLate(p)
    ensures var s := Run(buf + data, p);
            && ParsedFrom(chunks + [data], buf + data, s.verdict, s.p) && VerbLate(s.p)
            && (s.verdict == ParserStatus.ERROR ==> Stuck(buf + data, s.p))
  {
    FeedMore([], START, chunks, data);
    assert [] + buf + data == buf + data;
    RunFailsForGood(buf + data, p);
  }

  /** What was read went to the end of the buffer, in order, and no byte is lost. */
  predicate Flowed(before: bytes, script: seq<ReadEvent>, after: bytes, rest: seq<ReadEvent>) {
    before <= after && after + Incoming(rest) == before + Incoming(script)
  }

  class Request {
    var status: RequestStatus
    var error_code: int
    var rbuf: bytes
    /** A `uint32_t`. It is ahead of `rbuf` after a header that was too long. */
    var rbuf_len: nat

    var parse_status: ParseStatus
    var parse_offset: nat
    var parse_match: nat

    var verb: Method
    var path: bytes
    var query_string: bytes
    var content_length: nat
    var content_type: bytes
    var sec_websocket_key: bytes
    var header_len: nat

    /** How often this request has been pushed on the task queue since the connection was accepted. */
    var queued: nat

    const conn: Connection
    const max_header_size: nat
    const max_post_size: nat

    /** The pieces in which the header has come in. */
    ghost var chunks: seq<bytes>

    constructor (conn: Connection, max_header_size: nat, max_post_size: nat)
      requires max_header_size + max_post_size + READ_BUFFER_SIZE < TWO_32
      ensures this.conn == conn && this.max_header_size == max_header_size && this.max_post_size == max_post_size
      ensures Valid() && status == HEADER_RECEIVING && error_code == 0 && rbuf == [] && queued == 0 && chunks == []
    {
      this.conn, this.max_header_size, this.max_post_size := conn, max_header_size, max_post_size;
      status, error_code, rbuf, rbuf_len, queued, chunks := HEADER_RECEIVING, 0, [], 0, 0, [];
      parse_status, parse_offset, parse_match := S_START, 0, 0;
      verb, path, query_string, content_length := UNKNOWN, [], [], 0;
      content_type, sec_websocket_key, header_len := [], [], 0;
    }

    predicate Limits() { max_header_size + max_post_size + READ_BUFFER_SIZE < TWO_32 }

    /** What holds between calls, also after a call that failed. */
    ghost predicate Valid()
      reads this
    {
      && Limits()
      && |rbuf| < max_header_size + max_post_size + READ_BUFFER_SIZE
      && parse_offset <= |rbuf| <= rbuf_len < TWO_32
      && (match status
          case HEADER_RECEIVING => queued == 0 && |rbuf| <= max_header_size && ValidHeader()
          case BODY_RECEIVING => queued == 0 && HeaderIn() && (error_code == 0 || content_length > max_post_size)
          case _ => queued == 1 && HeaderIn() && Complete() && error_code == 0)
    }

    /** While the header comes in the parser has seen all of it, unless a call has failed: then it has
        stopped for good at a character it rejects, or the buffer for good at its limit. */
    ghost predicate ValidHeader()
      reads this
    {
      if error_code == 0 then
        rbuf_len == |rbuf| && ParsedFrom(chunks, rbuf, CONTINUE, State()) && VerbLate(State())
      else rbuf_len > max_header_size || (rbuf_len == |rbuf| && Stuck(rbuf, State()))
    }

    /** `rbuf` starts with a header the parser has finished. */
    ghost predicate HeaderIn()
      reads this
    {
      && rbuf_len == |rbuf| && header_len <= max_header_size && header_len <= |rbuf|
      && ParsedFrom(chunks, rbuf, FINISHED, State())
    }

    /** `rbuf` holds the whole header and body. */
    predicate Complete()
      reads this
    {
      header_len + content_length <= |rbuf|
    }

    function State(): Parser
      reads this
    {
      Parser(parse_status, parse_offset, parse_match,
             Fields(verb, path, query_string, content_length, content_type, sec_websocket_key, header_len))
    }

    /** Everything the parse loop does not touch. */
    twostate predicate Unparsed()
      reads this
    {
      && status == old(status) && error_code == old(error_code) && queued == old(queued)
      && rbuf == old(rbuf) && rbuf_len == old(rbuf_len) && chunks == old(chunks)
    }

    /** Neither the buffer nor what is known of the request has changed. */
    twostate predicate Untouched()
      reads this
    {
      && status == old(status) && error_code == old(error_code) && queued == old(queued)
      && rbuf == old(rbuf) && chunks == old(chunks) && State() == old(State())
    }

    method ResetFields()
      modifies this
      ensures Unparsed() && State() == old(State()).(fields := NO_FIELDS)
    {
      verb, path, query_string, content_length := UNKNOWN, [], [], 0;
      content_type, sec_websocket_key, header_len := [], [], 0;
    }

    method ResetParser()
      modifies this
      ensures Unparsed() && State() == START
    {
      ResetFields();
      parse_status, parse_offset, parse_match := S_START, 0, 0;
    }

    /** Forget the client, as when the connection is recycled. */
    method Reset()
      requires Limits()
      modifies this
      ensures Valid() && status == HEADER_RECEIVING && error_code == 0 && rbuf == [] && queued == 0 && chunks == []
    {
      ParsedNothing();
      ResetParser();
      status, error_code, rbuf, rbuf_len, queued, chunks := HEADER_RECEIVING, 0, [], 0, 0, [];
    }

    // ---- The parse loop --------------------------------------------------------------------

    method ParseStart(c: byte) returns (verdict: ParserStatus)
      requires parse_status == S_START
      modifies this
      ensures Unparsed() && Stepped(verdict, State()) == StepStart(old(State()), c)
    {
      parse_status := S_METHOD;
      if c == LETTER_G {
        verb := GET;
      } else if c == LETTER_P {
        parse_status := S_METHOD_P;
      } else if c == LETTER_H {
        verb := HEAD;
      } else if c == LETTER_D {
        verb := DELETE;
      } else if c == LETTER_C {
        verb := CONNECT;
      } else if c == LETTER_O {
        verb := OPTIONS;
      } else if c == LETTER_T {
        verb := TRACE;
      } else {
        parse_status := S_START;
        return ParserStatus.ERROR;
      }
      parse_offset := parse_offset + 1;
      return CONTINUE;
    }

    method ParseMethodP(c: byte) returns (verdict: ParserStatus)
      modifies this
      ensures Unparsed() && Stepped(verdict, State()) == StepMethodP(old(State()), c)
    {
      parse_status := S_METHOD;
      if c == LETTER_O {
        verb := POST;
      } else if c == LETTER_U {
        verb := PUT;
      } else if c == LETTER_A {
        verb := PATCH;
      } else {
        return ParserStatus.ERROR;
      }
      parse_offset := parse_offset + 1;
      return CONTINUE;
    }

    method ParseMethod(c: byte) returns (verdict: ParserStatus)
      modifies this
      ensures Unparsed() && Stepped(verdict, State()) == StepMethod(old(State()), c)
    {
      var name := Name(verb);
      if name == [] {
        return ParserStatus.ERROR;
      }
      if parse_offset > |name| - 1 {
        if c != SP {
          if parse_offset == |name| {
            return ParserStatus.ERROR;
          }
          parse_status, parse_match := S_PATH, parse_offset;
          return CONTINUE;
        }
      } else if parse_offset < parse_match || name[parse_offset - parse_match] != c {
        return ParserStatus.ERROR;
      }
      parse_offset := parse_offset + 1;
      return CONTINUE;
    }

    method ParsePath(ch: byte) returns (verdict: ParserStatus)
      modifies this
      ensures Unparsed() && Stepped(verdict, State()) == StepPath(old(State()), ch)
    {
      if ch != SP {
        if IsUrlChar(ch) {
          path := path + [ch];
        } else if ch == QUESTION {
          parse_status := S_QUERY_STRING;
        } else {
          return ParserStatus.ERROR;
        }
      } else if path != [] {
        parse_status := S_EOL;
      } else {
        return ParserStatus.ERROR;
      }
      parse_offset := parse_offset + 1;
      return CONTINUE;
    }

    method ParseQuery(ch: byte) returns (verdict: ParserStatus)
      modifies this
      ensures Unparsed() && Stepped(verdict, State()) == StepQuery(old(State()), ch)
    {
      if ch != SP {
        if IsUrlChar(ch) {
          query_string := query_string + [ch];
        } else {
          return ParserStatus.ERROR;
        }
      } else {
        parse_status := S_EOL;
      }
      parse_offset := parse_offset + 1;
      return CONTINUE;
    }

    method ParseEol(c: byte) returns (verdict: ParserStatus)
      requires parse_offset < |rbuf|
      modifies this
      ensures Unparsed() && Stepped(verdict, State()) == StepEol(old(rbuf), old(State()), c)
    {
      if c == LF {
        if parse_offset > 0 && rbuf[parse_offset - 1] == CR {
          parse_status, parse_match := S_HEADER_FIELD, parse_offset;
        } else {
          return ParserStatus.ERROR;
        }
      }
      parse_offset := parse_offset + 1;
      return CONTINUE;
    }

    method ParseHeaderField(c: byte) returns (verdict: ParserStatus)
      requires parse_offset < |rbuf| == rbuf_len
      modifies this
      ensures Unparsed() && Stepped(verdict, State()) == StepHeaderField(old(rbuf), old(State()), c)
    {
      if c == CR {
        parse_status := S_EOH;
      } else if c == LETTER_C {
        if rbuf_len - parse_offset >= 9 {
          if Spells(rbuf, parse_offset, CONTENT_) {
            if Token(rbuf[parse_offset + 8]) == LETTER_L {
              parse_status, parse_match := S_CONTENT_LENGTH, parse_offset;
            } else if Token(rbuf[parse_offset + 8]) == LETTER_T {
              parse_status, parse_match := S_CONTENT_TYPE, parse_offset;
            } else {
              parse_status := S_EOL;
            }
          } else {
            parse_status := S_EOL;
          }
        }
      } else if c == LETTER_S {
        parse_status, parse_match := S_SEC_WEBSOCKET_KEY, parse_offset;
      } else {
        parse_status := S_EOL;
      }
      parse_offset := parse_offset + 1;
      return CONTINUE;
    }

    method ParseEoh(c: byte) returns (verdict: ParserStatus)
      modifies this
      ensures Unparsed() && Stepped(verdict, State()) == StepEoh(old(State()), c)
    {
      if c == LF {
        header_len := parse_offset + 1;
        return FINISHED;
      }
      return ParserStatus.ERROR;
    }

    method ParseName(c: byte, name: bytes, value: ParseStatus) returns (verdict: ParserStatus)
      modifies this
      ensures Unparsed() && Stepped(verdict, State()) == StepName(old(State()), c, name, value)
    {
      if parse_offset - parse_match > |name| - 1 {
        if c != SP && c != COLON {
          parse_status, parse_match := value, parse_offset;
          return CONTINUE;
        }
      } else if parse_offset < parse_match || name[parse_offset - parse_match] != c {
        parse_status := S_EOL;
      }
      parse_offset := parse_offset + 1;
      return CONTINUE;
    }

    method ParseLengthValue(c: byte) returns (verdict: ParserStatus)
      modifies this
      ensures Unparsed() && Stepped(verdict, State()) == StepLengthValue(old(State()), c)
    {
      if c == SP || c == CR {
        parse_status := S_EOL;
      } else {
        if !IsNum(c) {
          return ParserStatus.ERROR;
        }
        content_length := content_length * 10 % TWO_32;
        content_length := (content_length + (c - 0x30)) % TWO_32;
      }
      parse_offset := parse_offset + 1;
      return CONTINUE;
    }

    method ParseKeyValue(ch: byte, c: byte) returns (verdict: ParserStatus)
      modifies this
      ensures Unparsed() && Stepped(verdict, State()) == StepKeyValue(old(State()), ch, c)
    {
      if c == SP || c == CR {
        parse_status := S_EOL;
      } else {
        sec_websocket_key := sec_websocket_key + [ch];
      }
      parse_offset := parse_offset + 1;
      return CONTINUE;
    }

    method ParseTypeValue(ch: byte, c: byte) returns (verdict: ParserStatus)
      modifies this
      ensures Unparsed() && Stepped(verdict, State()) == StepTypeValue(old(State()), ch, c)
    {
      if c == SP || c == CR {
        parse_status := S_EOL;
      } else {
        content_type := content_type + [ch];
      }
      parse_offset := parse_offset + 1;
      return CONTINUE;
    }

    /** One round of the parse loop. */
    method ParseRound() returns (verdict: ParserStatus)
      requires parse_offset < |rbuf| == rbuf_len
      modifies this
      ensures Unparsed() && Stepped(verdict, State()) == Step(old(rbuf), old(State()))
    {
      var ch := rbuf[parse_offset];
      var c := Token(ch);
      if c == 0 {
        return ParserStatus.ERROR;
      }
      match parse_status
      case S_EOL => verdict := ParseEol(c);
      case S_START => verdict := ParseStart(c);
      case S_METHOD => verdict := ParseMethod(c);
      case S_METHOD_P => verdict := ParseMethodP(c);
      case S_PATH => verdict := ParsePath(ch);
      case S_QUERY_STRING => verdict := ParseQuery(ch);
      case S_HEADER_FIELD => verdict := ParseHeaderField(c);
      case S_EOH => verdict := ParseEoh(c);
      case S_CONTENT_LENGTH => verdict := ParseName(c, CONTENT_LENGTH, S_CONTENT_LENGTH_V);
      case S_CONTENT_LENGTH_V => verdict := ParseLengthValue(c);
      case S_SEC_WEBSOCKET_KEY => verdict := ParseName(c, SEC_WEBSOCKET_KEY, S_SEC_WEBSOCKET_KEY_V);
      case S_SEC_WEBSOCKET_KEY_V => verdict := ParseKeyValue(ch, c);
      case S_CONTENT_TYPE => verdict := ParseName(c, CONTENT_TYPE, S_CONTENT_TYPE_V);
      case S_CONTENT_TYPE_V => verdict := ParseTypeValue(ch, c);
    }

    /** The parse loop. */
    method Parse() returns (verdict: ParserStatus)
      requires parse_offset <= |rbuf| == rbuf_len
      modifies this
      ensures Unparsed() && Stepped(verdict, State()) == Run(old(rbuf), old(State()))
    {
      verdict := CONTINUE;
      while parse_offset < rbuf_len
        invariant Unparsed() && parse_offset <= |rbuf| && verdict == CONTINUE
        invariant Run(rbuf, State()) == Run(old(rbuf), old(State()))
        decreases rbuf_len - parse_offset, MayStay(parse_status)
      {
        RunUnroll(rbuf, State());
        verdict := ParseRound();
        if verdict != CONTINUE {
          return;
        }
      }
      RunUnroll(rbuf, State());
    }

    // ---- The driver ------------------------------------------------------------------------

    /** One `Readn` of a full buffer. */
    method ReadMore() returns (n: int, buf: bytes)
      modifies conn.sock`inbound
      ensures n <= READ_BUFFER_SIZE && (n >= 0 ==> |buf| == n)
      ensures n >= 0 ==> Flowed(old(rbuf), old(conn.sock.inbound), old(rbuf) + buf, conn.sock.inbound)
      ensures if n == 2048 then Later(old(conn.sock.inbound), conn.sock.inbound)
              else StoppedBy(old(conn.sock.inbound), conn.sock.inbound, n >= 0)
    {
      ghost var script := conn.sock.inbound;
      RecvKeeps(script, READ_BUFFER_SIZE);
      RecvStops(script, READ_BUFFER_SIZE);
      n, buf := conn.Readn(READ_BUFFER_SIZE);
      Associate(rbuf, buf, Incoming(conn.sock.inbound));
    }

    /** The header is too long, or the parser has rejected it; `was` is the error code before. */
    ghost predicate Refused(was: int)
      reads this
    {
      && error_code == (if rbuf_len > max_header_size then 500 else 400)
      && (error_code == 400 && was == 0 ==>
            HttpResume.Feed([], START, chunks).verdict == ParserStatus.ERROR)
    }

    /** Append a piece for which there is room, and parse on. */
    method ParseMore(data: bytes) returns (verdict: ParserStatus)
      requires rbuf_len == |rbuf| + |data| && parse_offset <= |rbuf|
      requires if error_code == 0 then ParsedFrom(chunks, rbuf, CONTINUE, State()) && VerbLate(State())
               else Stuck(rbuf, State())
      modifies this
      ensures rbuf == old(rbuf) + data && rbuf_len == old(rbuf_len) && parse_offset <= |rbuf|
      ensures status == old(status) && error_code == old(error_code) && queued == old(queued)
      ensures if error_code == 0
              then chunks == old(chunks) + [data] && ParsedFrom(chunks, rbuf, verdict, State()) && VerbLate(State())
              else chunks == old(chunks) && verdict == ParserStatus.ERROR
      ensures verdict == ParserStatus.ERROR ==> Stuck(rbuf, State())
      ensures verdict == FINISHED ==> header_len <= |rbuf|
      ensures Stepped(verdict, State()) == Run(rbuf, old(State()))
    {
      if error_code == 0 {
        ParsesOn(chunks, rbuf, State(), data);
        chunks := chunks + [data];
      } else {
        StuckStays(rbuf, data, State());
      }
      rbuf := rbuf + data;
      verdict := Parse();
    }

    /** The counter would come back below the header limit. */
    predicate Wraps(n: nat)
      reads this
    {
      rbuf_len + n >= TWO_32 && (rbuf_len + n) % TWO_32 <= max_header_size
    }

    /** Parse a piece for which there is room. */
    method ParseHeader(data: bytes) returns (verdict: ParserStatus)
      requires Limits() && status == HEADER_RECEIVING && queued == 0
      requires parse_offset <= |rbuf| <= |rbuf + data| == rbuf_len
      requires rbuf_len <= max_header_size
      requires if error_code == 0 then ParsedFrom(chunks, rbuf, CONTINUE, State()) && VerbLate(State())
               else Stuck(rbuf, State())
      modifies this
      ensures Valid() && rbuf_len == old(rbuf_len)
      ensures verdict != ParserStatus.ERROR ==>
        && old(error_code) == 0 && error_code == 0
        && rbuf == old(rbuf) + data && chunks == old(chunks) + [data] && |rbuf| <= max_header_size
        && status == if verdict == FINISHED then BODY_RECEIVING else HEADER_RECEIVING
      ensures verdict == ParserStatus.ERROR ==> status == HEADER_RECEIVING && Refused(old(error_code))
      ensures old(error_code) == 0 ==>
        && rbuf == old(rbuf) + data && error_code == (if verdict == ParserStatus.ERROR then 400 else 0)
        && Stepped(verdict, State()) == Run(rbuf, old(State()))
    {
      verdict := ParseMore(data);
      if verdict == FINISHED {
        status := BODY_RECEIVING;
      } else if verdict == ParserStatus.ERROR {
        error_code := 400;
      }
    }

    /** Append a piece of the header, if there is room, and parse on. The model stops where the counter of a
        header that was refused before wraps: from there on the code and its buffer disagree. */
    method TakeHeader(data: bytes) returns (verdict: ParserStatus, wrapped: bool)
      requires Valid() && status == HEADER_RECEIVING
      requires 0 < |data| <= READ_BUFFER_SIZE
      modifies this
      ensures rbuf_len == (old(rbuf_len) + |data|) % TWO_32
      ensures wrapped <==> old(Wraps(|data|))
      ensures wrapped ==> old(error_code) != 0 && Untouched()
      ensures !wrapped ==> Valid()
      ensures !wrapped && verdict != ParserStatus.ERROR ==>
        && old(error_code) == 0 && error_code == 0
        && rbuf == old(rbuf) + data && chunks == old(chunks) + [data] && |rbuf| <= max_header_size
        && status == if verdict == FINISHED then BODY_RECEIVING else HEADER_RECEIVING
      ensures !wrapped && verdict == ParserStatus.ERROR ==> status == HEADER_RECEIVING && Refused(old(error_code))
      ensures !wrapped && rbuf_len > max_header_size ==> verdict == ParserStatus.ERROR && error_code == 500
      ensures !wrapped && rbuf_len <= max_header_size && old(error_code) == 0 ==>
        && rbuf == old(rbuf) + data && error_code == (if verdict == ParserStatus.ERROR then 400 else 0)
        && Stepped(verdict, State()) == Run(rbuf, old(State()))
    {
      wrapped := Wraps(|data|);
      rbuf_len := (rbuf_len + |data|) % TWO_32;
      if wrapped {
        return ParserStatus.ERROR, true;
      }
      if rbuf_len > max_header_size {
        error_code := 500;
        return ParserStatus.ERROR, false;
      }
      verdict := ParseHeader(data);
    }

    /** The header loop: read and parse until the header is finished or the socket runs dry. */
    method ReadHeader() returns (result: ConnStatus, wrapped: bool)
      requires Valid() && status == HEADER_RECEIVING
      modifies this, conn.sock`inbound
      ensures wrapped ==> old(error_code) != 0 && result == ConnStatus.ERROR && Untouched()
      ensures wrapped ==> old(rbuf_len) + READ_BUFFER_SIZE >= TWO_32
      ensures !wrapped ==> Valid() && (status == HEADER_RECEIVING || status == BODY_RECEIVING)
      ensures result == ConnStatus.AGAIN ==>
        && error_code == old(error_code)
        && Flowed(old(rbuf), old(conn.sock.inbound), rbuf, conn.sock.inbound)
        && (status == HEADER_RECEIVING ==> StoppedBy(old(conn.sock.inbound), conn.sock.inbound, true))
        && (status == BODY_RECEIVING ==> error_code == 0 && Later(old(conn.sock.inbound), conn.sock.inbound))
      ensures result == ConnStatus.CLOSE ==>
        && status == HEADER_RECEIVING && error_code == old(error_code)
        && StoppedBy(old(conn.sock.inbound), conn.sock.inbound, false)
      ensures result == ConnStatus.ERROR && !wrapped ==> status == HEADER_RECEIVING && Refused(old(error_code))
      ensures result in [ConnStatus.AGAIN, ConnStatus.CLOSE, ConnStatus.ERROR]
    {
      var n := READ_BUFFER_SIZE;
      wrapped := false;
      while n == READ_BUFFER_SIZE
        invariant Valid() && status == HEADER_RECEIVING && !wrapped
        invariant error_code == old(error_code) && (error_code != 0 ==> Untouched() && rbuf_len == old(rbuf_len))
        invariant Flowed(old(rbuf), old(conn.sock.inbound), rbuf, conn.sock.inbound)
        invariant if n == READ_BUFFER_SIZE then Later(old(conn.sock.inbound), conn.sock.inbound)
                  else StoppedBy(old(conn.sock.inbound), conn.sock.inbound, true)
        decreases n == READ_BUFFER_SIZE, max_header_size - rbuf_len
      {
        ghost var before := conn.sock.inbound;
        var buf;
        n, buf := ReadMore();
        if n == READ_BUFFER_SIZE {
          LaterThenLater(old(conn.sock.inbound), before, conn.sock.inbound);
        } else {
          LaterThenStopped(old(conn.sock.inbound), before, conn.sock.inbound, n >= 0);
          if n >= 0 {
            StoppedIsLater(old(conn.sock.inbound), conn.sock.inbound);
          }
        }
        if n > 0 {
          var verdict;
          verdict, wrapped := TakeHeader(buf);
          if wrapped || verdict == ParserStatus.ERROR {
            return ConnStatus.ERROR, wrapped;
          } else if verdict == FINISHED {
            return ConnStatus.AGAIN, false;
          }
        } else if n < 0 {
          return ConnStatus.CLOSE, false;
        } else {
          assert rbuf + buf == rbuf;
          return ConnStatus.AGAIN, false;
        }
      }
      return ConnStatus.AGAIN, false;
    }

    /** Append a piece of the body. */
    method TakeBody(data: bytes) returns (complete: bool)
      requires Limits() && HeaderIn() && !Complete() && content_length <= max_post_size && |data| <= READ_BUFFER_SIZE
      modifies this`rbuf, this`rbuf_len
      ensures HeaderIn() && rbuf == old(rbuf) + data && (complete <==> Complete())
      ensures |rbuf| < max_header_size + max_post_size + READ_BUFFER_SIZE
    {
      rbuf_len := (rbuf_len + |data|) % TWO_32;
      rbuf := rbuf + data;
      complete := rbuf_len - header_len >= content_length;
    }

    /** The body loop: read until the body is complete or the socket runs dry. */
    method ReadBody() returns (result: ConnStatus)
      requires Valid() && status == BODY_RECEIVING && error_code == 0
      requires content_length <= max_post_size && !Complete()
      modifies this`rbuf, this`rbuf_len, conn.sock`inbound
      ensures result == ConnStatus.AGAIN || result == ConnStatus.CLOSE
      ensures HeaderIn() && |rbuf| < max_header_size + max_post_size + READ_BUFFER_SIZE
      ensures old(rbuf) <= rbuf
      ensures result == ConnStatus.AGAIN ==> Flowed(old(rbuf), old(conn.sock.inbound), rbuf, conn.sock.inbound)
      ensures result == ConnStatus.AGAIN && !Complete() ==>
                StoppedBy(old(conn.sock.inbound), conn.sock.inbound, true)
      ensures result == ConnStatus.CLOSE ==>
                !Complete() && StoppedBy(old(conn.sock.inbound), conn.sock.inbound, false)
    {
      var n := READ_BUFFER_SIZE;
      while n == READ_BUFFER_SIZE
        invariant HeaderIn() && !Complete()
        invariant Flowed(old(rbuf), old(conn.sock.inbound), rbuf, conn.sock.inbound)
        invariant if n == READ_BUFFER_SIZE then Later(old(conn.sock.inbound), conn.sock.inbound)
                  else StoppedBy(old(conn.sock.inbound), conn.sock.inbound, true)
        decreases n == READ_BUFFER_SIZE, header_len + content_length - rbuf_len
      {
        ghost var before := conn.sock.inbound;
        var buf;
        n, buf := ReadMore();
        if n == READ_BUFFER_SIZE {
          LaterThenLater(old(conn.sock.inbound), before, conn.sock.inbound);
        } else {
          LaterThenStopped(old(conn.sock.inbound), before, conn.sock.inbound, n >= 0);
        }
        if n > 0 {
          var complete := TakeBody(buf);
          if complete {
            return ConnStatus.AGAIN;
          }
        } else if n < 0 {
          return ConnStatus.CLOSE;
        } else {
          return ConnStatus.AGAIN;
        }
      }
      return ConnStatus.AGAIN;
    }

    /** Read the rest of the body, if there is any. */
    method FillBody() returns (result: ConnStatus)
      requires Valid() && status == BODY_RECEIVING && content_length <= max_post_size
      modifies this`rbuf, this`rbuf_len, conn.sock`inbound
      ensures Valid() && (result == ConnStatus.AGAIN || result == ConnStatus.CLOSE)
      ensures result == ConnStatus.AGAIN ==>
        && Flowed(old(rbuf), old(conn.sock.inbound), rbuf, conn.sock.inbound)
        && (!Complete() ==> StoppedBy(old(conn.sock.inbound), conn.sock.inbound, true))
      ensures result == ConnStatus.CLOSE ==>
        !Complete() && StoppedBy(old(conn.sock.inbound), conn.sock.inbound, false)
    {
      if rbuf_len - header_len >= content_length {
        return ConnStatus.AGAIN;
      }
      result := ReadBody();
    }

    /** What `ReadData` does once the header is in. */
    method ReadOn() returns (result: ConnStatus)
      requires Valid() && status == BODY_RECEIVING
      modifies this`status, this`error_code, this`rbuf, this`rbuf_len, this`queued, conn.sock`inbound
      ensures Valid() && (status == BODY_RECEIVED || status == BODY_RECEIVING)
      ensures if content_length > max_post_size
              then result == ConnStatus.ERROR && error_code == 500 && status == BODY_RECEIVING
              else result != ConnStatus.ERROR && error_code == 0
      ensures result == ConnStatus.AGAIN ==>
        && Flowed(old(rbuf), old(conn.sock.inbound), rbuf, conn.sock.inbound)
        && (status == BODY_RECEIVED <==> Complete())
        && (status == BODY_RECEIVING ==> StoppedBy(old(conn.sock.inbound), conn.sock.inbound, true))
      ensures result == ConnStatus.CLOSE ==>
        status == BODY_RECEIVING && StoppedBy(old(conn.sock.inbound), conn.sock.inbound, false)
      ensures result in [ConnStatus.AGAIN, ConnStatus.CLOSE, ConnStatus.ERROR]
    {
      if content_length > max_post_size {
        error_code := 500;
        return ConnStatus.ERROR;
      }
      result := FillBody();
      if result == ConnStatus.AGAIN && rbuf_len - header_len >= content_length {
        status, queued := BODY_RECEIVED, queued + 1;
      }
    }

    /** Read what the socket has, as far as the request and its limits go. The request is pushed on the task
        queue by the call that completes it, and by no other call before `Reset`. */
    method ReadData() returns (result: ConnStatus, wrapped: bool)
      requires Valid()
      modifies this, conn.sock`inbound
      ensures !wrapped ==> Valid()
      ensures queued == old(queued) + (if status == BODY_RECEIVED != old(status) then 1 else 0)
      // The buffer is bounded, and a request is complete when its header and body are in.
      ensures !wrapped ==> |rbuf| < max_header_size + max_post_size + 2048
      ensures !wrapped && status == BODY_RECEIVED ==> |rbuf| >= header_len + content_length
      ensures result == ConnStatus.AGAIN && status == BODY_RECEIVING && old(error_code) == 0 ==>
        |rbuf| < header_len + content_length
      // The counter wraps only on a header that a call before has refused.
      ensures wrapped ==> result == ConnStatus.ERROR && old(error_code) != 0 && Untouched()
      ensures wrapped ==> old(rbuf_len) + READ_BUFFER_SIZE >= TWO_32
      ensures result in [ConnStatus.AGAIN, ConnStatus.CLOSE, ConnStatus.ERROR]
      // A call on a request that is complete, or that has failed before, completes nothing.
      ensures old(status) == BODY_RECEIVED || old(status) == UPGRADED ==>
        result == ConnStatus.ERROR && status == old(status) && conn.sock.inbound == old(conn.sock.inbound)
      ensures old(error_code) != 0 ==> status == old(status) && error_code != 0
      // Nothing is lost, and either the request is complete or the socket has run dry.
      ensures result == ConnStatus.AGAIN && old(error_code) == 0 ==>
        && error_code == 0
        && Flowed(old(rbuf), old(conn.sock.inbound), rbuf, conn.sock.inbound)
        && (status != BODY_RECEIVED ==> StoppedBy(old(conn.sock.inbound), conn.sock.inbound, true))
        && (status == BODY_RECEIVING ==> !Complete() && content_length <= max_post_size)
      // Every error has its reason.
      ensures result == ConnStatus.ERROR && !wrapped && old(status) in {HEADER_RECEIVING, BODY_RECEIVING} ==>
        if status == BODY_RECEIVING then error_code == 500 && content_length > max_post_size
        else Refused(old(error_code))
      ensures result == ConnStatus.CLOSE ==>
        status != BODY_RECEIVED && StoppedBy(old(conn.sock.inbound), conn.sock.inbound, false)
    {
      wrapped := false;
      if status != HEADER_RECEIVING && status != BODY_RECEIVING {
        return ConnStatus.ERROR, false;
      }
      if status == HEADER_RECEIVING {
        result, wrapped := ReadHeader();
        if result != ConnStatus.AGAIN {
          return;
        }
      }
      if status == BODY_RECEIVING {
        ghost var before := conn.sock.inbound;
        result := ReadOn();
        if result != ConnStatus.ERROR && status == BODY_RECEIVING && old(status) == HEADER_RECEIVING {
          LaterThenStopped(old(conn.sock.inbound), before, conn.sock.inbound, result == ConnStatus.AGAIN);
        }
        return;
      }
      return ConnStatus.AGAIN, false;
    }
  }

  // ---- Whole runs --------------------------------------------------------------------------

  lemma {:induction false} FeedIgnoresMore(buf: bytes, p: Parser, chunks: seq<bytes>, data: bytes)
    requires p.offset <= |buf| && HttpResume.Feed(buf, p, chunks).verdict != CONTINUE
    ensures HttpResume.Feed(buf, p, chunks + [data]) == HttpResume.Feed(buf, p, chunks)
    ensures Concat(chunks + [data]) == Concat(chunks) + data
    decreases |chunks|
  {
    var s := Run(buf + chunks[0], p);
    assert (chunks + [data])[1..] == chunks[1..] + [data];
    ConcatMore(chunks, data);
    if s.verdict == CONTINUE {
      FeedIgnoresMore(buf + chunks[0], s.p, chunks[1..], data);
    }
  }

  lemma {:induction false} LastCutHarmless(whole: bytes, end: nat, b: nat, chunks: seq<bytes>, data: bytes)
    requires HttpResume.HarmlessCuts(whole, end, b, chunks)
    requires b + |Concat(chunks)| + |data| == |whole|
    ensures HttpResume.HarmlessCuts(whole, end, b, chunks + [data])
    decreases |chunks|
  {
    if chunks != [] {
      assert (chunks + [data])[1..] == chunks[1..] + [data];
      LastCutHarmless(whole, end, b + |chunks[0]|, chunks[1..], data);
    } else {
      assert (chunks + [data])[1..] == [];
    }
  }

  /** What the driver has parsed in pieces is what one call of the parser finds in the whole buffer, if no
      piece ended early in a line starting with c or C. */
  lemma ReadsAsOne(chunks: seq<bytes>, buf: bytes, p: Parser)
    requires ParsedFrom(chunks, buf, FINISHED, p)
    requires HttpResume.HarmlessCuts(buf, Run(buf, START).p.offset, 0, chunks)
    ensures Run(buf, START) == Stepped(FINISHED, p)
  {
    var data := buf[|Concat(chunks)|..];
    FeedIgnoresMore([], START, chunks, data);
    assert Concat(chunks) + data == buf;
    LastCutHarmless(buf, Run(buf, START).p.offset, 0, chunks, data);
    HttpResume.Resumable(chunks + [data]);
  }

  /** Any number of read events on a fresh connection, until it is closed: by `CLOSE`, or by an error that
      has no reply. An error whose reply is stuck is followed by more events. The request is queued at most
      once, and then it is complete and made of the bytes the client sent. */
  method Serve(req: Request, calls: nat) returns (result: ConnStatus, wrapped: bool)
    requires req.Valid() && req.status == HEADER_RECEIVING && req.error_code == 0 && req.rbuf == []
    modifies req, req.conn.sock
    ensures req.queued <= 1 && (!wrapped ==> req.Valid()) && (wrapped ==> req.queued == 0 && req.error_code != 0)
    ensures req.queued == 1 ==>
      && req.HeaderIn() && |req.rbuf| >= req.header_len + req.content_length && req.error_code == 0
      && (HttpResume.HarmlessCuts(req.rbuf, Run(req.rbuf, START).p.offset, 0, req.chunks) ==>
            Run(req.rbuf, START) == Stepped(FINISHED, req.State()))
    ensures result == ConnStatus.AGAIN && req.error_code == 0 ==>
      && req.rbuf + Incoming(req.conn.sock.inbound) == Incoming(old(req.conn.sock.inbound))
      && req.status in [HEADER_RECEIVING, BODY_RECEIVING, BODY_RECEIVED]
  {
    result, wrapped := ConnStatus.AGAIN, false;
    var i := 0;
    while i < calls && !wrapped && (result == ConnStatus.AGAIN || (result == ConnStatus.ERROR && req.error_code != 0))
      invariant !wrapped ==> req.Valid()
      invariant req.status != UPGRADED && req.queued <= 1
      invariant wrapped ==> req.queued == 0 && req.error_code != 0
      invariant result == ConnStatus.AGAIN && req.error_code == 0 ==>
        Flowed([], old(req.conn.sock.inbound), req.rbuf, req.conn.sock.inbound)
    {
      result, wrapped := req.ReadData();
      i := i + 1;
    }
    if req.queued == 1 && HttpResume.HarmlessCuts(req.rbuf, Run(req.rbuf, START).p.offset, 0, req.chunks) {
      ReadsAsOne(req.chunks, req.rbuf, req.State());
    }
  }
}
