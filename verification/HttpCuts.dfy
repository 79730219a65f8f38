/** Requests that arrive in pieces: the exact answer for every division, and which boundaries change it. */
module HttpCuts {
  import opened Bytes
  import opened HttpParser
  import opened HttpGrammar
  import opened HttpRoundTrip
  import opened Wrappers
  import HttpResume

  // ---- Every division ----------------------------------------------------------------------

  /** Where the pieces end, if `b` bytes are there before them. */
  function Bounds(b: nat, chunks: seq<bytes>): seq<nat>
    decreases |chunks|
  {
    if chunks == [] then [] else [b + |chunks[0]|] + Bounds(b + |chunks[0]|, chunks[1..])
  }

  lemma StepPrefix(whole: bytes, cuts: seq<nat>, b: nat, p: Parser)
    requires p.offset < b <= |whole| && Seen(cuts, p.offset, |whole|) == b
    ensures Step(whole[..b], p) == StepSeen(whole, cuts, p)
  {
    if p.status.S_HEADER_FIELD? && b - p.offset >= 9 {
      assert Spells(whole[..b], p.offset, CONTENT_) == Spells(whole, p.offset, CONTENT_);
    }
  }

  /** From `p` on, the boundary `b` is the next one. */
  ghost predicate NextBound(cuts: seq<nat>, from: nat, b: nat, n: nat) {
    forall k: nat | from <= k < b :: Seen(cuts, k, n) == b
  }

  /** One call of `Parse` on the bytes up to a boundary. */
  lemma {:induction false} PieceRun(whole: bytes, cuts: seq<nat>, b: nat, p: Parser)
    requires p.offset <= b <= |whole| && NextBound(cuts, p.offset, b, |whole|)
    ensures var s := Run(whole[..b], p);
            Read(whole, cuts, p) == if s.verdict == CONTINUE then Read(whole, cuts, s.p) else s
    decreases b - p.offset, MayStay(p.status)
  {
    RunUnroll(whole[..b], p);
    if p.offset < b {
      StepPrefix(whole, cuts, b, p);
      ReadUnroll(whole, cuts, p);
      var s := Step(whole[..b], p);
      if s.verdict == CONTINUE {
        PieceRun(whole, cuts, b, s.p);
      }
    }
  }

  ghost predicate SameBehind(cuts: seq<nat>, bounds: seq<nat>, b: nat, n: nat) {
    forall k: nat | b <= k :: Seen(cuts, k, n) == Seen(bounds, k, n)
  }

  lemma {:induction false} FeedIsRead(whole: bytes, cuts: seq<nat>, buf: bytes, p: Parser, chunks: seq<bytes>)
    requires whole == buf + Concat(chunks) && p.offset == |buf|
    requires SameBehind(cuts, Bounds(|buf|, chunks), |buf|, |whole|)
    ensures HttpResume.Feed(buf, p, chunks) == Read(whole, cuts, p)
    decreases |chunks|
  {
    if chunks == [] {
      ReadUnroll(whole, cuts, p);
    } else {
      var next := buf + chunks[0];
      Associate(buf, chunks[0], Concat(chunks[1..]));
      assert whole[..|next|] == next;
      PieceRun(whole, cuts, |next|, p);
      var s := Run(next, p);
      if s.verdict == CONTINUE {
        FeedIsRead(whole, cuts, next, s.p, chunks[1..]);
      }
    }
  }

  /** For every division of every request into pieces, whatever its header lines say, the verdict and the
      fields: each line is worth what `Left` leaves of it. */
  lemma PiecesMeetReference(r: RequestLine, lines: seq<bytes>, body: bytes, chunks: seq<bytes>)
    requires r.Valid() && AreLines(lines)
    requires Concat(chunks) == PrintRequest(r, lines) + body
    ensures AnswerOf(HttpResume.Feed([], START, chunks)) ==
            Reading(lines, |r.Print()|, Bounds(0, chunks), |Concat(chunks)|, r.Fields())
  {
    assert [] + Concat(chunks) == Concat(chunks);
    FeedIsRead(Concat(chunks), Bounds(0, chunks), [], START, chunks);
    RequestRun(r, Bounds(0, chunks), lines, body);
  }

  /** What is left of each line. */
  function Lefts(lines: seq<bytes>, k: nat, cuts: seq<nat>, n: nat): (s: seq<bytes>)
    ensures |s| == |lines|
    decreases |lines|
  {
    if lines == [] then []
    else [Left(lines[0], k, cuts, n)] + Lefts(lines[1..], k + |lines[0]| + 2, cuts, n)
  }

  lemma {:induction false} FieldLeavesSome(line: bytes, k: nat, cuts: seq<nat>, n: nat)
    requires IsField(line)
    ensures Left(line, k, cuts, n) != []
    decreases |line|
  {
    if Token(line[0]) == LETTER_C {
      FieldTail(line);
      FieldLeavesSome(line[1..], k + 1, cuts, n);
    }
  }

  lemma FieldTail(line: bytes)
    requires IsField(line) && Token(line[0]) == LETTER_C
    ensures IsField(line[1..])
  {
    var i :| 0 <= i < |line| && Token(line[i]) != LETTER_C;
    assert Token(line[1..][i - 1]) != LETTER_C;
  }

  predicate AreFields(lines: seq<bytes>) { forall i | 0 <= i < |lines| :: IsField(lines[i]) }

  lemma {:induction false} FieldsReading(lines: seq<bytes>, k: nat, cuts: seq<nat>, n: nat, f: Fields)
    requires AreFields(lines)
    ensures Reading(lines, k, cuts, n, f) == Expected(Meaning(Lefts(lines, k, cuts, n), f), k + |Text(lines)| + 2)
    decreases |lines|
  {
    if lines != [] {
      var short, e := Left(lines[0], k, cuts, n), k + |lines[0]| + 2;
      FieldLeavesSome(lines[0], k, cuts, n);
      assert Lefts(lines, k, cuts, n)[1..] == Lefts(lines[1..], e, cuts, n);
      match LineMeaning(short, f)
      case None =>
      case Some(g) => FieldsReading(lines[1..], e, cuts, n, g);
    }
  }

  /** In pieces, a request is the request made of what is left of its lines. */
  lemma PiecesOfFields(r: RequestLine, lines: seq<bytes>, body: bytes, chunks: seq<bytes>)
    requires r.Valid() && AreFields(lines)
    requires Concat(chunks) == PrintRequest(r, lines) + body
    ensures AnswerOf(HttpResume.Feed([], START, chunks)) ==
            Expected(Meaning(Lefts(lines, |r.Print()|, Bounds(0, chunks), |Concat(chunks)|), r.Fields()),
                     |PrintRequest(r, lines)|)
  {
    PiecesMeetReference(r, lines, body, chunks);
    FieldsReading(lines, |r.Print()|, Bounds(0, chunks), |Concat(chunks)|, r.Fields());
  }

  // ---- What lines say ----------------------------------------------------------------------

  /** The value of a line that starts with the recognised name `word`, and nothing for any other line. */
  function Said(line: bytes, word: bytes): bytes { if Spells(line, 0, word) then Value(line, word) else [] }

  function Values(lines: seq<bytes>, word: bytes): bytes
    decreases |lines|
  {
    if lines == [] then [] else Said(lines[0], word) + Values(lines[1..], word)
  }

  /** `f` after these digits, this type and this key. */
  function Plus(f: Fields, digits: bytes, type_: bytes, key: bytes): Fields
    requires IsDecimal(digits)
  {
    f.(content_length := Accumulate(f.content_length, digits), content_type := f.content_type + type_,
       sec_websocket_key := f.sec_websocket_key + key)
  }

  lemma LineSays(line: bytes, f: Fields)
    ensures var digits := Said(line, CONTENT_LENGTH);
            LineMeaning(line, f) ==
            if !Illegal(line) && IsDecimal(digits)
            then Some(Plus(f, digits, Said(line, CONTENT_TYPE), Said(line, SEC_WEBSOCKET_KEY)))
            else None
  {
    WordsDiffer(line);
    assert f.content_type + [] == f.content_type && f.sec_websocket_key + [] == f.sec_websocket_key;
  }

  predicate AreLegal(lines: seq<bytes>) { forall i | 0 <= i < |lines| :: !Illegal(lines[i]) }

  /** No line is malformed. */
  predicate NoneMalformed(lines: seq<bytes>) { AreLegal(lines) && IsDecimal(Values(lines, CONTENT_LENGTH)) }

  lemma NoneMalformedTail(lines: seq<bytes>)
    requires lines != []
    ensures NoneMalformed(lines) <==>
            !Illegal(lines[0]) && IsDecimal(Said(lines[0], CONTENT_LENGTH)) && NoneMalformed(lines[1..])
  {
    DecimalConcat(Said(lines[0], CONTENT_LENGTH), Values(lines[1..], CONTENT_LENGTH));
    if AreLegal(lines) {
      assert forall i | 0 <= i < |lines[1..]| :: lines[1..][i] == lines[i + 1];
    } else if !Illegal(lines[0]) {
      var i :| 0 <= i < |lines| && Illegal(lines[i]);
      assert lines[1..][i - 1] == lines[i];
    }
  }

  lemma DecimalConcat(a: bytes, b: bytes)
    ensures IsDecimal(a + b) <==> IsDecimal(a) && IsDecimal(b)
  {
    if IsDecimal(a + b) {
      assert forall i | 0 <= i < |a| :: a[i] == (a + b)[i];
      assert forall i | 0 <= i < |b| :: b[i] == (a + b)[|a| + i];
    }
  }

  lemma PlusPlus(f: Fields, d: bytes, t: bytes, k: bytes, d': bytes, t': bytes, k': bytes)
    requires IsDecimal(d) && IsDecimal(d')
    ensures IsDecimal(d + d') && Plus(Plus(f, d, t, k), d', t', k') == Plus(f, d + d', t + t', k + k')
  {
    AccumulateConcat(f.content_length, d, d');
    Associate(f.content_type, t, t');
    Associate(f.sec_websocket_key, k, k');
  }

  lemma {:induction false} LinesSay(lines: seq<bytes>, f: Fields)
    ensures var digits := Values(lines, CONTENT_LENGTH);
            Meaning(lines, f) ==
            if NoneMalformed(lines)
            then Some(Plus(f, digits, Values(lines, CONTENT_TYPE), Values(lines, SEC_WEBSOCKET_KEY)))
            else None
    decreases |lines|
  {
    if lines == [] {
      assert f.content_type + [] == f.content_type && f.sec_websocket_key + [] == f.sec_websocket_key;
    } else {
      var line, more := lines[0], lines[1..];
      LineSays(line, f);
      NoneMalformedTail(lines);
      match LineMeaning(line, f)
      case None =>
      case Some(g) =>
        LinesSay(more, g);
        if NoneMalformed(more) {
          PlusPlus(f, Said(line, CONTENT_LENGTH), Said(line, CONTENT_TYPE), Said(line, SEC_WEBSOCKET_KEY),
                   Values(more, CONTENT_LENGTH), Values(more, CONTENT_TYPE), Values(more, SEC_WEBSOCKET_KEY));
        }
    }
  }

  /** After a length of `n` and before `digits`, the line is well formed and changes nothing. */
  predicate Idle(line: bytes, n: nat, digits: bytes)
    requires IsDecimal(digits)
  {
    var v := Said(line, CONTENT_LENGTH);
    && !Illegal(line) && IsDecimal(v) && Accumulate(Accumulate(n, v), digits) == Accumulate(n, digits)
    && Said(line, CONTENT_TYPE) == [] && Said(line, SEC_WEBSOCKET_KEY) == []
  }

  lemma SumIsSame(a: bytes, b: bytes, c: bytes)
    ensures a + b + c == a + c <==> b == []
  {
    if b == [] {
      assert a + b == a;
    } else {
      assert |a + b + c| != |a + c|;
    }
  }

  lemma IdleIff(line: bytes, more: seq<bytes>, f: Fields, len: nat)
    ensures Expected(Then(LineMeaning(line, f), more), len) == Expected(Meaning(more, f), len) <==>
            (NoneMalformed(more) ==> Idle(line, f.content_length, Values(more, CONTENT_LENGTH)))
  {
    var t, k := Values(more, CONTENT_TYPE), Values(more, SEC_WEBSOCKET_KEY);
    LineSays(line, f);
    LinesSay(more, f);
    if LineMeaning(line, f).Some? {
      LinesSay(more, LineMeaning(line, f).value);
      SumIsSame(f.content_type, Said(line, CONTENT_TYPE), t);
      SumIsSame(f.sec_websocket_key, Said(line, SEC_WEBSOCKET_KEY), k);
    }
  }

  // ---- One boundary ------------------------------------------------------------------------

  /** The boundary `b` is in the first nine bytes of a line at `k` that starts with a c, and in reach of the
      look-ahead. */
  predicate Hit(line: bytes, k: nat, b: nat, n: nat) {
    line != [] && Token(line[0]) == LETTER_C && k < b < k + 9 <= n
  }

  lemma {:induction false} LeftOutOfReach(line: bytes, k: nat, b: nat, n: nat)
    requires b <= k || n - k < 9
    ensures Left(line, k, [b], n) == Left(line, k, [], n)
    decreases |line|
  {
    assert [b][1..] == [];
    if line != [] {
      LeftOutOfReach(line[1..], k + 1, b, n);
    }
  }

  lemma NotHit(line: bytes, k: nat, b: nat, n: nat)
    requires !Hit(line, k, b, n) && b <= n
    ensures Left(line, k, [b], n) == Left(line, k, [], n)
  {
    if b <= k || n - k < 9 {
      LeftOutOfReach(line, k, b, n);
    } else {
      assert Seen([b], k, n) == b && Seen([], k, n) == n;
    }
  }

  /** Lines behind the boundary, or at the end of the stream, are left as they would be without it. */
  lemma {:induction false} OutOfReach(lines: seq<bytes>, k: nat, b: nat, n: nat, f: Fields)
    requires b <= k || n - k < 9
    ensures Reading(lines, k, [b], n, f) == Reading(lines, k, [], n, f)
    ensures Unharmed(lines, k, b, n, f)
    decreases |lines|
  {
    if lines != [] {
      var line, e := lines[0], k + |lines[0]| + 2;
      LeftOutOfReach(line, k, b, n);
      match LineMeaning(line, f) { case None => case Some(g) => OutOfReach(lines[1..], e, b, n, g); }
      match LineMeaning(Left(line, k, [], n), f) { case None => case Some(g) => OutOfReach(lines[1..], e, b, n, g); }
    }
  }

  /** A line that has lost its first c's is still a line, and neither says anything that counts, unless a line
      of `more`, the lines behind it, is malformed. A line with a forbidden character cannot be harmed. */
  predicate LineUnharmed(line: bytes, short: bytes, n: nat, more: seq<bytes>) {
    HasForbidden(line) ||
    (short != [] && (NoneMalformed(more) ==>
       Idle(line, n, Values(more, CONTENT_LENGTH)) && Idle(short, n, Values(more, CONTENT_LENGTH))))
  }

  /** Every line that is hit, up to the first that is refused, is unharmed. */
  predicate Unharmed(lines: seq<bytes>, k: nat, b: nat, n: nat, f: Fields)
    decreases |lines|
  {
    lines == [] ||
    var line, more, e := lines[0], lines[1..], k + |lines[0]| + 2;
    var short := Left(line, k, [b], n);
    && (Hit(line, k, b, n) ==> LineUnharmed(line, short, f.content_length, LinesRead(more, e, [], n)))
    && match LineMeaning(line, f)
       case None => true
       case Some(g) => LineMeaning(short, f).None? || Unharmed(more, e, b, n, g)
  }

  /** A legal line without a recognised name. */
  predicate Mute(line: bytes) {
    !Illegal(line) && forall word <- [CONTENT_LENGTH, CONTENT_TYPE, SEC_WEBSOCKET_KEY] :: !Spells(line, 0, word)
  }

  lemma MuteSaysNothing(line: bytes, f: Fields, n: nat, digits: bytes)
    requires Mute(line)
    ensures LineMeaning(line, f) == Some(f)
    ensures IsDecimal(digits) ==> Idle(line, n, digits)
  {
    assert CONTENT_LENGTH in [CONTENT_LENGTH, CONTENT_TYPE, SEC_WEBSOCKET_KEY];
    assert CONTENT_TYPE in [CONTENT_LENGTH, CONTENT_TYPE, SEC_WEBSOCKET_KEY];
    assert SEC_WEBSOCKET_KEY in [CONTENT_LENGTH, CONTENT_TYPE, SEC_WEBSOCKET_KEY];
  }

  lemma ShortIsMute(line: bytes)
    requires |line| < 9 && !Illegal(line)
    ensures Mute(line)
  {
  }

  /** A recognised line without its first c is not recognised. */
  lemma OneIsMute(line: bytes, k: nat, b: nat, n: nat)
    requires Hit(line, k, b, n) && !HasForbidden(line)
    ensures Mute(line) || (Mute(Left(line, k, [b], n)) && Left(line, k, [b], n) == line[1..])
  {
    WordsDiffer(line);
    if !Mute(line) {
      assert Token(line[0 + 1]) == CONTENT_[1];
      WordsDiffer(line[1..]);
      ForbiddenTail(line);
    }
  }

  lemma {:induction false} LeftKeeps(line: bytes, k: nat, cuts: seq<nat>, n: nat)
    ensures HasForbidden(Left(line, k, cuts, n)) <==> HasForbidden(line)
    decreases |line|
  {
    if line != [] && Token(line[0]) == LETTER_C && Seen(cuts, k, n) - k < 9 {
      LeftKeeps(line[1..], k + 1, cuts, n);
      ForbiddenTail(line);
    }
  }

  /** The answer to what is left of a line that ends at `e` and to the lines behind it, in one piece. */
  function LineAnswer(short: bytes, more: seq<bytes>, f: Fields, e: nat, len: nat): Answer {
    if short == [] then Accepted(f.(header_len := e)) else Expected(Then(LineMeaning(short, f), more), len)
  }

  lemma EmptyAnswer(line: bytes, more: seq<bytes>, f: Fields, e: nat, len: nat)
    requires line != [] && e < len
    ensures LineAnswer([], more, f, e, len) != LineAnswer(line, more, f, e, len)
  {
  }

  /** A line with the boundary inside it. */
  lemma CutLine(line: bytes, short: bytes, more: seq<bytes>, f: Fields, e: nat, len: nat)
    requires line != [] && e < len && !HasForbidden(line) && (Mute(line) || Mute(short))
    ensures LineAnswer(short, more, f, e, len) == LineAnswer(line, more, f, e, len) <==>
            LineUnharmed(line, short, f.content_length, more)
  {
    var digits := Values(more, CONTENT_LENGTH);
    if short == [] {
      EmptyAnswer(line, more, f, e, len);
    } else if Mute(line) {
      MuteSaysNothing(line, f, f.content_length, digits);
      IdleIff(short, more, f, len);
    } else {
      MuteSaysNothing(short, f, f.content_length, digits);
      IdleIff(line, more, f, len);
    }
  }

  lemma ForbiddenLine(line: bytes, short: bytes, more: seq<bytes>, f: Fields, e: nat, len: nat)
    requires HasForbidden(line) && HasForbidden(short)
    ensures LineAnswer(short, more, f, e, len) == LineAnswer(line, more, f, e, len)
  {
  }

  lemma ReadingFirst(lines: seq<bytes>, k: nat, cuts: seq<nat>, n: nat, f: Fields, line: bytes, more: seq<bytes>,
                     e: nat, short: bytes)
    requires lines != [] && line == lines[0] && more == lines[1..] && e == k + |line| + 2
    requires short == Left(line, k, cuts, n)
    ensures Reading(lines, k, cuts, n, f) ==
            if short == [] then Accepted(f.(header_len := e))
            else match LineMeaning(short, f)
              case None => Refused
              case Some(g) => Reading(more, e, cuts, n, g)
  {
  }

  lemma LineAnswerIs(short: bytes, more: seq<bytes>, f: Fields, e: nat, n: nat)
    ensures LineAnswer(short, LinesRead(more, e, [], n), f, e, HeaderEnd(more, e, [], n)) ==
            if short == [] then Accepted(f.(header_len := e))
            else match LineMeaning(short, f)
              case None => Refused
              case Some(g) => Reading(more, e, [], n, g)
  {
    match LineMeaning(short, f)
    case None =>
    case Some(g) => ReadingIs(more, e, [], n, g);
  }

  /** The lines from one that is hit on, given what the lines behind it are read as. */
  lemma HitReadingIs(lines: seq<bytes>, k: nat, b: nat, n: nat, f: Fields, line: bytes, more: seq<bytes>, e: nat,
                     short: bytes)
    requires lines != [] && b < e
    requires line == lines[0] && more == lines[1..] && e == k + |line| + 2 && short == Left(line, k, [b], n)
    ensures Reading(lines, k, [b], n, f) ==
            LineAnswer(short, LinesRead(more, e, [], n), f, e, HeaderEnd(more, e, [], n))
  {
    ReadingFirst(lines, k, [b], n, f, line, more, e, short);
    LineAnswerIs(short, more, f, e, n);
    match LineMeaning(short, f)
    case None =>
    case Some(g) => OutOfReach(more, e, b, n, g);
  }

  lemma WholeReadingIs(lines: seq<bytes>, k: nat, n: nat, f: Fields, line: bytes, more: seq<bytes>, e: nat)
    requires lines != [] && lines[0] != [] && n - k >= 9
    requires line == lines[0] && more == lines[1..] && e == k + |line| + 2
    ensures Reading(lines, k, [], n, f) ==
            LineAnswer(line, LinesRead(more, e, [], n), f, e, HeaderEnd(more, e, [], n))
  {
    ReadingFirst(lines, k, [], n, f, line, more, e, line);
    LineAnswerIs(line, more, f, e, n);
  }

  lemma HitUnharmed(lines: seq<bytes>, k: nat, b: nat, n: nat, f: Fields, short: bytes, e: nat)
    requires lines != [] && Hit(lines[0], k, b, n) && b < e
    requires e == k + |lines[0]| + 2 && short == Left(lines[0], k, [b], n)
    ensures Unharmed(lines, k, b, n, f) <==>
            LineUnharmed(lines[0], short, f.content_length, LinesRead(lines[1..], e, [], n))
  {
    match LineMeaning(lines[0], f)
    case None =>
    case Some(g) => OutOfReach(lines[1..], e, b, n, g);
  }

  /** From a line on that has the boundary in it. */
  lemma HitReading(lines: seq<bytes>, k: nat, b: nat, n: nat, f: Fields)
    requires lines != [] && Hit(lines[0], k, b, n) && b < k + |lines[0]| + 2
    ensures Reading(lines, k, [b], n, f) == Reading(lines, k, [], n, f) <==> Unharmed(lines, k, b, n, f)
  {
    var line, more, e := lines[0], lines[1..], k + |lines[0]| + 2;
    var short, len := Left(line, k, [b], n), HeaderEnd(more, e, [], n);
    HitReadingIs(lines, k, b, n, f, line, more, e, short);
    WholeReadingIs(lines, k, n, f, line, more, e);
    HitUnharmed(lines, k, b, n, f, short, e);
    if HasForbidden(line) {
      LeftKeeps(line, k, [b], n);
      ForbiddenLine(line, short, LinesRead(more, e, [], n), f, e, len);
    } else {
      OneIsMute(line, k, b, n);
      CutLine(line, short, LinesRead(more, e, [], n), f, e, len);
    }
  }

  /** A short line in front of the boundary: in one piece and in two. */
  lemma ShortReadings(lines: seq<bytes>, k: nat, b: nat, n: nat, f: Fields, line: bytes, more: seq<bytes>, e: nat,
                      short: bytes)
    requires lines != [] && Hit(line, k, b, n) && e <= b && !HasForbidden(line)
    requires line == lines[0] && more == lines[1..] && e == k + |line| + 2 && short == Left(line, k, [b], n)
    ensures Reading(lines, k, [], n, f) == Reading(more, e, [], n, f)
    ensures Reading(lines, k, [b], n, f) ==
            if short == [] then Accepted(f.(header_len := e))
            else if Illegal(short) then Refused
            else Reading(more, e, [b], n, f)
  {
    ReadingFirst(lines, k, [], n, f, line, more, e, line);
    ReadingFirst(lines, k, [b], n, f, line, more, e, short);
    ShortMeansNothing(line, f);
    ShortMeansNothing(short, f);
  }

  lemma ShortUnharmed(lines: seq<bytes>, k: nat, b: nat, n: nat, f: Fields, line: bytes, more: seq<bytes>, e: nat,
                      short: bytes)
    requires lines != [] && Hit(line, k, b, n) && e <= b && !HasForbidden(line)
    requires line == lines[0] && more == lines[1..] && e == k + |line| + 2 && short == Left(line, k, [b], n)
    ensures Unharmed(lines, k, b, n, f) <==>
            if short == [] then false
            else if Illegal(short) then !NoneMalformed(LinesRead(more, e, [], n))
            else Unharmed(more, e, b, n, f)
  {
    var digits := Values(LinesRead(more, e, [], n), CONTENT_LENGTH);
    ShortMeansNothing(line, f);
    ShortMeansNothing(short, f);
    ShortIsMute(line);
    MuteSaysNothing(line, f, f.content_length, digits);
    if !Illegal(short) {
      ShortIsMute(short);
      MuteSaysNothing(short, f, f.content_length, digits);
    }
  }

  lemma ShortForbidden(lines: seq<bytes>, k: nat, b: nat, n: nat, f: Fields, line: bytes)
    requires lines != [] && Hit(line, k, b, n) && line == lines[0] && HasForbidden(line)
    ensures Reading(lines, k, [], n, f) == Reading(lines, k, [b], n, f) && Unharmed(lines, k, b, n, f)
  {
    LeftKeeps(line, k, [b], n);
  }

  /** From a short line on that is all in front of the boundary. */
  lemma ShortHit(lines: seq<bytes>, k: nat, b: nat, n: nat, f: Fields, line: bytes, more: seq<bytes>, e: nat,
                 short: bytes)
    requires lines != [] && Hit(line, k, b, n) && e <= b
    requires line == lines[0] && more == lines[1..] && e == k + |line| + 2 && short == Left(line, k, [b], n)
    requires Reading(more, e, [b], n, f) == Reading(more, e, [], n, f) <==> Unharmed(more, e, b, n, f)
    ensures Reading(lines, k, [b], n, f) == Reading(lines, k, [], n, f) <==> Unharmed(lines, k, b, n, f)
  {
    if HasForbidden(line) {
      ShortForbidden(lines, k, b, n, f, line);
    } else {
      ShortReadings(lines, k, b, n, f, line, more, e, short);
      ShortUnharmed(lines, k, b, n, f, line, more, e, short);
      ReadingIs(more, e, [], n, f);
      LinesSay(LinesRead(more, e, [], n), f);
    }
  }

  /** The lines in two pieces are read as in one if and only if no line is harmed. */
  lemma {:induction false} CutReading(lines: seq<bytes>, k: nat, b: nat, n: nat, f: Fields)
    requires NoneEmpty(lines) && b <= n
    ensures Reading(lines, k, [b], n, f) == Reading(lines, k, [], n, f) <==> Unharmed(lines, k, b, n, f)
    decreases |lines|
  {
    if b <= k || n - k < 9 {
      OutOfReach(lines, k, b, n, f);
    } else if lines != [] {
      var line, more, e := lines[0], lines[1..], k + |lines[0]| + 2;
      if !Hit(line, k, b, n) {
        NotHit(line, k, b, n);
        match LineMeaning(line, f) { case None => case Some(g) => CutReading(more, e, b, n, g); }
      } else if b < e {
        HitReading(lines, k, b, n, f);
      } else {
        CutReading(more, e, b, n, f);
        ShortHit(lines, k, b, n, f, line, more, e, Left(line, k, [b], n));
      }
    }
  }

  lemma TwoPieces(r: RequestLine, lines: seq<bytes>, body: bytes, b: nat)
    requires r.Valid() && b <= |PrintRequest(r, lines) + body| && AreLines(lines)
    ensures var whole := PrintRequest(r, lines) + body;
            AnswerOf(HttpResume.Feed([], START, [whole[..b], whole[b..]])) ==
            Reading(lines, |r.Print()|, [b], |whole|, r.Fields())
  {
    var whole := PrintRequest(r, lines) + body;
    var chunks := [whole[..b], whole[b..]];
    assert chunks[1..] == [whole[b..]] && [whole[b..]][1..] == [] && whole[b..] + [] == whole[b..];
    assert Concat(chunks) == whole[..b] + Concat([whole[b..]]) == whole;
    assert [] + whole == whole;
    assert Bounds(0, chunks) == [b] + Bounds(b, [whole[b..]]) == [b, |whole|];
    forall k: nat ensures Seen([b], k, |whole|) == Seen([b, |whole|], k, |whole|) {
      assert [b, |whole|][1..] == [|whole|] && [|whole|][1..] == [] && [b][1..] == [];
    }
    FeedIsRead(whole, [b], [], START, chunks);
    RequestRun(r, [b], lines, body);
  }

  /** For every request and every boundary: the verdict and all fields in two pieces are those in one piece if
      and only if every header line that the boundary hits is unharmed. */
  lemma CutSurvivesIff(r: RequestLine, lines: seq<bytes>, body: bytes, b: nat)
    requires r.Valid() && b <= |PrintRequest(r, lines) + body|
    requires NoneEmpty(lines) && AreLines(lines)
    ensures var whole := PrintRequest(r, lines) + body;
            AnswerOf(HttpResume.Feed([], START, [whole[..b], whole[b..]])) == AnswerOf(Run(whole, START)) <==>
            Unharmed(lines, |r.Print()|, b, |whole|, r.Fields())
  {
    TwoPieces(r, lines, body, b);
    RequestRun(r, [], lines, body);
    CutReading(lines, |r.Print()|, b, |PrintRequest(r, lines) + body|, r.Fields());
  }

  // ---- The Content-Length ------------------------------------------------------------------

  /** Where the `i`th line starts if the first starts at `k`. */
  function LineOffset(lines: seq<bytes>, k: nat, i: nat): nat
    requires i <= |lines|
    decreases |lines|
  {
    if i == 0 then k else LineOffset(lines[1..], k + |lines[0]| + 2, i - 1)
  }

  predicate HitAt(lines: seq<bytes>, k: nat, i: nat, b: nat, n: nat)
    requires i < |lines|
  {
    Hit(lines[i], LineOffset(lines, k, i), b, n)
  }

  function LeftAt(lines: seq<bytes>, k: nat, i: nat, cuts: seq<nat>, n: nat): bytes
    requires i < |lines|
  {
    Left(lines[i], LineOffset(lines, k, i), cuts, n)
  }

  lemma SameSaid(line: bytes, k: nat, b: nat, n: nat, word: bytes)
    requires word in {CONTENT_LENGTH, CONTENT_TYPE, SEC_WEBSOCKET_KEY} && b <= n && k + |line| + 2 <= n
    requires !Hit(line, k, b, n) || k + |line| + 2 <= b
    ensures Said(Left(line, k, [b], n), word) == Said(line, word)
  {
    if !Hit(line, k, b, n) {
      NotHit(line, k, b, n);
    }
    if |line| < 9 {
      ShortSaysNothing(line, word);
      ShortSaysNothing(Left(line, k, [b], n), word);
    }
  }

  lemma ShortSaysNothing(line: bytes, word: bytes)
    requires |line| < 9 && word in {CONTENT_LENGTH, CONTENT_TYPE, SEC_WEBSOCKET_KEY}
    ensures Said(line, word) == []
  {
  }

  lemma {:induction false} SameValues(lines: seq<bytes>, k: nat, b: nat, n: nat, word: bytes)
    requires word in {CONTENT_LENGTH, CONTENT_TYPE, SEC_WEBSOCKET_KEY} && b <= n && (b <= k || n - k < 9)
    requires k + |Text(lines)| + 2 <= n
    ensures Values(Lefts(lines, k, [b], n), word) == Values(lines, word)
    decreases |lines|
  {
    if lines != [] {
      var e := k + |lines[0]| + 2;
      SameSaid(lines[0], k, b, n, word);
      assert Lefts(lines, k, [b], n)[1..] == Lefts(lines[1..], e, [b], n);
      SameValues(lines[1..], e, b, n, word);
    }
  }

  /** Lines that are hit, other than the `i`th, are too short to say anything. */
  ghost predicate OthersShort(lines: seq<bytes>, k: nat, i: nat, b: nat, n: nat) {
    forall l | 0 <= l < |lines| && l != i && HitAt(lines, k, l, b, n) :: |lines[l]| < 9
  }

  lemma NoneHit(lines: seq<bytes>, k: nat, i: nat, b: nat, n: nat)
    requires b <= k || n - k < 9 || lines == []
    ensures OthersShort(lines, k, i, b, n)
  {
    forall l | 0 <= l < |lines| ensures !HitAt(lines, k, l, b, n) {
      StartsBehind(lines, k, l);
    }
  }

  lemma {:induction false} StartsBehind(lines: seq<bytes>, k: nat, i: nat)
    requires i <= |lines|
    ensures LineOffset(lines, k, i) >= k
    decreases |lines|
  {
    if i > 0 {
      StartsBehind(lines[1..], k + |lines[0]| + 2, i - 1);
    }
  }

  lemma OthersBehind(lines: seq<bytes>, k: nat, i: nat, b: nat, n: nat)
    requires lines != [] && OthersShort(lines[1..], k + |lines[0]| + 2, i, b, n)
    requires Hit(lines[0], k, b, n) ==> |lines[0]| < 9
    ensures OthersShort(lines, k, i + 1, b, n)
  {
    forall l | 0 <= l < |lines| && l != i + 1 && HitAt(lines, k, l, b, n) ensures |lines[l]| < 9 {
      if l > 0 {
        assert HitAt(lines[1..], k + |lines[0]| + 2, l - 1, b, n);
      }
    }
  }

  /** `i` is the one line that may say something else than it would without the boundary. */
  ghost predicate OnlyChange(lines: seq<bytes>, k: nat, b: nat, n: nat, word: bytes, i: nat) {
    && i <= |lines| && OthersShort(lines, k, i, b, n) && (i < |lines| ==> HitAt(lines, k, i, b, n))
    && Values(Lefts(lines, k, [b], n), word) == Values(Changed(lines, k, i, b, n), word)
  }

  lemma ChangeFirst(lines: seq<bytes>, k: nat, b: nat, n: nat, word: bytes)
    requires word in {CONTENT_LENGTH, CONTENT_TYPE, SEC_WEBSOCKET_KEY} && b <= n && k + |Text(lines)| + 2 <= n
    requires lines != [] && Hit(lines[0], k, b, n) && b < k + |lines[0]| + 2
    ensures OnlyChange(lines, k, b, n, word, 0)
  {
    var more, e := lines[1..], k + |lines[0]| + 2;
    assert Lefts(lines, k, [b], n)[1..] == Lefts(more, e, [b], n);
    SameValues(more, e, b, n, word);
    OthersBehindFirst(lines, k, b, n);
    assert lines[0 := Left(lines[0], k, [b], n)][1..] == more;
  }

  /** The lines, the `i`th of them replaced by what the boundary leaves of it. */
  function Changed(lines: seq<bytes>, k: nat, i: nat, b: nat, n: nat): (s: seq<bytes>)
    requires i <= |lines|
    ensures |s| == |lines|
  {
    if i < |lines| then lines[i := LeftAt(lines, k, i, [b], n)] else lines
  }

  lemma ChangedTail(lines: seq<bytes>, k: nat, i: nat, b: nat, n: nat)
    requires lines != [] && i <= |lines[1..]|
    ensures Changed(lines, k, i + 1, b, n) == [lines[0]] + Changed(lines[1..], k + |lines[0]| + 2, i, b, n)
  {
  }

  lemma SameValuesBehind(line: bytes, left: bytes, lefts: seq<bytes>, changed: seq<bytes>, word: bytes)
    requires Said(left, word) == Said(line, word) && Values(lefts, word) == Values(changed, word)
    ensures Values([left] + lefts, word) == Values([line] + changed, word)
  {
    ValuesFirst([left] + lefts, word, left, lefts);
    ValuesFirst([line] + changed, word, line, changed);
  }

  lemma HitBehind(lines: seq<bytes>, k: nat, b: nat, n: nat, i: nat)
    requires lines != [] && i < |lines[1..]| && HitAt(lines[1..], k + |lines[0]| + 2, i, b, n)
    ensures HitAt(lines, k, i + 1, b, n)
  {
  }

  lemma LeftsFirst(lines: seq<bytes>, k: nat, cuts: seq<nat>, n: nat)
    requires lines != []
    ensures Lefts(lines, k, cuts, n) ==
            [Left(lines[0], k, cuts, n)] + Lefts(lines[1..], k + |lines[0]| + 2, cuts, n)
  {
  }

  lemma ChangeBehindValues(lines: seq<bytes>, k: nat, b: nat, n: nat, word: bytes, i: nat, left: bytes, e: nat)
    requires lines != [] && left == Left(lines[0], k, [b], n) && e == k + |lines[0]| + 2 && i <= |lines[1..]|
    requires Said(left, word) == Said(lines[0], word)
    requires Values(Lefts(lines[1..], e, [b], n), word) == Values(Changed(lines[1..], e, i, b, n), word)
    ensures Values(Lefts(lines, k, [b], n), word) == Values(Changed(lines, k, i + 1, b, n), word)
  {
    LeftsFirst(lines, k, [b], n);
    ChangedTail(lines, k, i, b, n);
    SameValuesBehind(lines[0], left, Lefts(lines[1..], e, [b], n), Changed(lines[1..], e, i, b, n), word);
  }

  lemma ChangeBehind(lines: seq<bytes>, k: nat, b: nat, n: nat, word: bytes, i: nat, left: bytes, e: nat)
    requires lines != [] && left == Left(lines[0], k, [b], n) && e == k + |lines[0]| + 2
    requires Said(left, word) == Said(lines[0], word) && (Hit(lines[0], k, b, n) ==> |lines[0]| < 9)
    requires OnlyChange(lines[1..], e, b, n, word, i)
    ensures OnlyChange(lines, k, b, n, word, i + 1)
  {
    OthersBehind(lines, k, i, b, n);
    ChangeBehindValues(lines, k, b, n, word, i, left, e);
    if i < |lines[1..]| {
      HitBehind(lines, k, b, n, i);
    }
  }

  /** At most one line says something else than it would without the boundary. */
  lemma {:induction false} CutValues(lines: seq<bytes>, k: nat, b: nat, n: nat, word: bytes) returns (i: nat)
    requires word in {CONTENT_LENGTH, CONTENT_TYPE, SEC_WEBSOCKET_KEY} && b <= n && k + |Text(lines)| + 2 <= n
    ensures OnlyChange(lines, k, b, n, word, i)
    decreases |lines|
  {
    i := |lines|;
    if lines == [] || b <= k || n - k < 9 {
      if lines != [] {
        SameValues(lines, k, b, n, word);
      }
      NoneHit(lines, k, i, b, n);
    } else if Hit(lines[0], k, b, n) && b < k + |lines[0]| + 2 {
      i := 0;
      ChangeFirst(lines, k, b, n, word);
    } else {
      i := CutValues(lines[1..], k + |lines[0]| + 2, b, n, word);
      SameSaid(lines[0], k, b, n, word);
      ChangeBehind(lines, k, b, n, word, i, Left(lines[0], k, [b], n), k + |lines[0]| + 2);
      i := i + 1;
    }
  }

  lemma OthersBehindFirst(lines: seq<bytes>, k: nat, b: nat, n: nat)
    requires lines != [] && b <= k + |lines[0]| + 2
    ensures OthersShort(lines, k, 0, b, n)
  {
    forall l | 0 < l < |lines| ensures !HitAt(lines, k, l, b, n) {
      StartsBehind(lines[1..], k + |lines[0]| + 2, l - 1);
    }
  }

  /** The parser has finished, and the length is the number that these digits make. */
  predicate HasLength(s: Stepped, digits: bytes) {
    IsDecimal(digits) && s.verdict == FINISHED && s.p.fields.content_length == Accumulate(0, digits)
  }

  lemma {:induction false} LeftsAreLegal(lines: seq<bytes>, k: nat, cuts: seq<nat>, n: nat)
    requires AreFields(lines)
    ensures AreLegal(Lefts(lines, k, cuts, n))
    decreases |lines|
  {
    if lines != [] {
      LeftIsLegal(lines[0], k, cuts, n);
      LeftsAreLegal(lines[1..], k + |lines[0]| + 2, cuts, n);
    }
  }

  lemma {:induction false} LeftIsLegal(line: bytes, k: nat, cuts: seq<nat>, n: nat)
    requires Clean(line)
    ensures !Illegal(Left(line, k, cuts, n))
    decreases |line|
  {
    if line != [] && Token(line[0]) == LETTER_C && Seen(cuts, k, n) - k < 9 {
      LeftIsLegal(line[1..], k + 1, cuts, n);
    }
  }

  lemma LengthOfAnswer(s: Stepped, lines: seq<bytes>, f: Fields, len: nat)
    requires AnswerOf(s) == Expected(Meaning(lines, f), len) && f.content_length == 0 && AreLegal(lines)
    ensures if IsDecimal(Values(lines, CONTENT_LENGTH)) then HasLength(s, Values(lines, CONTENT_LENGTH))
            else s.verdict == ERROR
  {
    LinesSay(lines, f);
  }

  /** In any pieces, the length is what the lines that are left say. */
  lemma LengthInPieces(r: RequestLine, lines: seq<bytes>, body: bytes, chunks: seq<bytes>)
    requires r.Valid() && AreFields(lines) && Concat(chunks) == PrintRequest(r, lines) + body
    ensures var s := HttpResume.Feed([], START, chunks);
            var digits := Values(Lefts(lines, |r.Print()|, Bounds(0, chunks), |Concat(chunks)|), CONTENT_LENGTH);
            if IsDecimal(digits) then HasLength(s, digits) else s.verdict == ERROR
  {
    PiecesOfFields(r, lines, body, chunks);
    LeftsAreLegal(lines, |r.Print()|, Bounds(0, chunks), |Concat(chunks)|);
    LengthOfAnswer(HttpResume.Feed([], START, chunks),
                   Lefts(lines, |r.Print()|, Bounds(0, chunks), |Concat(chunks)|), r.Fields(),
                   |PrintRequest(r, lines)|);
  }

  lemma LengthInTwo(r: RequestLine, lines: seq<bytes>, body: bytes, b: nat)
    requires r.Valid() && AreFields(lines) && b <= |PrintRequest(r, lines) + body|
    ensures var whole := PrintRequest(r, lines) + body;
            var s := HttpResume.Feed([], START, [whole[..b], whole[b..]]);
            var digits := Values(Lefts(lines, |r.Print()|, [b], |whole|), CONTENT_LENGTH);
            if IsDecimal(digits) then HasLength(s, digits) else s.verdict == ERROR
  {
    var whole := PrintRequest(r, lines) + body;
    TwoPieces(r, lines, body, b);
    FieldsReading(lines, |r.Print()|, [b], |whole|, r.Fields());
    LeftsAreLegal(lines, |r.Print()|, [b], |whole|);
    LengthOfAnswer(HttpResume.Feed([], START, [whole[..b], whole[b..]]), Lefts(lines, |r.Print()|, [b], |whole|),
                   r.Fields(), |PrintRequest(r, lines)|);
  }

  lemma FieldsAreLegal(lines: seq<bytes>)
    requires AreFields(lines)
    ensures AreLegal(lines)
  {
  }

  lemma LengthInOne(r: RequestLine, lines: seq<bytes>, body: bytes)
    requires r.Valid() && AreFields(lines)
    ensures var s := Run(PrintRequest(r, lines) + body, START);
            var digits := Values(lines, CONTENT_LENGTH);
            if IsDecimal(digits) then HasLength(s, digits) else s.verdict == ERROR
  {
    FieldsMeetReference(r, lines, body);
    FieldsAreLegal(lines);
    LengthOfAnswer(Run(PrintRequest(r, lines) + body, START), lines, r.Fields(), |PrintRequest(r, lines)|);
  }

  lemma ValuesFirst(lines: seq<bytes>, word: bytes, line: bytes, more: seq<bytes>)
    requires lines == [line] + more
    ensures Values(lines, word) == Said(line, word) + Values(more, word)
    ensures Said(line, word) == [] ==> Values(lines, word) == Values(more, word)
    ensures Values(more, word) == [] ==> Values(lines, word) == Said(line, word)
  {
    assert lines[1..] == more;
    assert [] + Values(more, word) == Values(more, word) && Said(line, word) + [] == Said(line, word);
  }

  /** No line but the `j`th says anything. */
  ghost predicate OnlySays(lines: seq<bytes>, word: bytes, j: int) {
    forall l | 0 <= l < |lines| && l != j :: Said(lines[l], word) == []
  }

  lemma OnlySaysTail(lines: seq<bytes>, word: bytes, j: int)
    requires lines != [] && OnlySays(lines, word, j)
    ensures OnlySays(lines[1..], word, j - 1) && (j != 0 ==> Said(lines[0], word) == [])
  {
  }

  lemma {:induction false} ValuesOnce(lines: seq<bytes>, word: bytes, j: int)
    requires OnlySays(lines, word, j)
    ensures Values(lines, word) == if 0 <= j < |lines| then Said(lines[j], word) else []
    decreases |lines|
  {
    if lines != [] {
      OnlySaysTail(lines, word, j);
      ValuesFirst(lines, word, lines[0], lines[1..]);
      ValuesOnce(lines[1..], word, j - 1);
    }
  }

  /** No lines but two say anything. */
  lemma {:induction false} ValuesTwice(lines: seq<bytes>, word: bytes, i: nat, j: nat)
    requires i < j < |lines|
    requires forall l | 0 <= l < |lines| && l != i && l != j :: Said(lines[l], word) == []
    ensures Values(lines, word) == Said(lines[i], word) + Said(lines[j], word)
    decreases |lines|
  {
    ValuesFirst(lines, word, lines[0], lines[1..]);
    if i == 0 {
      ValuesOnce(lines[1..], word, j - 1);
    } else {
      ValuesTwice(lines[1..], word, i - 1, j - 1);
    }
  }

  /** One line takes another value, and one other line has a value. */
  lemma ValuesAround(lines: seq<bytes>, word: bytes, i: nat, j: nat, x: bytes)
    requires i < |lines| && j < |lines| && OnlySays(lines, word, j)
    ensures Values(lines[i := x], word) ==
            if i == j then Said(x, word)
            else if i < j then Said(x, word) + Said(lines[j], word) else Said(lines[j], word) + Said(x, word)
  {
    if i == j {
      ValuesOnce(lines[i := x], word, i);
    } else if i < j {
      ValuesTwice(lines[i := x], word, i, j);
    } else {
      ValuesTwice(lines[i := x], word, j, i);
    }
  }

  /** `short` takes the place of the `i`th header, and the `j`th is the only Content-Length, with the value `v`. */
  predicate KeepsLength(short: bytes, i: nat, j: nat, v: bytes)
    requires IsDecimal(v)
  {
    if i == j then Accumulate(0, v) == 0
    else
      var w := Said(short, CONTENT_LENGTH);
      && IsDecimal(w)
      && (if i < j then Accumulate(Accumulate(0, w), v) else Accumulate(Accumulate(0, v), w)) == Accumulate(0, v)
  }

  lemma LengthOfTwo(i: nat, j: nat, v: bytes, short: bytes, digits: bytes)
    requires IsDecimal(v) && (i == j ==> Said(short, CONTENT_LENGTH) == [])
    requires digits == (if i == j then Said(short, CONTENT_LENGTH)
                        else if i < j then Said(short, CONTENT_LENGTH) + v else v + Said(short, CONTENT_LENGTH))
    ensures IsDecimal(digits) && Accumulate(0, digits) == Accumulate(0, v) <==> KeepsLength(short, i, j, v)
  {
    var w := Said(short, CONTENT_LENGTH);
    DecimalConcat(w, v);
    DecimalConcat(v, w);
    if IsDecimal(w) {
      AccumulateConcat(0, w, v);
      AccumulateConcat(0, v, w);
    }
  }

  /** What the boundary leaves of every line that it hits keeps the length. */
  ghost predicate AllKeep(lines: seq<bytes>, k: nat, b: nat, n: nat, j: nat, v: bytes)
    requires IsDecimal(v)
  {
    forall i | 0 <= i < |lines| && HitAt(lines, k, i, b, n) :: KeepsLength(LeftAt(lines, k, i, [b], n), i, j, v)
  }

  /** The `j`th line alone gives a length, and its value is `v`. */
  ghost predicate OneSays(lines: seq<bytes>, j: nat, v: bytes) {
    && j < |lines| && Said(lines[j], CONTENT_LENGTH) == v && |lines[j]| >= 9 && IsDecimal(v)
    && OnlySays(lines, CONTENT_LENGTH, j)
  }

  lemma OthersKeep(lines: seq<bytes>, k: nat, b: nat, n: nat, i: nat, j: nat, v: bytes)
    requires i <= |lines| && OthersShort(lines, k, i, b, n) && OneSays(lines, j, v)
    requires i < |lines| ==> HitAt(lines, k, i, b, n)
    ensures AllKeep(lines, k, b, n, j, v) <==>
            (i < |lines| ==> KeepsLength(LeftAt(lines, k, i, [b], n), i, j, v))
  {
    forall l | 0 <= l < |lines| && l != i && HitAt(lines, k, l, b, n)
      ensures KeepsLength(LeftAt(lines, k, l, [b], n), l, j, v)
    {
      ShortSaysNothing(LeftAt(lines, k, l, [b], n), CONTENT_LENGTH);
    }
  }

  /** A Content-Length line loses all its digits. */
  lemma LostDigits(line: bytes, k: nat, b: nat, n: nat)
    requires Hit(line, k, b, n) && Spells(line, 0, CONTENT_LENGTH)
    ensures Said(Left(line, k, [b], n), CONTENT_LENGTH) == []
  {
    assert Token(line[0 + 1]) == CONTENT_LENGTH[1];
    WordsDiffer(line[1..]);
  }

  lemma KeepsLengthIff(lines: seq<bytes>, k: nat, b: nat, n: nat, j: nat, v: bytes)
    requires b <= n && k + |Text(lines)| + 2 <= n && OneSays(lines, j, v) && Spells(lines[j], 0, CONTENT_LENGTH)
    ensures var digits := Values(Lefts(lines, k, [b], n), CONTENT_LENGTH);
            IsDecimal(digits) && Accumulate(0, digits) == Accumulate(0, v) <==> AllKeep(lines, k, b, n, j, v)
  {
    var i := CutValues(lines, k, b, n, CONTENT_LENGTH);
    OthersKeep(lines, k, b, n, i, j, v);
    if i < |lines| {
      var short := LeftAt(lines, k, i, [b], n);
      ValuesAround(lines, CONTENT_LENGTH, i, j, short);
      if i == j {
        LostDigits(lines[i], LineOffset(lines, k, i), b, n);
      }
      LengthOfTwo(i, j, v, short, Values(Lefts(lines, k, [b], n), CONTENT_LENGTH));
    } else {
      ValuesOnce(lines, CONTENT_LENGTH, j);
    }
  }

  lemma HeaderSays(h: Header)
    requires h.Valid()
    ensures Said(h.Line(), CONTENT_LENGTH) == if h.Is(CONTENT_LENGTH) then h.value else []
    ensures h.Is(CONTENT_LENGTH) ==> Spells(h.Line(), 0, CONTENT_LENGTH)
  {
    LineSpells(h, CONTENT_LENGTH);
    assert CONTENT_LENGTH in [CONTENT_LENGTH, CONTENT_TYPE, SEC_WEBSOCKET_KEY];
    if h.Is(CONTENT_LENGTH) {
      LineValue(h, CONTENT_LENGTH);
    }
  }

  /** The headers are valid, and the `j`th is the only Content-Length. */
  ghost predicate OneLength(headers: seq<Header>, j: nat) {
    && (forall i | 0 <= i < |headers| :: headers[i].Valid())
    && j < |headers| && headers[j].Is(CONTENT_LENGTH)
    && (forall i | 0 <= i < |headers| && i != j :: !headers[i].Is(CONTENT_LENGTH))
  }

  lemma LinesSayLength(headers: seq<Header>, j: nat)
    requires OneLength(headers, j)
    ensures OneSays(Lines(headers), j, headers[j].value) && Spells(Lines(headers)[j], 0, CONTENT_LENGTH)
    ensures AreFields(Lines(headers))
  {
    forall i | 0 <= i < |headers|
      ensures IsField(Lines(headers)[i])
      ensures Said(Lines(headers)[i], CONTENT_LENGTH) == if i == j then headers[j].value else []
    {
      LineIsField(headers[i]);
      HeaderSays(headers[i]);
    }
    HeaderSays(headers[j]);
    assert headers[j].Valid();
  }

  /** In two pieces, a request with one Content-Length header finishes with that length if and only if every
      header that is hit keeps it: the Content-Length itself keeps only 0, and any other header keeps it
      unless its name becomes Content-Length without its leading c's and its digits then change the number. */
  lemma ContentLengthSurvivesIff(r: RequestLine, headers: seq<Header>, body: bytes, j: nat, b: nat)
    requires r.Valid() && OneLength(headers, j) && b <= |PrintRequest(r, Lines(headers)) + body|
    ensures IsDecimal(headers[j].value)
    ensures var whole, v := PrintRequest(r, Lines(headers)) + body, headers[j].value;
            HasLength(HttpResume.Feed([], START, [whole[..b], whole[b..]]), v) <==>
            AllKeep(Lines(headers), |r.Print()|, b, |whole|, j, v)
  {
    LinesSayLength(headers, j);
    LengthInTwo(r, Lines(headers), body, b);
    KeepsLengthIff(Lines(headers), |r.Print()|, b, |PrintRequest(r, Lines(headers)) + body|, j, headers[j].value);
  }

  /** A cut inside the first nine bytes of its only Content-Length header costs a request that header. */
  lemma CutLosesContentLength(r: RequestLine, headers: seq<Header>, body: bytes, j: nat, b: nat)
    requires r.Valid() && OneLength(headers, j) && b <= |PrintRequest(r, Lines(headers)) + body|
    requires 0 < b - LineOffset(Lines(headers), |r.Print()|, j) < 9
    ensures var whole := PrintRequest(r, Lines(headers)) + body;
            var s := HttpResume.Feed([], START, [whole[..b], whole[b..]]);
            s.verdict == FINISHED && s.p.fields.content_length == 0
  {
    var lines, k, n := Lines(headers), |r.Print()|, |PrintRequest(r, Lines(headers)) + body|;
    LinesSayLength(headers, j);
    LengthInTwo(r, lines, body, b);
    LineFits(lines, k, j);
    WordsDiffer(lines[j]);
    assert HitAt(lines, k, j, b, n);
    var i := CutValues(lines, k, b, n, CONTENT_LENGTH);
    ValuesAround(lines, CONTENT_LENGTH, j, j, LeftAt(lines, k, j, [b], n));
    LostDigits(lines[j], LineOffset(lines, k, j), b, n);
  }

  lemma {:induction false} LineFits(lines: seq<bytes>, k: nat, i: nat)
    requires i < |lines|
    ensures LineOffset(lines, k, i) + |lines[i]| + 2 <= k + |Text(lines)|
    decreases |lines|
  {
    if i > 0 {
      LineFits(lines[1..], k + |lines[0]| + 2, i - 1);
    }
  }

  // ---- Two requests ------------------------------------------------------------------------

  /** The lines give the length `v`, and what the boundary `b` leaves of them gives the length `digits`. */
  predicate Lengths(lines: seq<bytes>, k: nat, b: nat, n: nat, v: bytes, digits: bytes) {
    && AreFields(lines) && IsDecimal(v) && IsDecimal(digits)
    && v == Values(lines, CONTENT_LENGTH) && digits == Values(Lefts(lines, k, [b], n), CONTENT_LENGTH)
  }

  /** In one piece the length of the stream is `v`, and in two pieces, cut at `b`, it is `digits`. */
  ghost predicate ReadAs(whole: bytes, b: nat, v: bytes, digits: bytes) {
    && b <= |whole| && HasLength(Run(whole, START), v)
    && HasLength(HttpResume.Feed([], START, [whole[..b], whole[b..]]), digits)
  }

  /** The length in one piece and in two. */
  lemma TwoLengths(r: RequestLine, lines: seq<bytes>, body: bytes, b: nat, v: bytes, digits: bytes)
    requires r.Valid() && b <= |PrintRequest(r, lines) + body|
    requires Lengths(lines, |r.Print()|, b, |PrintRequest(r, lines) + body|, v, digits)
    ensures ReadAs(PrintRequest(r, lines) + body, b, v, digits)
  {
    LengthInOne(r, lines, body);
    LengthInTwo(r, lines, body, b);
  }

  lemma OtherLine(hidden: bytes)
    requires IsField(hidden) && Spells(hidden, 0, CONTENT_LENGTH)
    ensures IsField([LETTER_C] + hidden) && Said([LETTER_C] + hidden, CONTENT_LENGTH) == []
  {
    var other := [LETTER_C] + hidden;
    assert other[1..] == hidden;
    var i :| 0 <= i < |hidden| && Token(hidden[i]) != LETTER_C;
    assert Token(other[i + 1]) != LETTER_C;
    WordsDiffer(hidden);
    assert Token(other[0 + 1]) == LETTER_C && CONTENT_LENGTH[1] != LETTER_C;
  }

  lemma TwoLines(line: bytes, other: bytes)
    ensures Values([line, other], CONTENT_LENGTH) == Said(line, CONTENT_LENGTH) + Said(other, CONTENT_LENGTH)
    ensures |Text([line, other])| == |line| + 2 + |other| + 2
  {
    var lines := [line, other];
    assert lines[1..] == [other] && [other][1..] == [];
    assert Values([other], CONTENT_LENGTH) == Said(other, CONTENT_LENGTH) + [] == Said(other, CONTENT_LENGTH);
    assert Text([other]) == other + CRLF + [];
    assert Text(lines) == line + CRLF + Text([other]);
  }

  lemma LeftsOfTwo(line: bytes, other: bytes, k: nat, cuts: seq<nat>, n: nat)
    ensures Lefts([line, other], k, cuts, n) == [Left(line, k, cuts, n), Left(other, k + |line| + 2, cuts, n)]
  {
    var lines := [line, other];
    var last := lines[1..];
    assert last == [other] && last[1..] == [];
    assert Lefts([other], k + |line| + 2, cuts, n) == [Left(other, k + |line| + 2, cuts, n)] + [];
    assert Lefts(lines, k, cuts, n) == [Left(line, k, cuts, n)] + Lefts([other], k + |line| + 2, cuts, n);
  }

  /** `line` gives the length `v`, and `hidden` is a Content-Length line that gives `w`. */
  predicate Hides(line: bytes, hidden: bytes, v: bytes, w: bytes) {
    && IsField(line) && IsField(hidden) && Spells(hidden, 0, CONTENT_LENGTH)
    && v == Said(line, CONTENT_LENGTH) && w == Said(hidden, CONTENT_LENGTH) && IsDecimal(v) && IsDecimal(w)
  }

  /** A header whose name is Content-Length behind a c gains its value when it is cut behind that c. */
  lemma CutGainsLength(line: bytes, hidden: bytes, k: nat, n: nat, v: bytes, w: bytes)
    requires Hides(line, hidden, v, w)
    requires n >= k + |line| + 2 + 1 + |hidden| + 2
    ensures Lengths([line, [LETTER_C] + hidden], k, k + |line| + 3, n, v, v + w)
  {
    var other: bytes, e, b := [LETTER_C] + hidden, k + |line| + 2, k + |line| + 3;
    OtherLine(hidden);
    TwoLines(line, other);
    assert v + [] == v;
    DecimalConcat(v, w);
    LeftsOfGain(line, other, hidden, k, n, v, w);
  }

  lemma LeftsOfGain(line: bytes, other: bytes, hidden: bytes, k: nat, n: nat, v: bytes, w: bytes)
    requires other == [LETTER_C] + hidden && n >= k + |line| + 2 + |other| + 2 && |hidden| >= 9
    requires v == Said(line, CONTENT_LENGTH) && w == Said(hidden, CONTENT_LENGTH)
    ensures Values(Lefts([line, other], k, [k + |line| + 3], n), CONTENT_LENGTH) == v + w
  {
    var e, b := k + |line| + 2, k + |line| + 3;
    SameSaid(line, k, b, n, CONTENT_LENGTH);
    OtherLeft(other, hidden, e, b, n);
    TwoLines(Left(line, k, [b], n), hidden);
    LeftsOfTwo(line, other, k, [b], n);
  }

  lemma OtherLeft(other: bytes, hidden: bytes, e: nat, b: nat, n: nat)
    requires other == [LETTER_C] + hidden && b == e + 1 && n >= b + 9
    ensures Left(other, e, [b], n) == hidden
  {
    assert other[1..] == hidden && [b][1..] == [];
    assert Seen([b], e, n) == b && Seen([b], b, n) == n;
    assert Left(other, e, [b], n) == Left(hidden, b, [b], n) == hidden;
  }

  const EXAMPLE := RequestLine(POST, [0x50, 0x4f, 0x53, 0x54], [0x2f], None, [0x48])

  function LengthHeader(n: nat): Header {
    Header([0x43, 0x6f, 0x6e, 0x74, 0x65, 0x6e, 0x74, 0x2d, 0x4c, 0x65, 0x6e, 0x67, 0x74, 0x68], Decimal(n))
  }

  lemma LengthNameIs(name: bytes)
    requires name == [0x43, 0x6f, 0x6e, 0x74, 0x65, 0x6e, 0x74, 0x2d, 0x4c, 0x65, 0x6e, 0x67, 0x74, 0x68]
    ensures |name| == |CONTENT_LENGTH| && Spells(name, 0, CONTENT_LENGTH) && Clean(name) && COLON !in name
  {
  }

  lemma LengthHeaderValid(n: nat)
    requires n < 10
    ensures LengthHeader(n).Valid() && LengthHeader(n).Is(CONTENT_LENGTH)
  {
    var h := LengthHeader(n);
    LengthNameIs(h.name);
    WordsDiffer(h.name);
  }

  /** A POST with a Content-Length of 5, cut behind the C, is taken to have no body. */
  lemma LostLengthExample(body: bytes) returns (r: RequestLine, headers: seq<Header>, b: nat)
    ensures r.Valid() && OneLength(headers, 0) && |headers| == 1 && headers[0].value == Decimal(5)
    ensures var whole := PrintRequest(r, Lines(headers)) + body;
            && b <= |whole|
            && Run(whole, START).verdict == FINISHED && Run(whole, START).p.fields.content_length == 5
            && var s := HttpResume.Feed([], START, [whole[..b], whole[b..]]);
               s.verdict == FINISHED && s.p.fields.content_length == 0
  {
    r, headers := EXAMPLE, [LengthHeader(5)];
    LengthHeaderValid(5);
    LineFits(Lines(headers), |r.Print()|, 0);
    b := |r.Print()| + 1;
    ContentLengthRoundTrip(r, headers, body, 0, 5);
    CutLosesContentLength(r, headers, body, 0, b);
  }

  lemma PrintedLength(r: RequestLine, line: bytes, other: bytes, body: bytes)
    ensures |PrintRequest(r, [line, other]) + body| == |r.Print()| + |line| + 2 + |other| + 2 + 2 + |body|
  {
    TwoLines(line, other);
  }

  lemma GainLength(r: RequestLine, line: bytes, hidden: bytes, lines: seq<bytes>, body: bytes, n: nat)
    requires lines == [line, [LETTER_C] + hidden] && n == |PrintRequest(r, lines) + body|
    ensures n >= |r.Print()| + |line| + 2 + 1 + |hidden| + 2
  {
    PrintedLength(r, line, [LETTER_C] + hidden, body);
  }

  lemma GainLengths(line: bytes, hidden: bytes, lines: seq<bytes>, k: nat, b: nat, n: nat, v: bytes, w: bytes)
    requires Hides(line, hidden, v, w) && lines == [line, [LETTER_C] + hidden] && b == k + |line| + 3
    requires n >= k + |line| + 2 + 1 + |hidden| + 2
    ensures Lengths(lines, k, b, n, v, v + w)
  {
    CutGainsLength(line, hidden, k, n, v, w);
  }

  lemma ExampleGain(r: RequestLine, line: bytes, hidden: bytes, lines: seq<bytes>, body: bytes, b: nat,
                    v: bytes, w: bytes)
    requires r.Valid() && b == |r.Print()| + |line| + 3 && Hides(line, hidden, v, w)
    requires lines == [line, [LETTER_C] + hidden]
    ensures ReadAs(PrintRequest(r, lines) + body, b, v, v + w)
  {
    var n := |PrintRequest(r, lines) + body|;
    GainLength(r, line, hidden, lines, body, n);
    GainLengths(line, hidden, lines, |r.Print()|, b, n, v, w);
    TwoLengths(r, lines, body, b, v, v + w);
  }

  /** Content-Length: 5 and cContent-Length: 7, cut behind the first c of the second line, give 57. */
  lemma GainedLengthExample(body: bytes) returns (r: RequestLine, lines: seq<bytes>, b: nat)
    ensures r.Valid() && lines == [LengthHeader(5).Line(), [LETTER_C] + LengthHeader(7).Line()]
    ensures var whole := PrintRequest(r, lines) + body;
            && b <= |whole|
            && Run(whole, START).verdict == FINISHED && Run(whole, START).p.fields.content_length == 5
            && var s := HttpResume.Feed([], START, [whole[..b], whole[b..]]);
               s.verdict == FINISHED && s.p.fields.content_length == 57
  {
    var h, g := LengthHeader(5), LengthHeader(7);
    LengthHeaderValid(5);
    LengthHeaderValid(7);
    HeaderSays(h);
    HeaderSays(g);
    LineIsField(h);
    LineIsField(g);
    r, lines, b := EXAMPLE, [h.Line(), [LETTER_C] + g.Line()], |EXAMPLE.Print()| + |h.Line()| + 3;
    ExampleGain(r, h.Line(), g.Line(), lines, body, b, h.value, g.value);
    DecimalRoundTrip(5);
    DecimalRoundTrip(57);
    assert Decimal(5) + Decimal(7) == Decimal(57);
  }
}
