/** Resumability: a request may arrive in pieces. */
module HttpResume {
  import opened Bytes
  import opened HttpParser

  /** A line starts at `k`: a CR LF is just before it. */
  predicate LineStart(buf: bytes, k: nat) { 2 <= k <= |buf| && buf[k - 2] == CR && buf[k - 1] == LF }

  /** A boundary between two reads that is not inside the first nine bytes of a line of the header (which
      ends at `end`) starting with c or C, unless the whole stream ends there too. */
  predicate HarmlessCut(whole: bytes, end: nat, b: nat) {
    forall k: nat | LineStart(whole, k) && k <= end && k < b < k + 9 && k < |whole| && Token(whole[k]) == LETTER_C ::
      |whole| - k < 9
  }

  /** A parser that looks for a header field is at the start of a line, or fewer than nine bytes are left. */
  predicate Poised(whole: bytes, p: Parser) {
    && p.offset <= |whole|
    && (p.status.S_HEADER_FIELD? ==> LineStart(whole, p.offset) || |whole| - p.offset < 9)
  }

  lemma StepCut(whole: bytes, end: nat, b: nat, p: Parser)
    requires p.offset < b <= |whole| && p.offset <= end && Poised(whole, p) && HarmlessCut(whole, end, b)
    ensures Step(whole[..b], p) == Step(whole, p)
  {
    if p.status.S_HEADER_FIELD? && Token(whole[p.offset]) == LETTER_C && |whole| - p.offset >= 9 {
      assert b - p.offset >= 9;
      assert Spells(whole[..b], p.offset, CONTENT_) == Spells(whole, p.offset, CONTENT_);
    }
  }

  lemma StepKeepsPoised(whole: bytes, p: Parser)
    requires p.offset < |whole| && Poised(whole, p) && Step(whole, p).verdict == CONTINUE
    ensures Poised(whole, Step(whole, p).p)
  {
  }

  /** Parsing a part of the stream and then the rest is parsing the stream. */
  lemma {:induction false} RunCut(whole: bytes, b: nat, p: Parser)
    requires p.offset <= b <= |whole| && Poised(whole, p)
    requires HarmlessCut(whole, Run(whole, p).p.offset, b)
    ensures var s := Run(whole[..b], p);
            if s.verdict == CONTINUE then Poised(whole, s.p) && Run(whole, p) == Run(whole, s.p)
            else Run(whole, p) == s
    decreases b - p.offset, MayStay(p.status)
  {
    RunUnroll(whole[..b], p);
    RunUnroll(whole, p);
    if p.offset < b {
      StepCut(whole, Run(whole, p).p.offset, b, p);
      var s := Step(whole, p);
      if s.verdict == CONTINUE {
        StepKeepsPoised(whole, p);
        RunCut(whole, b, s.p);
      }
    }
  }

  /** Append a chunk and parse, until the parser gives a verdict. */
  ghost function Feed(buf: bytes, p: Parser, chunks: seq<bytes>): Stepped
    requires p.offset <= |buf|
    decreases |chunks|
  {
    if chunks == [] then Stepped(CONTINUE, p)
    else
      var s := Run(buf + chunks[0], p);
      if s.verdict == CONTINUE then Feed(buf + chunks[0], s.p, chunks[1..]) else s
  }

  /** Every boundary behind the `b` bytes already there is harmless. */
  predicate HarmlessCuts(whole: bytes, end: nat, b: nat, chunks: seq<bytes>)
    decreases |chunks|
  {
    chunks == [] ||
    (HarmlessCut(whole, end, b + |chunks[0]|) && HarmlessCuts(whole, end, b + |chunks[0]|, chunks[1..]))
  }

  lemma {:induction false} FeedIsRun(whole: bytes, buf: bytes, p: Parser, chunks: seq<bytes>)
    requires whole == buf + Concat(chunks) && p.offset == |buf| && Poised(whole, p)
    requires HarmlessCuts(whole, Run(whole, p).p.offset, |buf|, chunks)
    ensures Feed(buf, p, chunks) == Run(whole, p)
    decreases |chunks|
  {
    if chunks != [] {
      var next := buf + chunks[0];
      Associate(buf, chunks[0], Concat(chunks[1..]));
      assert whole[..|next|] == next;
      RunCut(whole, |next|, p);
      var s := Run(next, p);
      if s.verdict == CONTINUE {
        FeedIsRun(whole, next, s.p, chunks[1..]);
      }
    }
  }

  /** The first verdict and every field of a request fed in pieces are those of the whole stream. */
  lemma Resumable(chunks: seq<bytes>)
    requires HarmlessCuts(Concat(chunks), Run(Concat(chunks), START).p.offset, 0, chunks)
    ensures Feed([], START, chunks) == Run(Concat(chunks), START)
  {
    assert [] + Concat(chunks) == Concat(chunks);
    FeedIsRun(Concat(chunks), [], START, chunks);
  }
}
