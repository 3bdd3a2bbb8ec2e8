/**
  The other branches of at_callback on response characters (network/wifi/at_parser.c): the
  prompt of a send, a full response buffer, a completed asynchronous literal, and lengths that
  do not fit.
 */
module AtResponses {
  import opened Machine
  import opened MessageMatcher
  import opened AtParser
  import opened AtDemultiplexer
  import opened DecimalText

  // ----- The prompt -----

  /** While a send waits, '>' ends the wait; it goes neither to the response nor to the async matchers. */
  lemma PromptStep(p: Parser, seen: seq<Byte>)
    requires Listening(p, seen) && p.mode == WaitingSend
    ensures p.ipdIdx < |IPD| ==> Step(p, 62) == p.(mode := ReadingResponses, ipdIdx := 0)
    ensures p.ipdIdx >= |IPD| ==>
              Step(p, 62) == p.(mode := ReadingResponses, ipdIdx := 0, ipdLen := 0, ipdStat := NotMatch)
    ensures Listening(Step(p, 62), seen)
  {
    hide AsyncAfter;
  }

  /** Text up to the prompt is kept, and the wait ends with the prompt. */
  lemma PromptRun(p: Parser, x: seq<Byte>, seen: seq<Byte>, t: seq<Byte>)
    requires Listening(p, seen) && p.mode == WaitingSend && p.ipdIdx == IdxAfter(IPD, x)
    requires !Occurs(IPD, x + t) && Quiet(seen + t) && |p.result| + |t| <= RESULT_BUFF_LEN && 62 !in t
    ensures Feed(p, t + [62]) == Showing(p, seen, t).(mode := ReadingResponses, ipdIdx := 0)
    ensures Listening(Feed(p, t + [62]), seen + t)
  {
    hide Step, Feed, Occurs, IdxAfter, Quiet, AsyncAfter;
    TextRun(p, x, seen, t);
    var q := Feed(p, t);
    LiteralsExact(IPD);
    NotComplete(IPD, x + t);
    FeedAppend(p, t, [62]);
    FeedOne(q, 62);
    PromptStep(q, seen + t);
  }

  /** So a send sees its prompt, and everything after it is demultiplexed as ever. */
  lemma DemultiplexAfterPrompt(p: Parser, seen: seq<Byte>, t: seq<Byte>, segs: seq<Seg>, tail: seq<Byte>)
    requires Listening(p, seen) && p.mode == WaitingSend && p.ipdIdx == 0 && p.ipdStat == NotMatch && p.ipdLen == 0
    requires !Occurs(IPD, t) && 62 !in t && |p.result| + |t| <= RESULT_BUFF_LEN
    requires Writable(p.conn, p.answers) && WellFormed(segs) && HeaderFree(segs, tail)
    requires Quiet(seen + t + Shown(segs, tail)) && Room(|p.result| + |t|, segs, tail)
    ensures var q := Feed(p, t + [62] + Encode(segs, tail));
            && !q.outside && q.overflow == p.overflow && q.target == Char && q.mode == ReadingResponses
            && q.result == p.result + t + Texts(segs, tail)
            && LinksOf(q) == DeliverAll(LinksOf(p), segs)
  {
    hide Feed, Occurs, IdxAfter, Quiet, Encode, Shown, Texts, Room, HeaderFree, DeliverAll, WellFormed, Writable,
      Wf, AsyncAfter;
    IdxAfterNothing(IPD);
    QuietPrefix(seen + t, Shown(segs, tail));
    assert [] + t == t;
    PromptRun(p, [], seen, t);
    var q := Feed(p, t + [62]);
    assert q.result == p.result + t && q.mode == ReadingResponses;
    Demultiplex(q, seen + t, segs, tail);
    FeedAppend(p, t + [62], Encode(segs, tail));
  }

  // ----- A full response buffer -----

  /** A character that finds the response buffer full empties it, is lost, and is recorded as an overflow. */
  lemma OverflowStep(p: Parser, seen: seq<Byte>, ch: Byte)
    requires Listening(p, seen) && |p.result| >= RESULT_BUFF_LEN && ch != 58 && NoPromptChar(p, ch)
    ensures var q := Step(p, ch);
            && q.result == [] && q.overflow && !q.outside
            && q == p.(result := [], overflow := true, ipdIdx := q.ipdIdx, ipdStat := q.ipdStat, ipdLen := q.ipdLen,
                       currentConn := q.currentConn)
            && Listening(q, seen)
  {
    hide AsyncAfter, Wf, WfRing, MatchStep;
    assert Wf(Step(p, ch));
    HeaderTouches(p, ch);
  }

  /** What the header recogniser may change without an announcement. */
  lemma HeaderTouches(p: Parser, ch: Byte)
    requires |p.conn| == 4 && ch != 58
    ensures var (q, payload) := IsPayload(p, ch);
            && !payload
            && q == p.(ipdIdx := q.ipdIdx, ipdStat := q.ipdStat, ipdLen := q.ipdLen, currentConn := q.currentConn)
  {
    hide MatchStep;
  }

  // ----- Asynchronous literals -----

  lemma FiresExactly(m: seq<Byte>, seen: seq<Byte>, ch: Byte)
    requires m != [] && FallbackExact(m) && !Occurs(m, seen)
    ensures IdxAfter(m, seen) < |m|
    ensures MatchStep(m, IdxAfter(m, seen), ch).1 <==> Occurs(m, seen + [ch])
  {
    hide FallbackExact, Occurs, IsLongestOverlap;
    assert (seen + [ch])[..|seen|] == seen;
    NotComplete(m, seen);
    MatcherExact(m, seen + [ch]);
    OccursExtends(m, seen + [ch], []);
    StepsTo(m, seen, ch);
    OccursLast(m, seen, ch);
  }

  lemma StepsTo(m: seq<Byte>, seen: seq<Byte>, ch: Byte)
    requires m != [] && IdxAfter(m, seen) < |m|
    ensures IdxAfter(m, seen + [ch]) == MatchStep(m, IdxAfter(m, seen), ch).0
    ensures MatchStep(m, IdxAfter(m, seen), ch).1 ==> IdxAfter(m, seen + [ch]) == |m|
    ensures IdxAfter(m, seen + [ch]) == |m| > 1 ==> MatchStep(m, IdxAfter(m, seen), ch).1
  {
    assert (seen + [ch])[..|seen|] == seen;
  }

  /** An occurrence that was not there before is at the end. */
  lemma OccursLast(m: seq<Byte>, seen: seq<Byte>, ch: Byte)
    requires m != [] && !Occurs(m, seen)
    ensures Occurs(m, seen + [ch]) <==> Overlap(m, seen + [ch], |m|)
  {
    hide Overlap;
    var t := seen + [ch];
    assert t[..|t|] == t;
    forall n: nat | n <= |seen|
      ensures t[..n] == seen[..n]
    {
    }
    if Occurs(m, t) {
      var n: nat :| n <= |t| && Overlap(m, t[..n], |m|);
      assert n == |t|;
    }
  }

  /** A text character leaves the modelled behaviour exactly when it completes an asynchronous literal. */
  lemma LiteralLeavesIff(p: Parser, seen: seq<Byte>, ch: Byte)
    requires Listening(p, seen) && Quiet(seen) && |p.result| < RESULT_BUFF_LEN && ch != 58 && NoPromptChar(p, ch)
    ensures Step(p, ch).outside <==> !Quiet(seen + [ch])
  {
    hide IsPayload, MatchStep, Occurs, IdxAfter, FallbackExact;
    LiteralsExact(CLOSED);
    LiteralsExact(WIFI_DISCONNECT);
    LiteralsExact(WIFI_GOT_IP);
    FiresExactly(CLOSED, seen, ch);
    FiresExactly(WIFI_DISCONNECT, seen, ch);
    FiresExactly(WIFI_GOT_IP, seen, ch);
    HeaderTouches(p, ch);
  }

  // ----- Lengths of any number of digits -----

  predicate AllDigits(d: seq<Byte>) {
    forall i :: 0 <= i < |d| ==> 48 <= d[i] <= 57
  }

  lemma WrapTimesTen(a: nat, b: nat)
    ensures Wrap32(Wrap32(a) * 10 + b) == Wrap32(a * 10 + b)
  {
    DivModSplit(a, U32);
    var q, e := a / U32, a % U32;
    DivModSplit(e * 10 + b, U32);
    DivModUnique(a * 10 + b, U32, q * 10 + (e * 10 + b) / U32, (e * 10 + b) % U32);
  }

  /** The length is the number read, modulo 2^32, and every digit counts towards what the colon takes back. */
  lemma {:induction false} LengthRun(p: Parser, seen: seq<Byte>, d: seq<Byte>, n: nat)
    requires Listening(p, seen) && p.ipdStat == ReadingLen && |IPD| <= p.ipdIdx && p.ipdIdx + |d| < 256
    requires AllDigits(d) && Quiet(seen + d) && |p.result| + |d| <= RESULT_BUFF_LEN && p.ipdLen == Wrap32(n)
    ensures Feed(p, d) ==
            Showing(p, seen, d).(ipdIdx := p.ipdIdx + |d|, ipdLen := Wrap32(ReadDigits(d, n).0))
    ensures Listening(Feed(p, d), seen + d)
    decreases |d|
  {
    hide Step, Wf, Occurs, IdxAfter, Quiet, AsyncAfter;
    if d == [] {
      assert seen + d == seen && p.result + d == p.result;
    } else {
      var ch, rest := d[0], d[1..];
      assert d == [ch] + rest && seen + d == seen + [ch] + rest;
      LengthStep(p, seen, ch, rest, n);
      var p1 := Step(p, ch);
      LengthRun(p1, seen + [ch], rest, n * 10 + (ch - 48));
      ShowingTwice(p, seen, [ch], rest);
    }
  }

  lemma LengthStep(p: Parser, seen: seq<Byte>, ch: Byte, rest: seq<Byte>, n: nat)
    requires Listening(p, seen) && p.ipdStat == ReadingLen && |IPD| <= p.ipdIdx < 255 && 48 <= ch <= 57
    requires Quiet(seen + [ch] + rest) && |p.result| < RESULT_BUFF_LEN && p.ipdLen == Wrap32(n)
    ensures Step(p, ch) ==
            Showing(p, seen, [ch]).(ipdIdx := p.ipdIdx + 1, ipdLen := Wrap32(n * 10 + (ch - 48)))
    ensures Listening(Step(p, ch), seen + [ch])
  {
    hide Wf, Occurs, IdxAfter, Quiet, AsyncAfter, Wrap32;
    WrapTimesTen(n, ch - 48);
    HeaderChar(p, seen, ch, rest, p.(ipdIdx := p.ipdIdx + 1, ipdLen := Wrap32(n * 10 + (ch - 48))));
  }

  /** The counter of header characters is a byte: the 256th starts it over, in the middle of the length. */
  lemma CounterWraps(p: Parser, ch: Byte)
    requires |p.conn| == 4 && p.ipdStat == ReadingLen && p.ipdIdx == 255 && 48 <= ch <= 57
    ensures IsPayload(p, ch).0.ipdIdx == 0 && IsPayload(p, ch).0.ipdStat == ReadingLen
  {
  }
}
