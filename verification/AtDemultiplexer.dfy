/**
  Demultiplexing: on every stream of response text and payload frames the byte-level
  parser does what a frame-level interpreter does, whatever chunks the rings impose.
 */
module AtDemultiplexer {
  import opened Machine
  import opened DecimalText
  import opened MessageMatcher
  import opened AtParser
  import CB = CircularBuffer

  /** Response text followed by one payload frame. */
  datatype Seg = Seg(text: seq<Byte>, conn: nat, payload: seq<Byte>)

  /** The frame header up to, and without, its colon. */
  function Header(c: nat, n: nat): seq<Byte>
    requires c <= 4
  {
    IPD + [48 + c, 44] + Decimal(n)
  }

  predicate WellFormed(segs: seq<Seg>) {
    forall i :: 0 <= i < |segs| ==> segs[i].conn < 4 && 0 < |segs[i].payload| < U32
  }

  /** The bytes on the UART. */
  function Encode(segs: seq<Seg>, tail: seq<Byte>): seq<Byte>
    requires WellFormed(segs)
  {
    if segs == [] then tail
    else
      var s := segs[0];
      s.text + (Header(s.conn, |s.payload|) + ([58] + (s.payload + Encode(segs[1..], tail))))
  }

  /** The stream with all frames deleted. */
  function Texts(segs: seq<Seg>, tail: seq<Byte>): seq<Byte> {
    if segs == [] then tail else segs[0].text + Texts(segs[1..], tail)
  }

  /** What passes through the response path: text and headers, without colons and payload. */
  function Shown(segs: seq<Seg>, tail: seq<Byte>): seq<Byte>
    requires WellFormed(segs)
  {
    if segs == [] then tail
    else segs[0].text + Header(segs[0].conn, |segs[0].payload|) + Shown(segs[1..], tail)
  }

  /** No text contains the frame header. */
  ghost predicate HeaderFree(segs: seq<Seg>, tail: seq<Byte>) {
    !Occurs(IPD, tail) && forall i :: 0 <= i < |segs| ==> !Occurs(IPD, segs[i].text)
  }

  /** None of the asynchronous literals occurs. */
  ghost predicate Quiet(s: seq<Byte>) {
    !Occurs(CLOSED, s) && !Occurs(WIFI_DISCONNECT, s) && !Occurs(WIFI_GOT_IP, s)
  }

  /** The response buffer, holding n bytes now, never fills up. */
  predicate Room(n: nat, segs: seq<Seg>, tail: seq<Byte>)
    requires WellFormed(segs)
    decreases |segs|
  {
    if segs == [] then n + |tail| <= RESULT_BUFF_LEN
    else
      && n + |segs[0].text| + |Header(segs[0].conn, |segs[0].payload|)| <= RESULT_BUFF_LEN
      && Room(n + |segs[0].text|, segs[1..], tail)
  }

  /** While a send waits for its prompt, the text up to the next frame has no '>'. */
  predicate NoPrompt(mode: Mode, segs: seq<Seg>, tail: seq<Byte>) {
    mode == WaitingSend ==> 62 !in (if segs == [] then tail else segs[0].text)
  }

  // ----- The frame-level interpreter -----

  predicate WritableRing(r: Option<Ring>) {
    r.Some? ==> CB.Wf(r.value) && !r.value.write.started
  }

  predicate Writable(conn: seq<Conn>, answers: seq<Option<Ring>>) {
    && (forall i :: 0 <= i < |conn| ==> WritableRing(conn[i].cbuff))
    && (forall i :: 0 <= i < |answers| ==> WritableRing(answers[i]))
  }

  datatype Links = Links(conn: seq<Conn>, answers: seq<Option<Ring>>)

  /** A frame on an inactive connection first asks the application for a ring. */
  function Attached(k: Links, c: nat): (k': Links)
    requires c < |k.conn| == 4 && Writable(k.conn, k.answers)
    ensures |k'.conn| == 4 && Writable(k'.conn, k'.answers)
  {
    if k.conn[c].active then k
    else
      var answer := if k.answers == [] then None else k.answers[0];
      Links(k.conn[c := k.conn[c].(cbuff := answer, active := answer.Some?)],
            if k.answers == [] then [] else k.answers[1..])
  }

  /** The whole payload is written to the connection's ring, or dropped if there is none. */
  function Deliver(k: Links, c: nat, payload: seq<Byte>): (k': Links)
    requires c < |k.conn| == 4 && Writable(k.conn, k.answers)
    ensures |k'.conn| == 4 && Writable(k'.conn, k'.answers)
  {
    var k1 := Attached(k, c);
    var r := k1.conn[c].cbuff;
    var r' := if r.Some? then Some(CB.WriteAll(r.value, payload)) else None;
    k1.(conn := k1.conn[c := k1.conn[c].(cbuff := r', toRead := 0)])
  }

  function DeliverAll(k: Links, segs: seq<Seg>): (k': Links)
    requires |k.conn| == 4 && Writable(k.conn, k.answers) && WellFormed(segs)
    ensures |k'.conn| == 4 && Writable(k'.conn, k'.answers)
    decreases |segs|
  {
    if segs == [] then k
    else DeliverAll(Deliver(k, segs[0].conn, segs[0].payload), segs[1..])
  }

  // ----- Response characters -----

  function AsyncAfter(seen: seq<Byte>): seq<nat> {
    [IdxAfter(CLOSED, seen), IdxAfter(WIFI_DISCONNECT, seen), IdxAfter(WIFI_GOT_IP, seen)]
  }

  lemma NotComplete(m: seq<Byte>, seen: seq<Byte>)
    requires m != [] && FallbackExact(m) && !Occurs(m, seen)
    ensures Fresh(m, seen) && IdxAfter(m, seen) < |m|
  {
    hide FallbackExact, Occurs, Overlap, IsLongestOverlap;
    OccursExtends(m, seen, []);
    if seen != [] {
      var n := |seen| - 1;
      OccursExtends(m, seen[..n], [seen[n]]);
      assert seen[..n] + [seen[n]] == seen;
    }
    MatcherExact(m, seen);
  }

  lemma NoFire(m: seq<Byte>, seen: seq<Byte>, ch: Byte)
    requires m != [] && FallbackExact(m) && !Occurs(m, seen + [ch])
    ensures IdxAfter(m, seen) < |m|
    ensures MatchStep(m, IdxAfter(m, seen), ch) == (IdxAfter(m, seen + [ch]), false)
  {
    hide FallbackExact, Occurs;
    assert (seen + [ch])[..|seen|] == seen;
    OccursExtends(m, seen, [ch]);
    NotComplete(m, seen);
    NotComplete(m, seen + [ch]);
  }

  lemma AsyncNoFire(seen: seq<Byte>, ch: Byte)
    requires Quiet(seen + [ch])
    ensures IdxAfter(CLOSED, seen) < |CLOSED|
    ensures IdxAfter(WIFI_DISCONNECT, seen) < |WIFI_DISCONNECT|
    ensures IdxAfter(WIFI_GOT_IP, seen) < |WIFI_GOT_IP|
    ensures MatchStep(CLOSED, IdxAfter(CLOSED, seen), ch) == (IdxAfter(CLOSED, seen + [ch]), false)
    ensures MatchStep(WIFI_DISCONNECT, IdxAfter(WIFI_DISCONNECT, seen), ch)
         == (IdxAfter(WIFI_DISCONNECT, seen + [ch]), false)
    ensures MatchStep(WIFI_GOT_IP, IdxAfter(WIFI_GOT_IP, seen), ch) == (IdxAfter(WIFI_GOT_IP, seen + [ch]), false)
  {
    hide FallbackExact, IdxAfter, MatchStep, Occurs;
    LiteralsExact(CLOSED);
    LiteralsExact(WIFI_DISCONNECT);
    LiteralsExact(WIFI_GOT_IP);
    NoFire(CLOSED, seen, ch);
    NoFire(WIFI_DISCONNECT, seen, ch);
    NoFire(WIFI_GOT_IP, seen, ch);
  }

  /** The parser is between requests on the response path, having shown `seen` to the async matchers. */
  ghost predicate Listening(p: Parser, seen: seq<Byte>) {
    && Wf(p) && |p.conn| == 4 && !p.outside && p.mode != ReadingPayload && p.target == Char
    && p.asyncIdx == AsyncAfter(seen)
  }

  predicate NoPromptChar(p: Parser, ch: Byte) {
    !(ch == 62 && p.mode == WaitingSend)
  }

  /** A character that announces no payload and completes no literal goes to the response buffer. */
  lemma PlainChar(p: Parser, seen: seq<Byte>, ch: Byte, p1: Parser)
    requires Listening(p, seen) && Quiet(seen + [ch]) && |p.result| < RESULT_BUFF_LEN && NoPromptChar(p, ch)
    requires IsPayload(p, ch) == (p1, false) && !p1.outside
    requires p1.asyncIdx == p.asyncIdx && p1.result == p.result && p1.mode == p.mode
    ensures Step(p, ch) == p1.(asyncIdx := AsyncAfter(seen + [ch]), result := p.result + [ch])
    ensures Listening(Step(p, ch), seen + [ch])
  {
    hide IsPayload, Occurs, IdxAfter, MatchStep, Quiet;
    AsyncNoFire(seen, ch);
  }

  lemma QuietPrefix(a: seq<Byte>, b: seq<Byte>)
    requires Quiet(a + b)
    ensures Quiet(a)
  {
    OccursExtends(CLOSED, a, b);
    OccursExtends(WIFI_DISCONNECT, a, b);
    OccursExtends(WIFI_GOT_IP, a, b);
  }

  /** The state after text `t` has gone to the response buffer. */
  ghost function Showing(p: Parser, seen: seq<Byte>, t: seq<Byte>): Parser {
    p.(asyncIdx := AsyncAfter(seen + t), result := p.result + t)
  }

  lemma ShowingTwice(p: Parser, seen: seq<Byte>, a: seq<Byte>, b: seq<Byte>)
    ensures Showing(Showing(p, seen, a), seen + a, b) == Showing(p, seen, a + b)
  {
    assert seen + a + b == seen + (a + b);
    assert p.result + a + b == p.result + (a + b);
  }

  /** Response text of any length, free of the header and of the literals, is kept whole. */
  lemma {:induction false} TextRun(p: Parser, x: seq<Byte>, seen: seq<Byte>, t: seq<Byte>)
    requires Listening(p, seen) && p.ipdIdx == IdxAfter(IPD, x)
    requires !Occurs(IPD, x + t) && Quiet(seen + t) && |p.result| + |t| <= RESULT_BUFF_LEN
    requires p.mode == WaitingSend ==> 62 !in t
    ensures Feed(p, t) == Showing(p, seen, t).(ipdIdx := IdxAfter(IPD, x + t))
    ensures Listening(Feed(p, t), seen + t)
    decreases |t|
  {
    hide Step, Wf, Occurs, IdxAfter, Quiet, AsyncAfter;
    if t == [] {
      assert x + t == x && seen + t == seen && p.result + t == p.result;
    } else {
      var ch, rest := t[0], t[1..];
      assert t == [ch] + rest;
      assert x + [ch] + rest == x + t && seen + [ch] + rest == seen + t;
      TextChar(p, x, seen, ch, rest);
      var p1 := Step(p, ch);
      TextRun(p1, x + [ch], seen + [ch], rest);
      ShowingTwice(p, seen, [ch], rest);
    }
  }

  lemma TextChar(p: Parser, x: seq<Byte>, seen: seq<Byte>, ch: Byte, rest: seq<Byte>)
    requires Listening(p, seen) && p.ipdIdx == IdxAfter(IPD, x)
    requires !Occurs(IPD, x + [ch] + rest) && Quiet(seen + [ch] + rest) && |p.result| < RESULT_BUFF_LEN
    requires NoPromptChar(p, ch)
    ensures Step(p, ch) == Showing(p, seen, [ch]).(ipdIdx := IdxAfter(IPD, x + [ch]))
    ensures Listening(Step(p, ch), seen + [ch])
  {
    QuietPrefix(seen + [ch], rest);
    OccursExtends(IPD, x + [ch], rest);
    LiteralsExact(IPD);
    NoFire(IPD, x, ch);
    PlainChar(p, seen, ch, p.(ipdIdx := IdxAfter(IPD, x + [ch])));
  }

  // ----- The frame header -----

  /** A character the header recogniser takes, given the state it leaves. */
  lemma HeaderChar(p: Parser, seen: seq<Byte>, ch: Byte, rest: seq<Byte>, p1: Parser)
    requires Listening(p, seen) && Quiet(seen + [ch] + rest) && |p.result| < RESULT_BUFF_LEN && ch != 62
    requires IsPayload(p, ch) == (p1, false)
    requires p == p1.(ipdIdx := p.ipdIdx, ipdStat := p.ipdStat, ipdLen := p.ipdLen, currentConn := p.currentConn)
    ensures Step(p, ch) == Showing(p1, seen, [ch]) && Listening(Step(p, ch), seen + [ch])
  {
    QuietPrefix(seen + [ch], rest);
    PlainChar(p, seen, ch, p1);
  }

  lemma FeedOne(p: Parser, ch: Byte)
    requires Wf(p)
    ensures Feed(p, [ch]) == Step(p, ch)
  {
    hide Step, Wf;
    assert [ch][1..] == [];
  }

  lemma LiteralStep(q: Parser, k: nat)
    requires |q.conn| == 4 && q.ipdIdx < |IPD| && q.ipdStat == NotMatch
    requires 1 <= k <= |IPD| && (k == 1 || q.ipdIdx == k - 1)
    ensures IsPayload(q, IPD[k - 1]) == (q.(ipdIdx := k, ipdStat := if k == 7 then ReadingConn else NotMatch), false)
  {
  }

  /** The literal is recognised from any matcher state, because its first byte does not recur. */
  lemma {:induction false} LiteralRun(p: Parser, seen: seq<Byte>, k: nat)
    requires Listening(p, seen) && p.ipdIdx < |IPD| && p.ipdStat == NotMatch
    requires 1 <= k <= |IPD| && Quiet(seen + IPD) && |p.result| + |IPD| <= RESULT_BUFF_LEN
    ensures Feed(p, IPD[..k]) ==
            Showing(p, seen, IPD[..k]).(ipdIdx := k, ipdStat := if k == 7 then ReadingConn else NotMatch)
    ensures Listening(Feed(p, IPD[..k]), seen + IPD[..k])
  {
    hide IsPayload, Step, Wf, Quiet, AsyncAfter;
    var ch := IPD[k - 1];
    var before := IPD[..k - 1];
    assert IPD[..k] == before + [ch];
    assert seen + before + [ch] + IPD[k..] == seen + IPD;
    FeedAppend(p, before, [ch]);
    var q := Feed(p, before);
    FeedOne(q, ch);
    if k == 1 {
      assert q == p && seen + before == seen;
    } else {
      LiteralRun(p, seen, k - 1);
    }
    LiteralStep(q, k);
    HeaderChar(q, seen + before, ch, IPD[k..], q.(ipdIdx := k, ipdStat := if k == 7 then ReadingConn else NotMatch));
    ShowingTwice(p, seen, before, [ch]);
  }

  /** The connection id and the comma after the literal. */
  lemma IdRun(p: Parser, seen: seq<Byte>, c: nat)
    requires Listening(p, seen) && p.ipdIdx == 7 && p.ipdStat == ReadingConn
    requires c <= 4 && Quiet(seen + [48 + c, 44]) && |p.result| + 2 <= RESULT_BUFF_LEN
    ensures Feed(p, [48 + c, 44]) ==
            Showing(p, seen, [48 + c, 44]).(ipdIdx := 9, ipdStat := ReadingLen, currentConn := c)
    ensures Listening(Feed(p, [48 + c, 44]), seen + [48 + c, 44])
  {
    hide Step, Wf, Quiet, AsyncAfter;
    var a, b: seq<Byte> := [48 + c], [44];
    assert [48 + c, 44] == a + b && seen + a + b == seen + [48 + c, 44] && seen + a + b + [] == seen + a + b;
    var p1 := p.(ipdIdx := 8, ipdStat := WaitingComma, currentConn := c);
    HeaderChar(p, seen, 48 + c, b, p1);
    var q := Showing(p1, seen, a);
    HeaderChar(q, seen + a, 44, [], q.(ipdIdx := 9, ipdStat := ReadingLen));
    FeedAppend(p, a, b);
    FeedOne(p, 48 + c);
    FeedOne(q, 44);
    ShowingTwice(p, seen, a, b);
  }

  /** The decimal digits rebuild the length. */
  lemma {:induction false} DigitsRun(p: Parser, seen: seq<Byte>, n: nat)
    requires Listening(p, seen) && p.ipdIdx == 9 && p.ipdStat == ReadingLen && p.ipdLen == 0
    requires n < U32 && |Decimal(n)| <= 10
    requires Quiet(seen + Decimal(n)) && |p.result| + |Decimal(n)| <= RESULT_BUFF_LEN
    ensures Feed(p, Decimal(n)) == Showing(p, seen, Decimal(n)).(ipdIdx := 9 + |Decimal(n)|, ipdLen := n)
    ensures Listening(Feed(p, Decimal(n)), seen + Decimal(n))
  {
    hide IsPayload, Step, Wf, Quiet, AsyncAfter;
    if n < 10 {
      assert seen + Decimal(n) + [] == seen + [48 + n] + [] == seen + [48 + n];
      DigitStep(p, 48 + n);
      HeaderChar(p, seen, 48 + n, [], p.(ipdLen := n, ipdIdx := 10));
      FeedOne(p, 48 + n);
    } else {
      var d, last := Decimal(n / 10), 48 + n % 10;
      assert Decimal(n) == d + [last];
      assert seen + d + [last] == seen + Decimal(n) && seen + d + [last] + [] == seen + d + [last];
      QuietPrefix(seen + d, [last]);
      DigitsRun(p, seen, n / 10);
      var q := Feed(p, d);
      DigitStep(q, last);
      HeaderChar(q, seen + d, last, [], q.(ipdLen := n, ipdIdx := 9 + |d| + 1));
      FeedAppend(p, d, [last]);
      FeedOne(q, last);
      ShowingTwice(p, seen, d, [last]);
    }
  }

  lemma DigitStep(q: Parser, ch: Byte)
    requires |q.conn| == 4 && 9 <= q.ipdIdx < 20 && q.ipdStat == ReadingLen && 48 <= ch <= 57
    requires q.ipdLen * 10 + (ch - 48) < U32
    ensures IsPayload(q, ch) == (q.(ipdLen := q.ipdLen * 10 + (ch - 48), ipdIdx := q.ipdIdx + 1), false)
  {
  }

  lemma HeaderRun(p: Parser, seen: seq<Byte>, c: nat, n: nat)
    requires Listening(p, seen) && p.ipdIdx < |IPD| && p.ipdStat == NotMatch && p.ipdLen == 0
    requires c <= 4 && n < U32
    requires Quiet(seen + Header(c, n)) && |p.result| + |Header(c, n)| <= RESULT_BUFF_LEN
    ensures 9 < |Header(c, n)| <= 19
    ensures Feed(p, Header(c, n)) == Showing(p, seen, Header(c, n)).(
              ipdIdx := |Header(c, n)|, ipdStat := ReadingLen, ipdLen := n, currentConn := c)
    ensures Listening(Feed(p, Header(c, n)), seen + Header(c, n))
  {
    hide Step, Wf, Quiet, AsyncAfter, IsPayload, Feed, Decimal;
    DecimalShort(n);
    var id: seq<Byte> := [48 + c, 44];
    var digits := Decimal(n);
    assert seen + IPD + id + digits == seen + Header(c, n);
    QuietPrefix(seen + IPD + id, digits);
    QuietPrefix(seen + IPD, id);
    assert IPD[..7] == IPD;
    LiteralRun(p, seen, 7);
    var p1 := Feed(p, IPD);
    IdRun(p1, seen + IPD, c);
    var p2 := Feed(p1, id);
    DigitsRun(p2, seen + IPD + id, n);
    FeedAppend(p, IPD, id);
    FeedAppend(p, IPD + id, digits);
    ShowingTwice(p, seen, IPD, id);
    assert seen + IPD + id == seen + (IPD + id);
    ShowingTwice(p, seen, IPD + id, digits);
  }

  /** The state the colon leaves: the header is off the response buffer, the payload is due. */
  ghost function Announced(p: Parser, seen: seq<Byte>, c: nat, n: nat): Parser
    requires |p.conn| == 4 && c < 4
  {
    p.(conn := p.conn[c := p.conn[c].(toRead := n)], currentConn := c, mode := ReadingPayload,
       asyncIdx := AsyncAfter(seen), ipdIdx := 0, ipdStat := NotMatch, ipdLen := 0)
  }

  lemma ColonRun(p: Parser, seen: seq<Byte>, c: nat, n: nat)
    requires Listening(p, seen) && p.ipdIdx < |IPD| && p.ipdStat == NotMatch && p.ipdLen == 0
    requires c < 4 && 0 < n < U32
    requires Quiet(seen + Header(c, n)) && |p.result| + |Header(c, n)| <= RESULT_BUFF_LEN
    ensures Wf(Announced(p, seen + Header(c, n), c, n))
    ensures Feed(p, Header(c, n) + [58]) == StartConnRead(Announced(p, seen + Header(c, n), c, n), true)
  {
    hide Quiet, AsyncAfter, Feed, Decimal, MatchStep, Header, StartConnRead;
    var h := Header(c, n);
    HeaderRun(p, seen, c, n);
    FeedAppend(p, h, [58]);
    var q := Feed(p, h);
    FeedOne(q, 58);
    assert q.result[..|q.result| - |h|] == p.result;
  }

  /** The header accepts the id 4, for which there is no connection: the colon leaves the table. */
  lemma FrameInTableIff(p: Parser, seen: seq<Byte>, c: nat, n: nat)
    requires Listening(p, seen) && p.ipdIdx < |IPD| && p.ipdStat == NotMatch && p.ipdLen == 0
    requires c <= 4 && 0 < n < U32 && Writable(p.conn, p.answers)
    requires Quiet(seen + Header(c, n)) && |p.result| + |Header(c, n)| <= RESULT_BUFF_LEN
    ensures !Feed(p, Header(c, n) + [58]).outside <==> c < 4
  {
    hide Quiet, AsyncAfter, Feed, Decimal, MatchStep, Header;
    if c < 4 {
      ColonRun(p, seen, c, n);
    } else {
      var h := Header(c, n);
      HeaderRun(p, seen, c, n);
      FeedAppend(p, h, [58]);
      FeedOne(Feed(p, h), 58);
    }
  }

  lemma FirstByteMissing(m: seq<Byte>, s: seq<Byte>)
    requires m != [] && m[0] !in s
    ensures !Occurs(m, s)
  {
    forall n: nat | |m| <= n <= |s|
      ensures !Overlap(m, s[..n], |m|)
    {
      assert m[..|m|][0] != s[..n][n - |m|..][0];
    }
  }

  /** The parser as at_init leaves it. */
  function Initial(): Parser {
    var conn := seq(4, _ => Conn(None, 0, false));
    Parser(conn, -1, ReadingResponses, [], false, [0, 0, 0], 0, NotMatch, 0, Char, [], false)
  }

  /** The first frame of a session, announced for id 4. */
  lemma IdFourLeavesTable(n: nat)
    requires 0 < n < U32
    ensures Wf(Initial()) && Feed(Initial(), Header(4, n) + [58]).outside
  {
    hide Feed, Decimal;
    var h := Header(4, n);
    assert [] + h == h;
    FirstByteMissing(CLOSED, h);
    FirstByteMissing(WIFI_DISCONNECT, h);
    FirstByteMissing(WIFI_GOT_IP, h);
    DecimalShort(n);
    FrameInTableIff(Initial(), [], 4, n);
  }

  /**
    A payload read leaves the model exactly when the connection's ring is busy: the C code tests
    an unsigned result for being negative, and goes on with a region it was not given.
   */
  lemma BusyRingIff(p: Parser)
    requires Wf(p) && !p.outside && p.mode == ReadingPayload && p.target == Char && p.conn[p.currentConn].toRead > 0
    ensures StartConnRead(p, false).outside <==>
            p.conn[p.currentConn].cbuff.Some? && p.conn[p.currentConn].cbuff.value.write.started
  {
    hide CB.Wf;
  }

  /** The first frame of a session, on a connection for which the application hands out a busy ring. */
  lemma BusyRingMet(ring: Ring, n: nat)
    requires 0 < n < U32 && CB.Wf(ring) && ring.write.started
    ensures var p := Initial().(answers := [Some(ring)]);
            Wf(p) && Feed(p, Header(0, n) + [58]).outside
  {
    hide Feed, Decimal, CB.Wf;
    var p, h := Initial().(answers := [Some(ring)]), Header(0, n);
    assert [] + h == h;
    FirstByteMissing(CLOSED, h);
    FirstByteMissing(WIFI_DISCONNECT, h);
    FirstByteMissing(WIFI_GOT_IP, h);
    DecimalShort(n);
    ColonRun(p, [], 0, n);
  }

  /** What ends a header that has started: a wrong id, no comma, no digit, or a length of zero. */
  predicate Malformed(p: Parser, ch: Byte) {
    match p.ipdStat
    case ReadingConn => !(48 <= ch <= 52)
    case WaitingComma => ch != 44
    case ReadingLen => !(48 <= ch <= 57) && !(ch == 58 && p.ipdLen > 0)
    case NotMatch => true
  }

  /** A malformed header stays in the response text, and recognition starts afresh after it. */
  lemma MalformedKept(p: Parser, seen: seq<Byte>, ch: Byte)
    requires Listening(p, seen) && p.ipdIdx >= |IPD| && Malformed(p, ch)
    requires Quiet(seen + [ch]) && |p.result| < RESULT_BUFF_LEN && NoPromptChar(p, ch)
    ensures Step(p, ch) == Showing(ResetIpd(p), seen, [ch]) && Listening(Step(p, ch), seen + [ch])
  {
    hide Quiet, AsyncAfter;
    PlainChar(p, seen, ch, ResetIpd(p));
  }

  // ----- Capacity -----

  lemma PayloadKeepsText(p: Parser)
    requires Wf(p) && p.mode == ReadingPayload && p.target == Char
    ensures StartConnRead(p, true).result == p.result && PayloadDone(p).result == p.result
  {
    hide Wf, CB.Wf, CB.PrepareWrite, CB.EndWrite;
  }

  lemma HeaderShrinksText(p: Parser, ch: Byte)
    requires |p.conn| == 4
    ensures |IsPayload(p, ch).0.result| <= |p.result|
  {
    hide Wf, MatchStep;
  }

  lemma ResponseBounded(p: Parser, ch: Byte)
    requires Wf(p) && p.mode != ReadingPayload && p.target == Char && |p.result| <= RESULT_BUFF_LEN
    ensures |ResponseChar(p, ch).result| <= RESULT_BUFF_LEN
  {
    hide IsPayload, StartConnRead, PayloadDone, MatchStep, CB.Wf, WfRing;
    HeaderShrinksText(p, ch);
    var (p1, payload) := IsPayload(p, ch);
    if payload && !p1.outside {
      PayloadKeepsText(p1.(mode := ReadingPayload));
    }
  }

  lemma StepBounded(p: Parser, b: Byte)
    requires Wf(p) && |p.result| <= 500
    ensures |Step(p, b).result| <= 500
  {
    hide PayloadDone, ResponseChar, StartConnRead;
    if p.outside {
    } else if p.target.Chunk? {
      var t, c := p.target, p.currentConn;
      var ring := CB.Store(p.conn[c].cbuff.value, t.start + t.got, [b]);
      var p1 := p.(conn := p.conn[c := p.conn[c].(cbuff := Some(ring))]);
      if t.got + 1 == t.len {
        PayloadKeepsText(p1.(target := Char));
      }
    } else if p.mode == ReadingPayload {
      PayloadKeepsText(p);
    } else {
      ResponseBounded(p, b);
    }
  }

  lemma {:induction false} FeedBounded(p: Parser, t: seq<Byte>)
    requires Wf(p) && |p.result| <= RESULT_BUFF_LEN
    ensures |Feed(p, t).result| <= RESULT_BUFF_LEN
    decreases |t|
  {
    hide Step, Wf;
    if t != [] {
      StepBounded(p, t[0]);
      FeedBounded(Step(p, t[0]), t[1..]);
    }
  }

  /** Text without headers and literals is kept whole exactly when the response buffer has room for it. */
  lemma TextKeptIff(p: Parser, x: seq<Byte>, seen: seq<Byte>, t: seq<Byte>)
    requires Listening(p, seen) && p.ipdIdx == IdxAfter(IPD, x) && |p.result| <= RESULT_BUFF_LEN
    requires !Occurs(IPD, x + t) && Quiet(seen + t) && (p.mode == WaitingSend ==> 62 !in t)
    ensures Feed(p, t).result == p.result + t <==> |p.result| + |t| <= 500
  {
    hide Feed, Step, Occurs, Quiet, IdxAfter, AsyncAfter;
    if |p.result| + |t| <= RESULT_BUFF_LEN {
      TextRun(p, x, seen, t);
    } else {
      FeedBounded(p, t);
    }
  }

  // ----- Payload -----

  ghost function WithRing(p: Parser, c: nat, r: Ring): Parser
    requires c < |p.conn|
  {
    p.(conn := p.conn[c := p.conn[c].(cbuff := Some(r))])
  }

  /** A raw region is being filled. */
  ghost predicate Filling(p: Parser) {
    Wf(p) && !p.outside && p.target.Chunk?
  }

  ghost function CurrentRing(p: Parser): Ring
    requires Filling(p)
  {
    p.conn[p.currentConn].cbuff.value
  }

  /** The state in which the last bytes `d` of the region have arrived. */
  ghost function Filled(p: Parser, d: seq<Byte>): (q: Parser)
    requires Filling(p) && |d| <= p.target.len - p.target.got
    ensures Wf(q) && q.mode == ReadingPayload && q.target == Char
  {
    WithRing(p, p.currentConn, CB.Store(CurrentRing(p), p.target.start + p.target.got, d)).(target := Char)
  }

  lemma StoreTwice(r: Ring, at: nat, d: seq<Byte>)
    requires d != [] && at + |d| <= |r.buff|
    ensures CB.Store(CB.Store(r, at, [d[0]]), at + 1, d[1..]) == CB.Store(r, at, d)
  {
  }

  lemma FillByte(p: Parser, d: seq<Byte>)
    requires Filling(p) && 1 < |d| <= p.target.len - p.target.got
    ensures Filling(Step(p, d[0]))
    ensures Step(p, d[0]).target == p.target.(got := p.target.got + 1)
    ensures Filled(Step(p, d[0]), d[1..]) == Filled(p, d)
  {
    hide PayloadDone, ResponseChar;
    StoreTwice(CurrentRing(p), p.target.start + p.target.got, d);
  }

  lemma {:induction false} ChunkRun(p: Parser, d: seq<Byte>)
    requires Filling(p) && 0 < |d| == p.target.len - p.target.got
    ensures Feed(p, d) == PayloadDone(Filled(p, d))
    decreases |d|
  {
    if |d| == 1 {
      assert d == [d[0]];
      FeedOne(p, d[0]);
      LastByte(p, d);
    } else {
      FillByte(p, d);
      ChunkRun(Step(p, d[0]), d[1..]);
      FeedFirst(p, d);
    }
  }

  lemma FeedFirst(p: Parser, d: seq<Byte>)
    requires Wf(p) && d != []
    ensures Feed(p, d) == Feed(Step(p, d[0]), d[1..])
  {
    hide Step, Wf;
  }

  lemma LastByte(p: Parser, d: seq<Byte>)
    requires Filling(p) && |d| == 1 == p.target.len - p.target.got
    ensures Step(p, d[0]) == PayloadDone(Filled(p, d))
  {
    hide PayloadDone, ResponseChar;
    assert d == [d[0]];
  }

  /** A payload of n bytes is due on the current connection, between two requests. */
  ghost predicate Due(q: Parser, n: nat) {
    && Wf(q) && !q.outside && q.mode == ReadingPayload && q.target == Char
    && q.conn[q.currentConn].toRead == n && WritableRing(q.conn[q.currentConn].cbuff)
  }

  /** The payload has gone to the ring, if there is one, and the parser is back on responses. */
  ghost function Finished(q: Parser, data: seq<Byte>): Parser
    requires Due(q, |data|)
  {
    var c := q.currentConn;
    var r := q.conn[c].cbuff;
    var r' := if r.Some? then Some(CB.WriteAll(r.value, data)) else None;
    q.(conn := q.conn[c := q.conn[c].(cbuff := r', toRead := 0)], mode := ReadingResponses, currentConn := -1)
  }

  /** Without a ring the payload is consumed byte by byte, to the exact byte. */
  lemma {:induction false} DiscardRun(q: Parser, data: seq<Byte>)
    requires Due(q, |data|) && data != [] && q.conn[q.currentConn].cbuff.None?
    ensures Feed(StartConnRead(q, false), data) == Finished(q, data)
    decreases |data|
  {
    var s := StartConnRead(q, false);
    FeedFirst(s, data);
    var c := q.currentConn;
    if |data| > 1 {
      var q1 := q.(conn := q.conn[c := q.conn[c].(toRead := |data| - 1)]);
      assert Step(s, data[0]) == StartConnRead(q1, false);
      DiscardRun(q1, data[1..]);
    }
  }

  /** One turn of the chunk loop of cb_operation, as the parser goes through it. */
  ghost function ChunkLen(r: Ring, n: nat): nat
    requires CB.Wf(r)
  {
    CB.PrepareWrite(r, n).len
  }

  ghost function AfterChunk(r: Ring, data: seq<Byte>): (r': Ring)
    requires CB.Wf(r) && !r.write.started
    ensures CB.Wf(r') && !r'.write.started
  {
    var prep := CB.PrepareWrite(r, |data|);
    CB.EndWrite(CB.Store(prep.ring, prep.start, data[..prep.len])).0
  }

  lemma WriteAllTurn(r: Ring, data: seq<Byte>)
    requires CB.Wf(r) && !r.write.started && data != []
    ensures 0 < ChunkLen(r, |data|) <= |data|
    ensures CB.WriteAll(r, data) == CB.WriteAll(AfterChunk(r, data), data[ChunkLen(r, |data|)..])
  {
  }

  /** The parser between two chunks: the ring advanced, the rest still due. */
  ghost function NextDue(q: Parser, data: seq<Byte>): Parser
    requires Due(q, |data|) && q.conn[q.currentConn].cbuff.Some?
  {
    var c := q.currentConn;
    var r := q.conn[c].cbuff.value;
    q.(conn := q.conn[c := q.conn[c].(cbuff := Some(AfterChunk(r, data)), toRead := |data| - ChunkLen(r, |data|))])
  }

  lemma ChunkStart(q: Parser, data: seq<Byte>)
    requires Due(q, |data|) && data != [] && q.conn[q.currentConn].cbuff.Some?
    ensures var r := q.conn[q.currentConn].cbuff.value;
            var n := ChunkLen(r, |data|);
            var s := StartConnRead(q, false);
            && 0 < n <= |data| && Filling(s) && s.target.len == n && s.target.got == 0
            && Due(NextDue(q, data), |data| - n)
            && PayloadDone(Filled(s, data[..n])) == (
                 if n == |data| then NextDue(q, data).(mode := ReadingResponses, currentConn := -1)
                 else StartConnRead(NextDue(q, data), false))
  {
    hide CB.EndPtr;
    var c := q.currentConn;
    var r := q.conn[c].cbuff.value;
    var prep := CB.PrepareWrite(r, |data|);
    var s := StartConnRead(q, false);
    assert s == q.(conn := q.conn[c := q.conn[c].(cbuff := Some(prep.ring), toRead := |data| - prep.len)],
                   target := Chunk(prep.start, prep.len, 0));
    var f := Filled(s, data[..prep.len]);
    assert f.conn[c].cbuff == Some(CB.Store(prep.ring, prep.start, data[..prep.len]));
    assert f.conn[c := f.conn[c].(cbuff := Some(AfterChunk(r, data)))] == NextDue(q, data).conn;
  }

  /** With a ring the payload is written exactly as cb_write would write it. */
  lemma {:induction false} RingRun(q: Parser, data: seq<Byte>)
    requires Due(q, |data|) && data != [] && q.conn[q.currentConn].cbuff.Some?
    ensures Feed(StartConnRead(q, false), data) == Finished(q, data)
    decreases |data|
  {
    hide StartConnRead, PayloadDone, Feed, AfterChunk, ChunkLen, CB.WriteAll, CB.Wf, Filled;
    var c := q.currentConn;
    var r := q.conn[c].cbuff.value;
    var s := StartConnRead(q, false);
    var n := ChunkLen(r, |data|);
    ChunkStart(q, data);
    WriteAllTurn(r, data);
    ChunkRun(s, data[..n]);
    FeedAppend(s, data[..n], data[n..]);
    assert data[..n] + data[n..] == data;
    var q1 := NextDue(q, data);
    if n < |data| {
      RingRun(q1, data[n..]);
      assert Finished(q1, data[n..]) == Finished(q, data);
    } else {
      assert data[n..] == [];
      FeedNothing(Feed(s, data[..n]));
      WriteNothing(AfterChunk(r, data));
    }
  }

  lemma FeedNothing(p: Parser)
    requires Wf(p)
    ensures Feed(p, []) == p
  {
  }

  lemma WriteNothing(r: Ring)
    requires CB.Wf(r) && !r.write.started
    ensures CB.WriteAll(r, []) == r
  {
  }

  ghost function LinksOf(p: Parser): Links {
    Links(p.conn, p.answers)
  }

  lemma AttachFirst(q: Parser)
    requires Wf(q) && q.mode == ReadingPayload && q.target == Char && Writable(q.conn, q.answers)
    ensures var c := q.currentConn;
            var a := if q.conn[c].active then q else Attach(q, c);
            && StartConnRead(q, true) == StartConnRead(a, false)
            && a == q.(conn := a.conn, answers := a.answers) && LinksOf(a) == Attached(LinksOf(q), c)
  {
    hide CB.Wf, CB.PrepareWrite;
  }

  /** A whole frame's payload, from its announcement on. */
  lemma FrameRun(q: Parser, payload: seq<Byte>)
    requires Wf(q) && !q.outside && q.mode == ReadingPayload && q.target == Char
    requires q.conn[q.currentConn].toRead == |payload| > 0 && Writable(q.conn, q.answers)
    ensures var k := Deliver(LinksOf(q), q.currentConn, payload);
            Feed(StartConnRead(q, true), payload) ==
            q.(conn := k.conn, answers := k.answers, mode := ReadingResponses, currentConn := -1)
  {
    hide Feed, CB.WriteAll, CB.Wf, StartConnRead, Attach, Attached;
    var c := q.currentConn;
    var a := if q.conn[c].active then q else Attach(q, c);
    AttachFirst(q);
    if a.conn[c].cbuff.Some? {
      RingRun(a, payload);
    } else {
      DiscardRun(a, payload);
    }
  }

  /** Text and one frame. */
  lemma SegRun(p: Parser, seen: seq<Byte>, s: Seg)
    requires Listening(p, seen) && p.ipdIdx == 0 && p.ipdStat == NotMatch && p.ipdLen == 0
    requires Writable(p.conn, p.answers) && s.conn < 4 && 0 < |s.payload| < U32
    requires !Occurs(IPD, s.text) && Quiet(seen + s.text + Header(s.conn, |s.payload|))
    requires |p.result| + |s.text| + |Header(s.conn, |s.payload|)| <= RESULT_BUFF_LEN
    requires p.mode == WaitingSend ==> 62 !in s.text
    ensures var seen' := seen + s.text + Header(s.conn, |s.payload|);
            var k := Deliver(LinksOf(p), s.conn, s.payload);
            var q := Feed(p, s.text + (Header(s.conn, |s.payload|) + ([58] + s.payload)));
            && q == p.(conn := k.conn, answers := k.answers, mode := ReadingResponses, currentConn := -1,
                       asyncIdx := AsyncAfter(seen'), result := p.result + s.text)
            && Listening(q, seen')
  {
    hide Feed, StartConnRead, Step, Occurs, Quiet, IdxAfter, AsyncAfter, Header, CB.WriteAll, CB.Wf;
    var h := Header(s.conn, |s.payload|);
    QuietPrefix(seen + s.text, h);
    assert [] + s.text == s.text;
    LiteralsExact(IPD);
    NotComplete(IPD, s.text);
    IdxAfterNothing(IPD);
    TextRun(p, [], seen, s.text);
    var p1 := Feed(p, s.text);
    ColonRun(p1, seen + s.text, s.conn, |s.payload|);
    var a := Announced(p1, seen + s.text + h, s.conn, |s.payload|);
    FrameRun(a, s.payload);
    DeliverIgnoresToRead(LinksOf(p), LinksOf(a), s.conn, s.payload);
    FeedAppend(p, s.text, h + ([58] + s.payload));
    FeedAppend(p1, h + [58], s.payload);
    assert h + [58] + s.payload == h + ([58] + s.payload);
  }

  lemma IdxAfterNothing(m: seq<Byte>)
    requires m != []
    ensures IdxAfter(m, []) == 0
  {
  }

  lemma DeliverIgnoresToRead(k: Links, a: Links, c: nat, payload: seq<Byte>)
    requires c < |k.conn| == 4 && Writable(k.conn, k.answers)
    requires a.answers == k.answers && exists n: nat :: a.conn == k.conn[c := k.conn[c].(toRead := n)]
    ensures Writable(a.conn, a.answers) && |a.conn| == 4
    ensures Deliver(a, c, payload) == Deliver(k, c, payload)
  {
    hide CB.WriteAll, CB.Wf;
    var x, y := Deliver(a, c, payload), Deliver(k, c, payload);
    assert x.conn == y.conn;
  }

  /**
    The byte-level parser equals the frame-level interpreter: on every such stream the
    connections end as if each payload had been written whole with cb_write, and the
    response buffer has gained the stream with all its frames deleted.
   */
  lemma {:induction false} Demultiplex(p: Parser, seen: seq<Byte>, segs: seq<Seg>, tail: seq<Byte>)
    requires Listening(p, seen) && p.ipdIdx == 0 && p.ipdStat == NotMatch && p.ipdLen == 0
    requires Writable(p.conn, p.answers) && WellFormed(segs) && HeaderFree(segs, tail)
    requires Quiet(seen + Shown(segs, tail)) && Room(|p.result|, segs, tail) && NoPrompt(p.mode, segs, tail)
    ensures var q := Feed(p, Encode(segs, tail));
            && !q.outside && q.overflow == p.overflow && q.target == Char
            && q.mode == (if segs == [] then p.mode else ReadingResponses)
            && q.result == p.result + Texts(segs, tail)
            && LinksOf(q) == DeliverAll(LinksOf(p), segs)
    decreases |segs|
  {
    hide Feed, Step, Occurs, Quiet, IdxAfter, AsyncAfter, Header, Deliver, Wf, WritableRing;
    hide Encode, Shown, Texts, Room, HeaderFree, WellFormed, DeliverAll;
    if segs == [] {
      NoSegs(segs, tail, |p.result|, LinksOf(p));
      assert [] + tail == tail;
      IdxAfterNothing(IPD);
      TextRun(p, [], seen, tail);
    } else {
      var s, rest := segs[0], segs[1..];
      FirstSeg(segs, tail, |p.result|, LinksOf(p));
      var h := Header(s.conn, |s.payload|);
      var seen' := seen + s.text + h;
      var whole := s.text + (h + ([58] + s.payload));
      assert seen + (s.text + h + Shown(rest, tail)) == seen' + Shown(rest, tail);
      QuietPrefix(seen', Shown(rest, tail));
      SegRun(p, seen, s);
      var q := Feed(p, whole);
      Demultiplex(q, seen', rest, tail);
      FeedAppend(p, whole, Encode(rest, tail));
      assert p.result + s.text + Texts(rest, tail) == p.result + (s.text + Texts(rest, tail));
    }
  }

  lemma NoSegs(segs: seq<Seg>, tail: seq<Byte>, n: nat, k: Links)
    requires segs == [] && WellFormed(segs) && HeaderFree(segs, tail) && Room(n, segs, tail)
    requires |k.conn| == 4 && Writable(k.conn, k.answers)
    ensures !Occurs(IPD, tail) && n + |tail| <= RESULT_BUFF_LEN
    ensures Encode(segs, tail) == Shown(segs, tail) == Texts(segs, tail) == tail && DeliverAll(k, segs) == k
  {
  }

  /** What the first segment contributes to everything defined over the segments. */
  lemma FirstSeg(segs: seq<Seg>, tail: seq<Byte>, n: nat, k: Links)
    requires segs != [] && WellFormed(segs) && HeaderFree(segs, tail) && Room(n, segs, tail)
    requires |k.conn| == 4 && Writable(k.conn, k.answers)
    ensures var s, rest := segs[0], segs[1..];
            && s.conn < 4 && 0 < |s.payload| < U32 && WellFormed(rest)
            && !Occurs(IPD, s.text) && HeaderFree(rest, tail)
            && var h := Header(s.conn, |s.payload|);
            && n + |s.text| + |h| <= RESULT_BUFF_LEN && Room(n + |s.text|, rest, tail)
            && Encode(segs, tail) == s.text + (h + ([58] + s.payload)) + Encode(rest, tail)
            && Shown(segs, tail) == s.text + h + Shown(rest, tail)
            && Texts(segs, tail) == s.text + Texts(rest, tail)
            && DeliverAll(k, segs) == DeliverAll(Deliver(k, s.conn, s.payload), rest)
  {
    hide Occurs, Header, Deliver;
  }

  /** The payload bytes addressed to one connection, in order. */
  function PayloadsOf(c: nat, segs: seq<Seg>): seq<Byte> {
    if segs == [] then []
    else (if segs[0].conn == c then segs[0].payload else []) + PayloadsOf(c, segs[1..])
  }

  lemma DeliverStream(k: Links, s: Seg, c: nat, h: seq<Byte>, r: nat)
    requires |k.conn| == 4 && Writable(k.conn, k.answers) && c < 4 && s.conn < 4
    requires k.conn[c].active && k.conn[c].cbuff.Some? && CB.Rep(k.conn[c].cbuff.value, h, r)
    ensures var k' := Deliver(k, s.conn, s.payload);
            k'.conn[c].active && k'.conn[c].cbuff.Some?
            && CB.Rep(k'.conn[c].cbuff.value, h + (if s.conn == c then s.payload else []), r)
  {
    hide CB.Rep, CB.WriteAll, CB.Wf;
    if s.conn == c {
      CB.WriteAllRep(k.conn[c].cbuff.value, h, r, s.payload);
    } else {
      assert h + [] == h;
    }
  }

  /** Delivering frames appends to each ring's stream exactly that connection's payload bytes. */
  lemma {:induction false} DeliverAllStream(k: Links, segs: seq<Seg>, c: nat, h: seq<Byte>, r: nat)
    requires |k.conn| == 4 && Writable(k.conn, k.answers) && WellFormed(segs) && c < 4
    requires k.conn[c].active && k.conn[c].cbuff.Some? && CB.Rep(k.conn[c].cbuff.value, h, r)
    ensures var k' := DeliverAll(k, segs);
            k'.conn[c].cbuff.Some? && CB.Rep(k'.conn[c].cbuff.value, h + PayloadsOf(c, segs), r)
    decreases |segs|
  {
    hide CB.Rep, CB.Wf, Deliver;
    if segs == [] {
      assert h + [] == h;
    } else {
      var s := segs[0];
      var mine: seq<Byte> := if s.conn == c then s.payload else [];
      DeliverStream(k, s, c, h, r);
      DeliverAllStream(Deliver(k, s.conn, s.payload), segs[1..], c, h + mine, r);
      assert h + mine + PayloadsOf(c, segs[1..]) == h + PayloadsOf(c, segs);
    }
  }

  // ----- Rings handed out in the middle of a stream -----

  /** The ring a connection fills, as it was handed out, and the payload bytes that go into it. */
  ghost function Received(k: Links, segs: seq<Seg>, c: nat): Option<(Ring, seq<Byte>)>
    requires |k.conn| == 4 && Writable(k.conn, k.answers) && WellFormed(segs) && c < 4
    decreases |segs|
  {
    if k.conn[c].active then
      if k.conn[c].cbuff.Some? then Some((k.conn[c].cbuff.value, PayloadsOf(c, segs))) else None
    else if segs == [] then None
    else if segs[0].conn == c && k.answers != [] && k.answers[0].Some? then
      Some((k.answers[0].value, segs[0].payload + PayloadsOf(c, segs[1..])))
    else Received(Deliver(k, segs[0].conn, segs[0].payload), segs[1..], c)
  }

  /** That ring, with exactly those bytes appended, is what the connection ends with. */
  lemma {:induction false} ReceivedStream(k: Links, segs: seq<Seg>, c: nat, h: seq<Byte>, r: nat)
    requires |k.conn| == 4 && Writable(k.conn, k.answers) && WellFormed(segs) && c < 4
    requires Received(k, segs, c).Some? && CB.Rep(Received(k, segs, c).value.0, h, r)
    ensures var k' := DeliverAll(k, segs);
            k'.conn[c].cbuff.Some? && CB.Rep(k'.conn[c].cbuff.value, h + Received(k, segs, c).value.1, r)
    decreases |segs|
  {
    hide CB.Rep, CB.Wf, Deliver, WritableRing;
    if k.conn[c].active {
      DeliverAllStream(k, segs, c, h, r);
    } else {
      var s := segs[0];
      var k1 := Deliver(k, s.conn, s.payload);
      if s.conn == c && k.answers != [] && k.answers[0].Some? {
        FirstFrame(k, c, s.payload, h, r);
        DeliverAllStream(k1, segs[1..], c, h + s.payload, r);
        assert h + s.payload + PayloadsOf(c, segs[1..]) == h + (s.payload + PayloadsOf(c, segs[1..]));
      } else {
        ReceivedStream(k1, segs[1..], c, h, r);
      }
    }
  }

  /** The frame that brings a connection its ring. */
  lemma FirstFrame(k: Links, c: nat, payload: seq<Byte>, h: seq<Byte>, r: nat)
    requires |k.conn| == 4 && Writable(k.conn, k.answers) && c < 4
    requires !k.conn[c].active && k.answers != [] && k.answers[0].Some? && CB.Rep(k.answers[0].value, h, r)
    ensures var k1 := Deliver(k, c, payload);
            k1.conn[c].active && k1.conn[c].cbuff.Some? && CB.Rep(k1.conn[c].cbuff.value, h + payload, r)
  {
    hide CB.Rep, CB.WriteAll, CB.Wf;
    CB.WriteAllRep(k.answers[0].value, h, r, payload);
  }

  /**
    The UART stream, demultiplexed: the ring of every connection, whether it was there from the
    start or was handed out on the way, receives its connection's bytes and no others.
   */
  lemma DemultiplexStreams(p: Parser, seen: seq<Byte>, segs: seq<Seg>, tail: seq<Byte>, c: nat, h: seq<Byte>, r: nat)
    requires Listening(p, seen) && p.ipdIdx == 0 && p.ipdStat == NotMatch && p.ipdLen == 0
    requires Writable(p.conn, p.answers) && WellFormed(segs) && HeaderFree(segs, tail)
    requires Quiet(seen + Shown(segs, tail)) && Room(|p.result|, segs, tail) && NoPrompt(p.mode, segs, tail)
    requires c < 4 && Received(LinksOf(p), segs, c).Some? && CB.Rep(Received(LinksOf(p), segs, c).value.0, h, r)
    ensures var q := Feed(p, Encode(segs, tail));
            && q.result == p.result + Texts(segs, tail)
            && q.conn[c].cbuff.Some?
            && CB.Rep(q.conn[c].cbuff.value, h + Received(LinksOf(p), segs, c).value.1, r)
  {
    hide CB.Rep, CB.Wf, Feed, DeliverAll, Received, Encode, Shown, Room, Quiet, HeaderFree;
    Demultiplex(p, seen, segs, tail);
    ReceivedStream(LinksOf(p), segs, c, h, r);
  }

  /**
    From the UART to the application: while it fits the ring, cb_read returns what was unread
    followed by exactly the payload bytes the connection received, in order.
   */
  lemma UartToReader(p: Parser, seen: seq<Byte>, segs: seq<Seg>, tail: seq<Byte>, c: nat, h: seq<Byte>, r: nat)
    requires Listening(p, seen) && p.ipdIdx == 0 && p.ipdStat == NotMatch && p.ipdLen == 0
    requires Writable(p.conn, p.answers) && WellFormed(segs) && HeaderFree(segs, tail)
    requires Quiet(seen + Shown(segs, tail)) && Room(|p.result|, segs, tail) && NoPrompt(p.mode, segs, tail)
    requires c < 4 && Received(LinksOf(p), segs, c).Some? && CB.Rep(Received(LinksOf(p), segs, c).value.0, h, r)
    ensures r <= |h|
    ensures var q := Feed(p, Encode(segs, tail));
            var unread := h[r..] + Received(LinksOf(p), segs, c).value.1;
            && q.conn[c].cbuff.Some?
            && CB.Wf(q.conn[c].cbuff.value)
            && (!q.conn[c].cbuff.value.read.started && |unread| <= q.conn[c].cbuff.value.size ==>
                var result := CB.ReadAll(q.conn[c].cbuff.value, |unread|);
                result.status == CB.Success && result.data == unread)
  {
    hide CB.Rep, CB.Wf, Feed, DeliverAll, CB.ReadAll, CB.InFlight, Encode, Shown, Room, Quiet, HeaderFree, Received;
    var (ring0, bytes) := Received(LinksOf(p), segs, c).value;
    CB.RepWf(ring0, h, r);
    DemultiplexStreams(p, seen, segs, tail, c, h, r);
    Demultiplex(p, seen, segs, tail);
    var q := Feed(p, Encode(segs, tail));
    assert LinksOf(q) == DeliverAll(LinksOf(p), segs);
    ReadEverything(q.conn[c].cbuff.value, h, r, bytes);
  }

  lemma ReadEverything(ring: Ring, h: seq<Byte>, r: nat, more: seq<Byte>)
    requires CB.Rep(ring, h + more, r) && !ring.write.started && r <= |h|
    ensures CB.Wf(ring)
    ensures var unread := h[r..] + more;
            !ring.read.started && |unread| <= ring.size ==>
            var result := CB.ReadAll(ring, |unread|);
            result.status == CB.Success && result.data == unread
  {
    hide CB.Rep, CB.Wf, CB.ReadAll;
    CB.RepWf(ring, h + more, r);
    var unread := h[r..] + more;
    if !ring.read.started && |unread| <= ring.size {
      var _ := CB.ReadAllInOrder(ring, h + more, r, |unread|);
      assert (h + more)[r..r + |unread|] == unread;
    }
  }
}
