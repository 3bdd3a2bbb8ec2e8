/**
  The receive side of the ESP8266 AT parser (network/wifi/at_parser.c) in multiple
  connection mode: one UART byte stream carries response text and `+IPD` payload frames.

  `Step` is the arrival of one UART byte: it lands where the last uart_read_nonblocking
  asked for it and, when that request is complete, runs at_callback.  The connection
  callback of the application is the list `answers`: the ring, or no ring, it hands out
  each time a message arrives on a connection that is not active.
 */
module AtParser {
  import opened Machine
  import opened MessageMatcher
  import CB = CircularBuffer

  const RESULT_BUFF_LEN: nat := 500

  type Ring = CB.Ring

  datatype Mode = ReadingResponses | ReadingPayload | WaitingSend
  datatype IpdStat = NotMatch | ReadingConn | WaitingComma | ReadingLen

  /** struct connection_desc. */
  datatype Conn = Conn(cbuff: Option<Ring>, toRead: nat, active: bool)

  /** Where the pending UART read stores its bytes: read_ch, or a raw region of the current ring. */
  datatype Target = Char | Chunk(start: nat, len: nat, got: nat)

  /**
    struct at_desc.  `outside` marks a state whose continuation is not modelled: an
    asynchronous literal was completed, or the C code would leave its arrays.
   */
  datatype Parser = Parser(
    conn: seq<Conn>, currentConn: int, mode: Mode, result: seq<Byte>, overflow: bool,
    asyncIdx: seq<nat>, ipdIdx: nat, ipdStat: IpdStat, ipdLen: nat,
    target: Target, answers: seq<Option<Ring>>, outside: bool)

  predicate WfRing(r: Option<Ring>) {
    r.Some? ==> CB.Wf(r.value)
  }

  predicate Wf(p: Parser) {
    && |p.conn| == 4 && |p.asyncIdx| == 3
    && p.asyncIdx[0] < |CLOSED| && p.asyncIdx[1] < |WIFI_DISCONNECT| && p.asyncIdx[2] < |WIFI_GOT_IP|
    && (forall i :: 0 <= i < |p.conn| ==> WfRing(p.conn[i].cbuff))
    && (forall i :: 0 <= i < |p.answers| ==> WfRing(p.answers[i]))
    && (p.mode == ReadingPayload ==> 0 <= p.currentConn < 4)
    && (p.target.Chunk? ==> p.mode == ReadingPayload && ChunkOk(p.conn[p.currentConn].cbuff, p.target))
  }

  /** The requested region is the write transaction open on the ring, not yet full. */
  predicate ChunkOk(r: Option<Ring>, t: Target) {
    t.Chunk? ==>
      && r.Some? && r.value.write.started
      && t.start == r.value.write.idx && t.len == r.value.write.asyncSize && t.got < t.len
  }

  // ----- is_payload_message -----

  function ResetIpd(p: Parser): Parser {
    p.(ipdIdx := 0, ipdLen := 0, ipdStat := NotMatch)
  }

  /** The new state, and whether a payload message has just been announced. */
  function IsPayload(p: Parser, ch: Byte): (r: (Parser, bool))
    requires |p.conn| == 4
    ensures Wf(p) && p.mode != ReadingPayload && p.target == Char ==>
              Wf(r.0) && r.0.mode == p.mode && r.0.target == Char && (r.1 ==> 0 <= r.0.currentConn < 4)
  {
    if p.ipdIdx < |IPD| then
      var (i, fired) := MatchStep(IPD, p.ipdIdx, ch);
      (p.(ipdIdx := i, ipdStat := if fired then ReadingConn else p.ipdStat), false)
    else
      match p.ipdStat
      case ReadingConn =>
        if ch < 48 || ch > 52 then (ResetIpd(p), false)
        else (p.(currentConn := ch - 48, ipdStat := WaitingComma, ipdIdx := (p.ipdIdx + 1) % 256), false)
      case WaitingComma =>
        if ch != 44 then (ResetIpd(p), false)
        else (p.(ipdStat := ReadingLen, ipdIdx := (p.ipdIdx + 1) % 256), false)
      case ReadingLen => LengthChar(p, ch)
      case NotMatch => (ResetIpd(p), false)
  }

  /** The RAEDING_LEN branch: a digit of the length, or the colon that ends the header. */
  function LengthChar(p: Parser, ch: Byte): (r: (Parser, bool))
    requires |p.conn| == 4
    ensures Wf(p) && p.mode != ReadingPayload && p.target == Char ==>
              Wf(r.0) && r.0.mode == p.mode && r.0.target == Char && (r.1 ==> 0 <= r.0.currentConn < 4)
  {
    if 48 <= ch <= 57 then
      (p.(ipdLen := Wrap32(p.ipdLen * 10 + (ch - 48)), ipdIdx := (p.ipdIdx + 1) % 256), false)
    else if ch == 58 && p.ipdLen > 0 then
      if !(0 <= p.currentConn < 4) || |p.result| < p.ipdIdx then (p.(outside := true), false)
      else
        var c := p.currentConn;
        (ResetIpd(p.(conn := p.conn[c := p.conn[c].(toRead := p.ipdLen)],
                     result := p.result[..|p.result| - p.ipdIdx])), true)
    else (ResetIpd(p), false)
  }

  // ----- Payload transfers -----

  /** The AT_NEW_CONNECTION callback: the application attaches a ring or refuses. */
  function Attach(p: Parser, c: nat): (p': Parser)
    requires Wf(p) && c < 4 && p.target == Char
    ensures Wf(p') && p'.target == Char && p'.mode == p.mode && p'.currentConn == p.currentConn
    ensures p'.conn[c].toRead == p.conn[c].toRead
  {
    var answer := if p.answers == [] then None else p.answers[0];
    p.(conn := p.conn[c := p.conn[c].(cbuff := answer, active := answer.Some?)],
       answers := if p.answers == [] then [] else p.answers[1..])
  }

  function StartConnRead(p: Parser, isNew: bool): (p': Parser)
    requires Wf(p) && p.mode == ReadingPayload && p.target == Char
    ensures Wf(p')
  {
    var c := p.currentConn;
    RequestRead(if isNew && !p.conn[c].active then Attach(p, c) else p)
  }

  /** The part of start_conn_read that asks for bytes: a region of the ring, or one byte to drop. */
  function RequestRead(p: Parser): (p': Parser)
    requires Wf(p) && p.mode == ReadingPayload && p.target == Char
    ensures Wf(p')
  {
    var c := p.currentConn;
    var k := p.conn[c];
    if k.toRead == 0 then p.(outside := true)
    else if k.cbuff.None? then p.(conn := p.conn[c := k.(toRead := k.toRead - 1)])
    else
      var prep := CB.PrepareWrite(k.cbuff.value, k.toRead);
      if prep.status != CB.Success then p.(outside := true)
      else
        p.(conn := p.conn[c := k.(cbuff := Some(prep.ring), toRead := k.toRead - prep.len)],
           target := Chunk(prep.start, prep.len, 0))
  }

  /** The READING_PAYLOAD branch of at_callback: the requested bytes have arrived. */
  function PayloadDone(p: Parser): (p': Parser)
    requires Wf(p) && p.mode == ReadingPayload && p.target == Char
    ensures Wf(p')
  {
    var c := p.currentConn;
    var k := p.conn[c];
    var ended := if k.cbuff.Some? then Some(CB.EndWrite(k.cbuff.value).0) else None;
    var p1 := p.(conn := p.conn[c := k.(cbuff := ended)]);
    if k.toRead == 0 then p1.(mode := ReadingResponses, currentConn := -1)
    else StartConnRead(p1, false)
  }

  // ----- at_callback -----

  /** The READING_RESPONSES and WAITING_SEND branches of at_callback. */
  function ResponseChar(p: Parser, ch: Byte): (p': Parser)
    requires Wf(p) && p.mode != ReadingPayload && p.target == Char
    ensures Wf(p')
  {
    var (p1, payload) := IsPayload(p, ch);
    if p1.outside then p1
    else if payload then StartConnRead(p1.(mode := ReadingPayload), true)
    else if ch == 62 && p1.mode == WaitingSend then p1.(mode := ReadingResponses)
    else if |p1.result| >= RESULT_BUFF_LEN then p1.(overflow := true, result := [])
    else
      var (i0, f0) := MatchStep(CLOSED, p1.asyncIdx[0], ch);
      var (i1, f1) := MatchStep(WIFI_DISCONNECT, p1.asyncIdx[1], ch);
      var (i2, f2) := MatchStep(WIFI_GOT_IP, p1.asyncIdx[2], ch);
      if f0 || f1 || f2 then p1.(outside := true)
      else p1.(asyncIdx := [i0, i1, i2], result := p1.result + [ch])
  }

  /** One byte arrives on the UART. */
  function Step(p: Parser, b: Byte): (p': Parser)
    requires Wf(p)
    ensures Wf(p')
  {
    if p.outside then p
    else if p.target.Chunk? then
      var t, c := p.target, p.currentConn;
      var ring := CB.Store(p.conn[c].cbuff.value, t.start + t.got, [b]);
      var p1 := p.(conn := p.conn[c := p.conn[c].(cbuff := Some(ring))]);
      if t.got + 1 < t.len then p1.(target := t.(got := t.got + 1))
      else PayloadDone(p1.(target := Char))
    else if p.mode == ReadingPayload then PayloadDone(p)
    else ResponseChar(p, b)
  }

  function Feed(p: Parser, bytes: seq<Byte>): (p': Parser)
    requires Wf(p)
    ensures Wf(p')
    decreases |bytes|
  {
    if bytes == [] then p else Feed(Step(p, bytes[0]), bytes[1..])
  }

  lemma {:induction false} FeedAppend(p: Parser, a: seq<Byte>, b: seq<Byte>)
    requires Wf(p)
    ensures Feed(p, a + b) == Feed(Feed(p, a), b)
    decreases |a|
  {
    hide Step, Wf;
    if a == [] {
      assert a + b == b;
    } else {
      assert (a + b)[1..] == a[1..] + b;
      FeedAppend(Step(p, a[0]), a[1..], b);
    }
  }
}
