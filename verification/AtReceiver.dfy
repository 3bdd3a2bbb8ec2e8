/**
  The AT descriptor as the interrupt handler of network/wifi/at_parser.c updates it, field
  by field.  Each method is proved against the step function of module AtParser.
 */
module AtReceiver {
  import opened Machine
  import opened MessageMatcher
  import opened AtParser
  import opened AtDemultiplexer
  import CB = CircularBuffer

  class AtDesc {
    var conn: seq<Conn>
    var currentConn: int
    var callbackOperation: Mode
    var result: seq<Byte>
    var overflow: bool
    var asyncIdx: seq<nat>
    var ipdIdx: nat
    var ipdStat: IpdStat
    var ipdLen: nat
    var target: Target
    var answers: seq<Option<Ring>>
    var outside: bool

    ghost function State(): Parser
      reads this
    {
      Parser(conn, currentConn, callbackOperation, result, overflow, asyncIdx, ipdIdx, ipdStat, ipdLen,
             target, answers, outside)
    }

    /** match_message on the index stored at `idx`. */
    static method MatchMessage(msg: seq<Byte>, idx: nat, ch: Byte) returns (newIdx: nat, complete: bool)
      requires idx < |msg|
      ensures (newIdx, complete) == MatchStep(msg, idx, ch)
    {
      newIdx, complete := idx, false;
      if ch == msg[idx] {
        newIdx := newIdx + 1;
        if newIdx == |msg| {
          complete := true;
        }
      } else if ch == msg[0] {
        newIdx := 1;
      } else {
        newIdx := 0;
      }
    }

    /** is_payload_message. */
    method IsPayloadMessage(ch: Byte) returns (ret: bool)
      requires Wf(State())
      modifies this
      ensures (State(), ret) == IsPayload(old(State()), ch)
    {
      hide LengthChar;
      ret := false;
      if ipdIdx < |IPD| {
        var complete;
        ipdIdx, complete := MatchMessage(IPD, ipdIdx, ch);
        if complete {
          ipdStat := ReadingConn;
        }
        return;
      }
      match ipdStat {
        case ReadingConn =>
          if 48 <= ch <= 52 {
            currentConn := ch - 48;
            ipdStat := WaitingComma;
            ipdIdx := (ipdIdx + 1) % 256;
            return;
          }
        case WaitingComma =>
          if ch == 44 {
            ipdStat := ReadingLen;
            ipdIdx := (ipdIdx + 1) % 256;
            return;
          }
        case ReadingLen =>
          ret := LengthCharacter(ch);
          return;
        case NotMatch =>
      }
      ipdIdx, ipdLen, ipdStat := 0, 0, NotMatch;
    }

    /** The length branch of is_payload_message. */
    method LengthCharacter(ch: Byte) returns (ret: bool)
      requires Wf(State())
      modifies this
      ensures (State(), ret) == LengthChar(old(State()), ch)
    {
      ret := false;
      if 48 <= ch <= 57 {
        ipdLen := Wrap32(ipdLen * 10 + (ch - 48));
        ipdIdx := (ipdIdx + 1) % 256;
        return;
      }
      if ch == 58 && ipdLen > 0 {
        if !(0 <= currentConn < 4) || |result| < ipdIdx {
          outside := true;
          return;
        }
        conn := conn[currentConn := conn[currentConn].(toRead := ipdLen)];
        result := result[..|result| - ipdIdx];
        ret := true;
      }
      ipdIdx, ipdLen, ipdStat := 0, 0, NotMatch;
    }

    /** The AT_NEW_CONNECTION callback. */
    method AskForRing(c: nat)
      requires Wf(State()) && c < 4 && target == Char
      modifies this`conn, this`answers
      ensures State() == Attach(old(State()), c)
    {
      var answer := None;
      if answers != [] {
        answer, answers := answers[0], answers[1..];
      }
      conn := conn[c := conn[c].(cbuff := answer, active := answer.Some?)];
    }

    /** start_conn_read. */
    method StartRead(isNewMessage: bool)
      requires Wf(State()) && callbackOperation == ReadingPayload && target == Char
      modifies this
      ensures State() == StartConnRead(old(State()), isNewMessage)
    {
      hide Attach, RequestRead;
      var c := currentConn;
      if isNewMessage && !conn[c].active {
        AskForRing(c);
      }
      Request();
    }

    /** The part of start_conn_read that asks for bytes. */
    method Request()
      requires Wf(State()) && callbackOperation == ReadingPayload && target == Char
      modifies this`conn, this`target, this`outside
      ensures State() == RequestRead(old(State()))
    {
      hide CB.Wf, CB.PrepareWrite, WfRing;
      var c := currentConn;
      RingWf(State(), c);
      if conn[c].toRead == 0 {
        outside := true;
      } else if conn[c].cbuff.None? {
        conn := conn[c := conn[c].(toRead := conn[c].toRead - 1)];
      } else {
        var prep := CB.PrepareWrite(conn[c].cbuff.value, conn[c].toRead);
        if prep.status != CB.Success {
          outside := true;
        } else {
          target := Chunk(prep.start, prep.len, 0);
          conn := conn[c := conn[c].(cbuff := Some(prep.ring), toRead := conn[c].toRead - prep.len)];
        }
      }
    }

    /** end_conn_read and the READING_PAYLOAD branch of at_callback. */
    method ReadDone()
      requires Wf(State()) && callbackOperation == ReadingPayload && target == Char
      modifies this
      ensures State() == PayloadDone(old(State()))
    {
      hide StartConnRead;
      var c := currentConn;
      if conn[c].cbuff.Some? {
        conn := conn[c := conn[c].(cbuff := Some(CB.EndWrite(conn[c].cbuff.value).0))];
      }
      assert conn == old(conn)[c := conn[c]];
      if conn[c].toRead == 0 {
        callbackOperation := ReadingResponses;
        currentConn := -1;
      } else {
        StartRead(false);
      }
    }

    /** at_callback on a response character. */
    method CharReceived(ch: Byte)
      requires Wf(State()) && callbackOperation != ReadingPayload && target == Char
      modifies this
      ensures State() == ResponseChar(old(State()), ch)
    {
      hide StartConnRead, IsPayload;
      var payload := IsPayloadMessage(ch);
      if outside {
        return;
      }
      if payload {
        callbackOperation := ReadingPayload;
        StartRead(true);
        return;
      }
      if ch == 62 && callbackOperation == WaitingSend {
        callbackOperation := ReadingResponses;
      } else if |result| >= RESULT_BUFF_LEN {
        overflow := true;
        result := [];
      } else {
        var i0, f0 := MatchMessage(CLOSED, asyncIdx[0], ch);
        var i1, f1 := MatchMessage(WIFI_DISCONNECT, asyncIdx[1], ch);
        var i2, f2 := MatchMessage(WIFI_GOT_IP, asyncIdx[2], ch);
        if f0 || f1 || f2 {
          outside := true;
        } else {
          asyncIdx := [i0, i1, i2];
          result := result + [ch];
        }
      }
    }

    /** The UART delivers one byte to the pending request. */
    method Receive(b: Byte)
      requires Wf(State())
      modifies this
      ensures State() == Step(old(State()), b) && Wf(State())
    {
      hide StartConnRead, IsPayload, PayloadDone, ResponseChar;
      if outside {
        return;
      }
      if target.Chunk? {
        var c := currentConn;
        var ring := CB.Store(conn[c].cbuff.value, target.start + target.got, [b]);
        conn := conn[c := conn[c].(cbuff := Some(ring))];
        if target.got + 1 < target.len {
          target := target.(got := target.got + 1);
        } else {
          target := Char;
          ReadDone();
        }
      } else if callbackOperation == ReadingPayload {
        ReadDone();
      } else {
        CharReceived(b);
      }
    }

    /** A whole stretch of the UART stream. */
    method ReceiveAll(bytes: seq<Byte>)
      requires Wf(State())
      modifies this
      ensures State() == Feed(old(State()), bytes) && Wf(State())
    {
      hide Step, Wf;
      for i := 0 to |bytes|
        invariant Wf(State()) && Feed(State(), bytes[i..]) == Feed(old(State()), bytes)
      {
        assert bytes[i..][0] == bytes[i] && bytes[i..][1..] == bytes[i + 1..];
        Receive(bytes[i]);
      }
    }

    /**
      A stretch made of response text and well-formed frames: the response gains the text, and
      every connection ends as if its payloads had been written whole to its ring.
     */
    method ReceiveStream(bytes: seq<Byte>, ghost seen: seq<Byte>, ghost segs: seq<Seg>, ghost tail: seq<Byte>)
      requires Listening(State(), seen) && ipdIdx == 0 && ipdStat == NotMatch && ipdLen == 0
      requires Writable(conn, answers) && WellFormed(segs) && HeaderFree(segs, tail)
      requires Quiet(seen + Shown(segs, tail)) && Room(|result|, segs, tail)
      requires NoPrompt(callbackOperation, segs, tail) && bytes == Encode(segs, tail)
      modifies this
      ensures !outside && overflow == old(overflow) && target == Char
      ensures callbackOperation == if segs == [] then old(callbackOperation) else ReadingResponses
      ensures result == old(result) + Texts(segs, tail)
      ensures Links(conn, answers) == DeliverAll(old(Links(conn, answers)), segs)
    {
      hide Feed, DeliverAll, Encode, Shown, Room, Quiet, HeaderFree;
      Demultiplex(State(), seen, segs, tail);
      ReceiveAll(bytes);
    }
  }

  lemma RingWf(p: Parser, c: nat)
    requires Wf(p) && c < 4
    ensures p.conn[c].cbuff.Some? ==> CB.Wf(p.conn[c].cbuff.value)
  {
  }
}
