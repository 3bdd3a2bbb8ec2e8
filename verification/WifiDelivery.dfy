/**
  From the UART to the sockets: the AT parser asks for a ring through the connection callback of
  network/wifi/wifi.c, which answers with the ring of a socket.  This module connects the two
  and proves that the payload of a connection ends up in the ring of the socket it leads to.
 */
module WifiDelivery {
  import opened Machine
  import opened AtParser
  import opened AtDemultiplexer
  import T = ConnectionTable
  import CB = CircularBuffer

  /** The answers of _wifi_connection_callback to the frames of a stream, and the tables after them. */
  function Callbacks(active: seq<bool>, w: T.Wifi, rings: seq<Ring>, segs: seq<Seg>): (r: (T.Wifi, seq<Option<Ring>>))
    requires |active| == 4 && T.Wf(w) && |rings| == 5 && WellFormed(segs)
    ensures T.Wf(r.0)
    decreases |segs|
  {
    if segs == [] then (w, [])
    else
      var c := segs[0].conn;
      if active[c] then Callbacks(active, w, rings, segs[1..])
      else
        var w1 := T.NewConnection(w, c);
        var a := Answer(w1, rings, c);
        var (w2, rest) := Callbacks(active[c := a.Some?], w1, rings, segs[1..]);
        (w2, [a] + rest)
  }

  /** The ring of the socket the connection leads to. */
  function Answer(w: T.Wifi, rings: seq<Ring>, c: nat): Option<Ring>
    requires T.Wf(w) && |rings| == 5 && c < 4
  {
    if w.connToSock[c] == T.INVALID then None else Some(rings[w.connToSock[c]])
  }

  function Active(k: Links): seq<bool>
    requires |k.conn| == 4
  {
    [k.conn[0].active, k.conn[1].active, k.conn[2].active, k.conn[3].active]
  }

  /** A connection that leads to a socket keeps doing so. */
  lemma {:induction false} KeptForever(active: seq<bool>, w: T.Wifi, rings: seq<Ring>, segs: seq<Seg>, c: nat)
    requires |active| == 4 && T.Wf(w) && |rings| == 5 && WellFormed(segs) && c < 4 && w.connToSock[c] != T.INVALID
    ensures Callbacks(active, w, rings, segs).0.connToSock[c] == w.connToSock[c]
    decreases |segs|
  {
    if segs != [] {
      var d := segs[0].conn;
      if active[d] {
        KeptForever(active, w, rings, segs[1..], c);
      } else {
        var w1 := T.NewConnection(w, d);
        KeptForever(active[d := Answer(w1, rings, d).Some?], w1, rings, segs[1..], c);
      }
    }
  }

  /** With no idle client left a connection without a socket stays without. */
  lemma {:induction false} RefusedForever(active: seq<bool>, w: T.Wifi, rings: seq<Ring>, segs: seq<Seg>, c: nat)
    requires |active| == 4 && T.Wf(w) && |rings| == 5 && WellFormed(segs) && c < 4
    requires w.connToSock[c] == T.INVALID && T.IdleClient(w, w.clients).None?
    ensures Callbacks(active, w, rings, segs).0.connToSock[c] == T.INVALID
    decreases |segs|
  {
    if segs != [] {
      var d := segs[0].conn;
      if active[d] {
        RefusedForever(active, w, rings, segs[1..], c);
      } else {
        RefusedForever(active[d := Answer(w, rings, d).Some?], w, rings, segs[1..], c);
      }
    }
  }

  /** The callbacks keep the tables consistent, so no two connections share a socket. */
  lemma {:induction false} CallbacksInv(active: seq<bool>, w: T.Wifi, rings: seq<Ring>, segs: seq<Seg>)
    requires |active| == 4 && T.Wf(w) && T.Inv(w) && |rings| == 5 && WellFormed(segs)
    ensures T.Inv(Callbacks(active, w, rings, segs).0)
    decreases |segs|
  {
    hide T.Inv, T.NewConnection;
    if segs != [] {
      var d := segs[0].conn;
      if active[d] {
        CallbacksInv(active, w, rings, segs[1..]);
      } else {
        var w1 := T.NewConnection(w, d);
        T.NewConnectionInv(w, d);
        CallbacksInv(active[d := Answer(w1, rings, d).Some?], w1, rings, segs[1..]);
      }
    }
  }

  predicate HasFrame(segs: seq<Seg>, c: nat) {
    exists i :: 0 <= i < |segs| && segs[i].conn == c
  }

  /** The parser's answers are those of the callback. */
  ghost predicate Wired(k: Links, w: T.Wifi, rings: seq<Ring>, segs: seq<Seg>) {
    && |k.conn| == 4 && Writable(k.conn, k.answers) && WellFormed(segs)
    && T.Wf(w) && |rings| == 5
    && k.answers == Callbacks(Active(k), w, rings, segs).1
  }

  /** The tables after a frame on connection c. */
  ghost function After(k: Links, w: T.Wifi, c: nat): T.Wifi
    requires |k.conn| == 4 && T.Wf(w) && c < 4
  {
    if k.conn[c].active then w else T.NewConnection(w, c)
  }

  /** After a frame the rest of the stream is wired to the tables after its callback. */
  lemma WiredNext(k: Links, w: T.Wifi, rings: seq<Ring>, segs: seq<Seg>)
    requires Wired(k, w, rings, segs) && segs != []
    ensures var s := segs[0];
            var k1 := Deliver(k, s.conn, s.payload);
            && Wired(k1, After(k, w, s.conn), rings, segs[1..])
            && (forall c :: 0 <= c < 4 && c != s.conn ==> k1.conn[c] == k.conn[c])
            && (!k.conn[s.conn].active ==>
                 k.answers != [] && k.answers[0] == Answer(T.NewConnection(w, s.conn), rings, s.conn))
            && Callbacks(Active(k), w, rings, segs).0 ==
               Callbacks(Active(k1), After(k, w, s.conn), rings, segs[1..]).0
  {
    hide CB.WriteAll, CB.Wf, T.NewConnection, T.Wf, WritableRing;
    var s := segs[0];
    var k1 := Deliver(k, s.conn, s.payload);
    if k.conn[s.conn].active {
      assert Active(k1) == Active(k);
    } else {
      assert Active(k1) == Active(k)[s.conn := k.answers[0].Some?];
    }
  }

  /** The ring a connection fills is that of the socket it leads to, and all of its payload goes there. */
  lemma {:induction false} ReceivesAll(k: Links, w: T.Wifi, rings: seq<Ring>, segs: seq<Seg>, c: nat)
    requires Wired(k, w, rings, segs) && c < 4 && !k.conn[c].active && HasFrame(segs, c)
    requires Callbacks(Active(k), w, rings, segs).0.connToSock[c] != T.INVALID
    ensures var s := Callbacks(Active(k), w, rings, segs).0.connToSock[c];
            s < 5 && Received(k, segs, c) == Some((rings[s], PayloadsOf(c, segs)))
    decreases |segs|
  {
    hide Deliver, T.IdleClient, WritableRing;
    var s, rest := segs[0], segs[1..];
    var k1 := Deliver(k, s.conn, s.payload);
    WiredNext(k, w, rings, segs);
    if s.conn == c {
      var w1 := T.NewConnection(w, c);
      if w1.connToSock[c] == T.INVALID {
        RefusedForever(Active(k1), w1, rings, rest, c);
      } else {
        KeptForever(Active(k1), w1, rings, rest, c);
      }
    } else {
      var i :| 0 <= i < |segs| && segs[i].conn == c;
      assert rest[i - 1].conn == c;
      ReceivesAll(k1, After(k, w, s.conn), rings, rest, c);
      assert PayloadsOf(c, segs) == PayloadsOf(c, rest);
    }
  }

  /**
    From the UART to the socket: when the parser's callbacks are answered from consistent tables,
    a connection that was not active and received frames ends up leading to no socket, or to one
    whose ring has gained exactly this connection's payload, in order.
   */
  lemma UartToSocket(p: Parser, seen: seq<Byte>, segs: seq<Seg>, tail: seq<Byte>, w: T.Wifi, rings: seq<Ring>,
                     c: nat, h: seq<Byte>, r: nat)
    requires Listening(p, seen) && p.ipdIdx == 0 && p.ipdStat == NotMatch && p.ipdLen == 0
    requires Wired(LinksOf(p), w, rings, segs) && T.Inv(w) && HeaderFree(segs, tail)
    requires Quiet(seen + Shown(segs, tail)) && Room(|p.result|, segs, tail) && NoPrompt(p.mode, segs, tail)
    requires c < 4 && !p.conn[c].active && HasFrame(segs, c)
    requires var s := Callbacks(Active(LinksOf(p)), w, rings, segs).0.connToSock[c];
             s != T.INVALID ==> s < 5 && CB.Rep(rings[s], h, r)
    ensures var q := Feed(p, Encode(segs, tail));
            var w' := Callbacks(Active(LinksOf(p)), w, rings, segs).0;
            && T.Inv(w')
            && (w'.connToSock[c] != T.INVALID ==>
                 q.conn[c].cbuff.Some? && CB.Rep(q.conn[c].cbuff.value, h + PayloadsOf(c, segs), r))
  {
    hide CB.Rep, CB.Wf, Feed, Received, Encode, Shown, Room, Quiet, HeaderFree, T.Inv, Callbacks;
    var k := LinksOf(p);
    CallbacksInv(Active(k), w, rings, segs);
    if Callbacks(Active(k), w, rings, segs).0.connToSock[c] != T.INVALID {
      ReceivesAll(k, w, rings, segs, c);
      DemultiplexStreams(p, seen, segs, tail, c, h, r);
    }
  }
}
