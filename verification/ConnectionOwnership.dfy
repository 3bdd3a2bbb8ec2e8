/**
  The other direction of the connection tables of network/wifi/wifi.c: whether a socket that
  is connected, or waits to be accepted, still owns its connection.  It does in every run in
  which connect is called only while a connection is free: a fifth connect succeeds without
  one, keeps an old connection id, and gives that connection away when it is undone.
 */
module ConnectionOwnership {
  import opened ConnectionTable

  ghost predicate Owns(w: Wifi, s: nat)
    requires Wf(w) && s < 5
  {
    Carries(w.sockets[s].state) ==> w.sockets[s].connId < 4 && w.connToSock[w.sockets[s].connId] == s
  }

  ghost predicate Owned(w: Wifi)
    requires Wf(w)
  {
    forall s :: 0 <= s < 5 ==> Owns(w, s)
  }

  ghost predicate Sound(w: Wifi) {
    Inv(w) && Owned(w)
  }

  lemma SoundWf(w: Wifi)
    requires Sound(w)
    ensures Inv(w) && Wf(w) && |w.sockets| == 5 && |w.connToSock| == 4
  {
  }

  lemma DropSound(w: Wifi, s: nat, st: SockState)
    requires Sound(w) && s < 5 && !Carries(st) && st != Listening && Carries(w.sockets[s].state)
    ensures Sound(Drop(w, s, st)) && Drop(w, s, st).server == w.server
  {
    hide Inv;
    InvWf(w);
    DropInv(w, s, st);
    var c, w' := w.sockets[s].connId, Drop(w, s, st);
    assert Owns(w, s);
    forall t | 0 <= t < 5
      ensures Owns(w', t)
    {
      assert Owns(w, t);
    }
  }

  /** Changing the state of a socket that carries nothing, before and after, concerns no connection. */
  lemma IdleStateOwned(w: Wifi, s: nat, st: SockState)
    requires Wf(w) && Owned(w) && s < 5 && !Carries(st)
    ensures Wf(SetState(w, s, st)) && Owned(SetState(w, s, st))
  {
    forall t | 0 <= t < 5
      ensures Owns(SetState(w, s, st), t)
    {
      assert Owns(w, t);
    }
  }

  lemma CloseClientSound(w: Wifi, s: nat)
    requires Sound(w) && s < 5 && s != w.server
    ensures Sound(CloseClient(w, s)) && CloseClient(w, s).server == w.server
  {
    hide Drop, Owned, ReleaseSockets;
    CloseClientInv(w, s);
    if Carries(w.sockets[s].state) {
      DropSound(w, s, Unused);
    } else {
      IdleStateOwned(w, s, Unused);
    }
  }

  lemma {:induction false} RemoveBackLogSound(w: Wifi, clients: seq<nat>)
    requires Sound(w) && forall i :: 0 <= i < |clients| ==> clients[i] < 5 && clients[i] != w.server
    ensures Wf(w) && Sound(RemoveBackLog(w, clients))
    decreases |clients|
  {
    hide CloseClient, Sound, Wf;
    SoundWf(w);
    if clients != [] {
      CloseClientSound(w, clients[0]);
      RemoveBackLogSound(CloseClient(w, clients[0]), clients[1..]);
    }
  }

  lemma DisconnectOwned(w: Wifi, s: nat)
    requires Sound(w)
    ensures Wf(w) && Owned(Disconnect(w, s))
  {
    hide Drop, RemoveBackLog, Owned;
    if s < 5 && w.sockets[s].state != Unused && w.sockets[s].state != Disconnected {
      if s == w.server {
        RemoveBackLogSound(w, w.clients);
        var w1 := RemoveBackLog(w, w.clients);
        OwnedIgnoresServer(w1, INVALID, w1.clients);
        IdleStateOwned(w1.(server := INVALID), s, Disconnected);
      } else {
        DropSound(w, s, Disconnected);
      }
    }
  }

  lemma OwnedIgnoresServer(w: Wifi, server: nat, clients: seq<nat>)
    requires Wf(w) && Wf(w.(server := server, clients := clients))
    ensures Owned(w.(server := server, clients := clients)) <==> Owned(w)
  {
    var w' := w.(server := server, clients := clients);
    assert forall s :: 0 <= s < 5 ==> (Owns(w', s) <==> Owns(w, s));
  }

  lemma CloseOwned(w: Wifi, s: nat)
    requires Sound(w)
    ensures Wf(w) && Owned(Close(w, s))
  {
    hide Disconnect, Owned, ReleaseSockets;
    if s < 5 && w.sockets[s].state != Unused {
      DisconnectOwned(w, s);
      DisconnectInv(w, s);
      IdleStateOwned(Disconnect(w, s), s, Unused);
    }
  }

  /** connect keeps ownership exactly when a connection is free for the socket it takes up. */
  lemma ConnectOwnedIff(w: Wifi, s: nat)
    requires Sound(w) && Wf(w) && !ConnectsTwice(w, s)
    ensures Owned(Connect(w, s)) <==> !Overfull(w, s)
  {
    if s < 5 && s != w.server && (w.sockets[s].state == Disconnected || w.sockets[s].state == WaitingAccept) {
      var w', c := Connect(w, s), FreeConn(w, 0);
      assert Owns(w, s);
      forall t | 0 <= t < 5 && t != s
        ensures Owns(w', t)
      {
        assert Owns(w, t);
      }
      assert c == 4 && w.sockets[s].state == Disconnected ==> !Owns(w', s);
      assert c < 4 || w.sockets[s].state == WaitingAccept ==> Owns(w', s);
    }
  }

  /** connect would take up the socket, but all connections are taken. */
  predicate Overfull(w: Wifi, s: nat)
    requires Wf(w)
  {
    s < 5 && s != w.server && w.sockets[s].state == Disconnected && FreeConn(w, 0) == 4
  }

  lemma {:induction false} PrepareClientsOwned(w: Wifi, n: nat)
    requires Wf(w) && Owned(w)
    ensures Wf(PrepareClients(w, n).0) && Owned(PrepareClients(w, n).0)
    decreases n
  {
    hide Owned;
    if n > 0 {
      var s := FirstIn(w, Unused, 0);
      if s < 5 {
        IdleStateOwned(w, s, Disconnected);
        var w1 := SetState(w, s, Disconnected);
        OwnedIgnoresServer(w1, w1.server, w1.clients + [s]);
        PrepareClientsOwned(w1.(clients := w1.clients + [s]), n - 1);
      }
    }
  }

  lemma ListenOwned(w: Wifi, s: nat, backLog: nat, cmdOk: bool)
    requires Sound(w) && Wf(w) && !(s == w.server && PicksServer(w, BackLog(backLog)))
    ensures Owned(Listen(w, s, backLog, cmdOk))
  {
    hide PrepareClients, RemoveBackLog, Owned, UnusedBelow;
    if w.server != INVALID && s == w.server {
      var n := BackLog(backLog);
      var w0 := w.(clients := []);
      OwnedIgnoresServer(w, w.server, []);
      SameBelow(w, w0, s);
      PrepareClientsInv(w0, n);
      PrepareClientsOwned(w0, n);
      var (w1, ok) := PrepareClients(w0, n);
      if !ok || !cmdOk {
        RemoveBackLogSound(w1, w1.clients);
      } else {
        IdleStateOwned(w1, s, Listening);
      }
    }
  }

  lemma AcceptOwned(w: Wifi, s: nat)
    requires Sound(w)
    ensures Wf(w) && Owned(Accept(w, s))
  {
    forall t | 0 <= t < 5
      ensures Owns(Accept(w, s), t)
    {
      assert Owns(w, t);
    }
  }

  lemma NewConnectionOwned(w: Wifi, c: nat)
    requires Sound(w) && c < 4
    ensures Wf(w) && Owned(NewConnection(w, c))
  {
    forall t | 0 <= t < 5
      ensures Owns(NewConnection(w, c), t)
    {
      assert Owns(w, t);
    }
  }

  lemma ClosedConnectionOwned(w: Wifi, c: nat)
    requires Sound(w) && c < 4
    ensures Wf(w) && Owned(ClosedConnection(w, c))
  {
    if w.connToSock[c] != INVALID {
      assert Target(w, c);
    }
    forall t | 0 <= t < 5
      ensures Owns(ClosedConnection(w, c), t)
    {
      assert Owns(w, t);
    }
  }

  /** A proper step keeps ownership if and only if it is not a connect with no connection free. */
  lemma StepOwnedIff(w: Wifi, e: Event)
    requires Sound(w) && Wf(w) && Proper(w, e)
    ensures Owned(Step(w, e)) <==> !(e.DoConnect? && Overfull(w, e.s))
  {
    hide Inv, Wf, Owned, Close, Connect, Disconnect, Listen, Accept, NewConnection, ClosedConnection,
      Overfull, ConnectsTwice, BindsBusy, PicksServer;
    SoundWf(w);
    match e
    case DoOpen =>
      if FirstIn(w, Unused, 0) < 5 {
        IdleStateOwned(w, FirstIn(w, Unused, 0), Disconnected);
      }
    case DoClose(s) => CloseOwned(w, s);
    case DoConnect(s) => ConnectOwnedIff(w, s);
    case DoDisconnect(s) => DisconnectOwned(w, s);
    case DoBind(s) => BindOwned(w, s);
    case DoListen(s, n, ok) => ListenOwned(w, s, n, ok);
    case DoAccept(s) => AcceptOwned(w, s);
    case OnNew(c) => if c < 4 { NewConnectionOwned(w, c); }
    case OnClosed(c) => if c < 4 { ClosedConnectionOwned(w, c); }
  }

  lemma BindOwned(w: Wifi, s: nat)
    requires Sound(w)
    ensures Wf(w) && Owned(Bind(w, s))
  {
    hide Owned;
    if s < 5 && w.server == INVALID {
      OwnedIgnoresServer(w, s, w.clients);
    }
  }

  /** Every connect of the run finds a free connection. */
  predicate RoomyRun(w: Wifi, es: seq<Event>)
    requires Wf(w)
    decreases |es|
  {
    es == [] || (!(es[0].DoConnect? && Overfull(w, es[0].s)) && RoomyRun(Step(w, es[0]), es[1..]))
  }

  lemma {:induction false} RunSound(w: Wifi, es: seq<Event>)
    requires Sound(w) && Wf(w) && ProperRun(w, es) && RoomyRun(w, es)
    ensures Sound(Run(w, es))
    decreases |es|
  {
    hide Inv, Wf, Step, Proper, Owned, Overfull;
    if es != [] {
      StepInvIff(w, es[0]);
      StepOwnedIff(w, es[0]);
      RunSound(Step(w, es[0]), es[1..]);
    }
  }

  /**
    In every such run from initialisation the two tables are inverse to each other: a
    connection leads to a socket exactly when that socket is connected, or waits to be
    accepted, on this connection.
   */
  lemma RunInverse(es: seq<Event>)
    requires ProperRun(Start(), es) && RoomyRun(Start(), es)
    ensures var w := Run(Start(), es);
            forall c, s :: 0 <= c < 4 && 0 <= s < 5 ==>
              (w.connToSock[c] == s <==> w.sockets[s].connId == c && Carries(w.sockets[s].state))
  {
    hide Run, ProperRun, RoomyRun;
    assert Inv(Start());
    RunSound(Start(), es);
    var w := Run(Start(), es);
    forall c, s | 0 <= c < 4 && 0 <= s < 5
      ensures w.connToSock[c] == s <==> w.sockets[s].connId == c && Carries(w.sockets[s].state)
    {
      assert Owns(w, s);
      if w.connToSock[c] == s {
        assert Target(w, c);
      }
    }
  }
}
