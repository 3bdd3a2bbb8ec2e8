/**
  The wifi descriptor of network/wifi/wifi.c as its calls and callbacks update it.  Each
  method is proved against the corresponding function of module ConnectionTable.
 */
module WifiDescriptor {
  import opened Machine
  import opened ConnectionTable

  datatype AtEvent = NewConn | ClosedConn

  class WifiDesc {
    var sockets: seq<Socket>
    var connToSock: seq<nat>
    var server: nat
    var clients: seq<nat>

    ghost function State(): Wifi
      reads this
    {
      Wifi(sockets, connToSock, server, clients)
    }

    /** wifi_init, for what concerns the tables. */
    constructor ()
      ensures State() == Start() && Inv(State())
    {
      sockets := seq(5, _ => Socket(Unused, 0));
      connToSock := seq(4, _ => INVALID);
      server := INVALID;
      clients := [];
    }

    method SetSockState(s: nat, st: SockState)
      requires s < |sockets|
      modifies this`sockets
      ensures State() == SetState(old(State()), s, st)
    {
      sockets := sockets[s := sockets[s].(state := st)];
    }

    /** The scans for a socket in a given state. */
    method FindSocket(st: SockState) returns (s: nat)
      requires Wf(State())
      ensures s == FirstIn(State(), st, 0)
    {
      s := 0;
      while s < NB_SOCKETS && sockets[s].state != st
        invariant s <= 5 && FirstIn(State(), st, 0) == FirstIn(State(), st, s)
      {
        s := s + 1;
      }
    }

    /** _wifi_release_conn. */
    method WifiReleaseConn(s: nat)
      requires Wf(State()) && s < 5
      modifies this`sockets, this`connToSock
      ensures State() == ReleaseConn(old(State()), s)
    {
      var c := sockets[s].connId;
      if c != INVALID {
        sockets := sockets[s := sockets[s].(connId := INVALID)];
        connToSock := connToSock[c := INVALID];
      }
    }

    /** wifi_socket_open: the new socket, or none. */
    method SocketOpen() returns (id: Option<nat>)
      requires Wf(State())
      modifies this`sockets
      ensures State() == Open(old(State())) && (old(Inv(State())) ==> Inv(State()))
      ensures id == var s := FirstIn(old(State()), Unused, 0); if s == 5 then None else Some(s)
    {
      hide Inv;
      if Inv(State()) {
        OpenInv(State());
      }
      var s := FindSocket(Unused);
      if s == 5 {
        return None;
      }
      SetSockState(s, Disconnected);
      id := Some(s);
    }

    /** The end of wifi_socket_close. */
    method ReleaseSocket(s: nat)
      requires Wf(State()) && s < 5
      modifies this`sockets
      ensures State() == Released(old(State()), s)
    {
      hide Wf;
      WfClients(State());
      if s in clients && s == server {
        for i := 0 to |clients|
          invariant Wf(State()) && |sockets| == 5
          invariant ReleaseSockets(State(), clients[i..]) == ReleaseSockets(old(State()), clients)
        {
          assert clients[i..][1..] == clients[i + 1..];
          StateWf(State(), clients[i], Unused);
          SetSockState(clients[i], Unused);
        }
      }
      SetSockState(s, Unused);
    }

    /**
      wifi_socket_close of a prepared client, as _remove_server_back_log calls it.  On a
      listening server among its own clients the C functions would call each other for ever.
     */
    method CloseBackLogClient(s: nat)
      requires Wf(State()) && s < 5 && (s == server ==> Idle(sockets[s].state))
      modifies this`sockets, this`connToSock
      ensures State() == CloseClient(old(State()), s)
    {
      hide Released;
      if sockets[s].state == Unused {
        return;
      }
      if sockets[s].state == Disconnected {
        ReleaseSocket(s);
      } else {
        WifiReleaseConn(s);
        SetSockState(s, Unused);
      }
    }

    /** _remove_server_back_log. */
    method RemoveServerBackLog()
      requires Wf(State()) && Closable(State())
      modifies this`sockets, this`connToSock
      ensures State() == RemoveBackLog(old(State()), clients)
    {
      hide CloseClient, Wf, Closable;
      WfClients(State());
      for i := 0 to |clients|
        invariant Wf(State()) && Closable(State()) && server == old(server) && clients == old(clients)
        invariant RemoveBackLog(State(), clients[i..]) == RemoveBackLog(old(State()), clients)
      {
        assert clients[i..][1..] == clients[i + 1..];
        WfClients(State());
        ClosableClient(State(), i);
        CloseBackLogClient(clients[i]);
      }
    }

    /** wifi_socket_disconnect. */
    method SocketDisconnect(s: nat)
      requires Inv(State())
      modifies this
      ensures State() == Disconnect(old(State()), s) && Inv(State())
    {
      hide Inv, RemoveBackLog, Closable;
      InvWf(State());
      InvClosable(State());
      DisconnectInv(State(), s);
      if s >= NB_SOCKETS || sockets[s].state == Unused || sockets[s].state == Disconnected {
        return;
      }
      if s == server {
        RemoveServerBackLog();
        server := INVALID;
      } else {
        WifiReleaseConn(s);
      }
      SetSockState(s, Disconnected);
    }

    /** wifi_socket_close. */
    method SocketClose(s: nat)
      requires Inv(State())
      modifies this
      ensures State() == Close(old(State()), s) && Inv(State())
    {
      hide Inv, Disconnect, Released;
      InvWf(State());
      CloseInv(State(), s);
      if s >= NB_SOCKETS || sockets[s].state == Unused {
        return;
      }
      SocketDisconnect(s);
      InvWf(State());
      ReleaseSocket(s);
    }

    /** _wifi_get_unused_conn and wifi_socket_connect. */
    method SocketConnect(s: nat)
      requires Wf(State())
      modifies this`sockets, this`connToSock
      ensures State() == Connect(old(State()), s)
      ensures old(Inv(State())) ==> (Inv(State()) <==> Proper(old(State()), DoConnect(s)))
    {
      hide Inv, ConnectsTwice;
      if Inv(State()) {
        ConnectSafeIff(State(), s);
      }
      if s >= NB_SOCKETS || s == server || sockets[s].state == Unused || sockets[s].state == Connected {
        return;
      }
      var c := 0;
      while c < NB_CONNS && connToSock[c] != INVALID
        invariant c <= 4 && FreeConn(State(), 0) == FreeConn(State(), c)
      {
        c := c + 1;
      }
      if c < NB_CONNS {
        connToSock := connToSock[c := s];
        sockets := sockets[s := sockets[s].(connId := c)];
      }
      SetSockState(s, Connected);
    }

    /** wifi_socket_bind. */
    method SocketBind(s: nat)
      requires Wf(State())
      modifies this`server
      ensures State() == Bind(old(State()), s)
      ensures old(Inv(State())) ==> (Inv(State()) <==> Proper(old(State()), DoBind(s)))
    {
      hide Inv, BindsBusy;
      if Inv(State()) {
        BindSafeIff(State(), s);
      }
      if s >= NB_SOCKETS || server != INVALID || sockets[s].state == Unused {
        return;
      }
      server := s;
    }

    /** wifi_socket_listen. */
    method SocketListen(s: nat, backLog: nat, cmdOk: bool)
      requires Inv(State())
      modifies this
      ensures State() == Listen(old(State()), s, backLog, cmdOk)
      ensures Wf(old(State())) && (Inv(State()) <==> Proper(old(State()), DoListen(s, backLog, cmdOk)))
    {
      hide Inv, RemoveBackLog, Closable, PrepareClients, PicksServer, ClientsIdle;
      ListenSafeIff(State(), s, backLog, cmdOk);
      if server == INVALID || s != server {
        return;
      }
      clients := [];
      IdleClosable(State(), BackLog(backLog));
      var ok := PrepareBackLog(BackLog(backLog));
      if !ok || !cmdOk {
        RemoveServerBackLog();
      } else {
        SetSockState(s, Listening);
      }
    }

    /** The allocation loop of wifi_socket_listen. */
    method PrepareBackLog(n: nat) returns (ok: bool)
      requires Wf(State())
      modifies this`sockets, this`clients
      ensures (State(), ok) == PrepareClients(old(State()), n)
    {
      hide Inv, Wf;
      for i := 0 to n
        invariant Wf(State())
        invariant PrepareClients(State(), n - i) == PrepareClients(old(State()), n)
      {
        label Turn:
        WfLengths(State());
        var id := SocketOpen();
        if id == None {
          return false;
        }
        NextPrepared(old@Turn(State()), id.value);
        clients := clients + [id.value];
      }
      ok := true;
    }

    /** wifi_socket_accept: the client socket, when one waits. */
    method SocketAccept(s: nat) returns (client: Option<nat>)
      requires Wf(State())
      modifies this`sockets
      ensures State() == Accept(old(State()), s) && (old(Inv(State())) ==> Inv(State()))
      ensures client.Some? ==>
                client.value < 5 && old(sockets)[client.value].state == WaitingAccept
                && sockets[client.value].state == Connected
      ensures client.None? && s < 5 && server == s && sockets[s].state == Listening ==>
                forall i :: 0 <= i < 5 ==> sockets[i].state != WaitingAccept
    {
      hide Inv;
      if Inv(State()) {
        AcceptInv(State(), s);
      }
      if s >= NB_SOCKETS || server != s || sockets[s].state != Listening {
        return None;
      }
      var a := FindSocket(WaitingAccept);
      if a == 5 {
        return None;
      }
      SetSockState(a, Connected);
      client := Some(a);
    }

    /** _get_initialized_client_id. */
    method GetInitializedClient() returns (id: Option<nat>)
      requires Wf(State())
      ensures id == IdleClient(State(), clients)
    {
      for i := 0 to |clients|
        invariant IdleClient(State(), clients) == IdleClient(State(), clients[i..])
      {
        assert clients[i..][1..] == clients[i + 1..];
        if sockets[clients[i]].state == Disconnected {
          return Some(clients[i]);
        }
      }
      id := None;
    }

    /**
      _wifi_connection_callback.  `cb` is the socket whose ring a new connection is given: the
      one the connection leads to from now on.
     */
    method ConnectionCallback(event: AtEvent, c: nat) returns (cb: Option<nat>)
      requires Wf(State()) && c < 4
      modifies this`sockets, this`connToSock
      ensures State() == if event == NewConn then NewConnection(old(State()), c) else ClosedConnection(old(State()), c)
      ensures old(Inv(State())) ==> Inv(State())
      ensures event == NewConn ==> cb == if connToSock[c] == INVALID then None else Some(connToSock[c])
    {
      hide Inv;
      if Inv(State()) {
        NewConnectionInv(State(), c);
        ClosedConnectionInv(State(), c);
      }
      var s := connToSock[c];
      cb := None;
      if event == NewConn {
        if s != INVALID {
          cb := Some(s);
        } else {
          cb := GetInitializedClient();
          if cb.Some? {
            connToSock := connToSock[c := cb.value];
            sockets := sockets[cb.value := Socket(WaitingAccept, c)];
          }
        }
      } else if s != INVALID {
        SetSockState(s, Disconnected);
        WifiReleaseConn(s);
      }
    }
  }

  lemma WfClients(w: Wifi)
    requires Wf(w)
    ensures |w.sockets| == 5 && forall i :: 0 <= i < |w.clients| ==> w.clients[i] < 5
  {
  }

  lemma StateWf(w: Wifi, s: nat, st: SockState)
    requires Wf(w) && s < 5
    ensures Wf(SetState(w, s, st)) && |SetState(w, s, st).sockets| == 5
  {
  }

  lemma InvClosable(w: Wifi)
    requires Inv(w)
    ensures Wf(w) && Closable(w)
  {
  }

  lemma IdleClosable(w: Wifi, n: nat)
    requires Wf(w) && w.clients == []
    ensures Closable(PrepareClients(w, n).0)
  {
    PreparedIdle(w, n);
  }
}
