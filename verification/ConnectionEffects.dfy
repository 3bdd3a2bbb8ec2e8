/**
  The exact effect of every call and callback of network/wifi/wifi.c on the tables: which
  entries change, to what, and that no other does.
 */
module ConnectionEffects {
  import opened Machine
  import opened ConnectionTable
  import opened ConnectionOwnership

  function WithSocket(w: Wifi, s: nat, sock: Socket): Wifi
    requires s < |w.sockets|
  {
    w.(sockets := w.sockets[s := sock])
  }

  /** Socket s and connection c lead to each other, in the given state. */
  function Linked(w: Wifi, s: nat, c: nat, st: SockState): Wifi
    requires s < |w.sockets| && c < |w.connToSock|
  {
    w.(sockets := w.sockets[s := Socket(st, c)], connToSock := w.connToSock[c := s])
  }

  /** Socket s has given connection c up and is in the given state. */
  function Parted(w: Wifi, s: nat, c: nat, st: SockState): Wifi
    requires s < |w.sockets| && c < |w.connToSock|
  {
    w.(sockets := w.sockets[s := Socket(st, INVALID)], connToSock := w.connToSock[c := INVALID])
  }

  /** The lowest socket in a state. */
  predicate Lowest(w: Wifi, st: SockState, s: nat) {
    s < |w.sockets| && w.sockets[s].state == st && forall i :: 0 <= i < s ==> w.sockets[i].state != st
  }

  lemma LowestFound(w: Wifi, st: SockState, s: nat)
    requires Wf(w) && Lowest(w, st, s)
    ensures FirstIn(w, st, 0) == s
  {
  }

  // ----- open, connect, bind, accept -----

  /** open takes the lowest unused socket, if there is one. */
  lemma OpenEffect(w: Wifi, s: nat)
    requires Wf(w)
    ensures Lowest(w, Unused, s) ==> Open(w) == WithSocket(w, s, Socket(Disconnected, w.sockets[s].connId))
    ensures (forall i :: 0 <= i < 5 ==> w.sockets[i].state != Unused) ==> Open(w) == w
  {
    if Lowest(w, Unused, s) {
      LowestFound(w, Unused, s);
    }
  }

  predicate Refuses(w: Wifi, s: nat)
    requires Wf(w)
  {
    s >= 5 || s == w.server || w.sockets[s].state == Unused || w.sockets[s].state == Connected
  }

  predicate LowestFree(w: Wifi, c: nat) {
    c < |w.connToSock| && w.connToSock[c] == INVALID && forall i :: 0 <= i < c ==> w.connToSock[i] != INVALID
  }

  /** connect links the socket with the lowest free connection; with none free it changes the state only. */
  lemma ConnectEffect(w: Wifi, s: nat, c: nat)
    requires Wf(w)
    ensures Refuses(w, s) ==> Connect(w, s) == w
    ensures !Refuses(w, s) && LowestFree(w, c) ==> Connect(w, s) == Linked(w, s, c, Connected)
    ensures !Refuses(w, s) && (forall i :: 0 <= i < 4 ==> w.connToSock[i] != INVALID) ==>
              Connect(w, s) == WithSocket(w, s, Socket(Connected, w.sockets[s].connId))
  {
    if LowestFree(w, c) {
      assert FreeConn(w, 0) == c;
    }
  }

  /** bind makes an open socket the server when there is none. */
  lemma BindEffect(w: Wifi, s: nat)
    requires Wf(w)
    ensures Bind(w, s) == if s < 5 && w.server == INVALID && w.sockets[s].state != Unused then w.(server := s) else w
  {
  }

  /** accept connects the lowest waiting socket, on a listening server only. */
  lemma AcceptEffect(w: Wifi, s: nat, a: nat)
    requires Wf(w)
    ensures !(s < 5 && s == w.server && w.sockets[s].state == Listening) ==> Accept(w, s) == w
    ensures s < 5 && s == w.server && w.sockets[s].state == Listening && Lowest(w, WaitingAccept, a) ==>
              Accept(w, s) == WithSocket(w, a, Socket(Connected, w.sockets[a].connId))
    ensures (forall i :: 0 <= i < 5 ==> w.sockets[i].state != WaitingAccept) ==> Accept(w, s) == w
  {
    if Lowest(w, WaitingAccept, a) {
      LowestFound(w, WaitingAccept, a);
    }
  }

  // ----- The callbacks -----

  /** The first prepared client that is idle. */
  predicate FirstIdle(w: Wifi, clients: seq<nat>, i: nat)
    requires Wf(w) && forall j :: 0 <= j < |clients| ==> clients[j] < 5
  {
    && i < |clients| && w.sockets[clients[i]].state == Disconnected
    && forall j :: 0 <= j < i ==> w.sockets[clients[j]].state != Disconnected
  }

  lemma {:induction false} FirstIdleFound(w: Wifi, clients: seq<nat>, i: nat)
    requires Wf(w) && (forall j :: 0 <= j < |clients| ==> clients[j] < 5) && FirstIdle(w, clients, i)
    ensures IdleClient(w, clients) == Some(clients[i])
    decreases |clients|
  {
    if i > 0 {
      FirstIdleFound(w, clients[1..], i - 1);
    }
  }

  /** A new connection goes to the first idle client, which then waits to be accepted. */
  lemma NewConnectionEffect(w: Wifi, c: nat, i: nat)
    requires Wf(w) && c < 4
    ensures w.connToSock[c] != INVALID ==> NewConnection(w, c) == w
    ensures w.connToSock[c] == INVALID && FirstIdle(w, w.clients, i) ==>
              NewConnection(w, c) == Linked(w, w.clients[i], c, WaitingAccept)
    ensures (forall j :: 0 <= j < |w.clients| ==> w.sockets[w.clients[j]].state != Disconnected) ==>
              NewConnection(w, c) == w
  {
    if FirstIdle(w, w.clients, i) {
      FirstIdleFound(w, w.clients, i);
    }
  }

  /** A closed connection is parted from its socket, which is then disconnected. */
  lemma ClosedConnectionEffect(w: Wifi, c: nat)
    requires Inv(w) && c < 4
    ensures Wf(w)
    ensures w.connToSock[c] == INVALID ==> ClosedConnection(w, c) == w
    ensures w.connToSock[c] != INVALID ==>
              w.connToSock[c] < 5 && ClosedConnection(w, c) == Parted(w, w.connToSock[c], c, Disconnected)
  {
    assert w.connToSock[c] != INVALID ==> Target(w, c);
  }

  // ----- disconnect and close of a client -----

  /** disconnect of a client that has a connection. */
  lemma DisconnectEffect(w: Wifi, s: nat)
    requires Wf(w)
    ensures s >= 5 || w.sockets[s].state == Unused || w.sockets[s].state == Disconnected ==> Disconnect(w, s) == w
    ensures s < 5 && s != w.server && Carries(w.sockets[s].state) ==>
              var c := w.sockets[s].connId;
              Disconnect(w, s) ==
              if c < 4 then Parted(w, s, c, Disconnected) else WithSocket(w, s, Socket(Disconnected, c))
  {
  }

  /** close of a client: the same, and the socket ends unused. */
  lemma CloseEffect(w: Wifi, s: nat)
    requires Wf(w)
    ensures s >= 5 || w.sockets[s].state == Unused ==> Close(w, s) == w
    ensures s < 5 && w.sockets[s].state == Disconnected && !(s == w.server && s in w.clients) ==>
              Close(w, s) == WithSocket(w, s, Socket(Unused, w.sockets[s].connId))
    ensures s < 5 && s != w.server && Carries(w.sockets[s].state) ==>
              var c := w.sockets[s].connId;
              Close(w, s) == if c < 4 then Parted(w, s, c, Unused) else WithSocket(w, s, Socket(Unused, c))
  {
    hide ReleaseSockets;
    if s < 5 && s != w.server && Carries(w.sockets[s].state) {
      DisconnectEffect(w, s);
    }
  }

  lemma {:induction false} ReleaseEffect(w: Wifi, ids: seq<nat>)
    requires Wf(w) && forall i :: 0 <= i < |ids| ==> ids[i] < 5
    ensures var w' := ReleaseSockets(w, ids);
            && w' == w.(sockets := w'.sockets) && |w'.sockets| == 5
            && forall t :: 0 <= t < 5 ==>
                 w'.sockets[t] == if t in ids then w.sockets[t].(state := Unused) else w.sockets[t]
    decreases |ids|
  {
    if ids != [] {
      ReleaseEffect(SetState(w, ids[0], Unused), ids[1..]);
      assert ids == [ids[0]] + ids[1..];
    }
  }

  /** close of an idle server that is one of its own clients marks all of them unused. */
  lemma OwnClientEffect(w: Wifi, s: nat)
    requires Wf(w) && s == w.server < 5 && s in w.clients && w.sockets[s].state == Disconnected
    ensures var w' := Close(w, s);
            && w' == w.(sockets := w'.sockets) && |w'.sockets| == 5
            && forall t :: 0 <= t < 5 ==>
                 w'.sockets[t] == if t in w.clients then w.sockets[t].(state := Unused) else w.sockets[t]
  {
    hide ReleaseSockets;
    ReleaseEffect(w, w.clients);
  }

  // ----- The prepared clients -----

  /** The sockets of `ids` are closed: unused, without connection, and nothing else has changed. */
  ghost predicate AllClosed(w: Wifi, w': Wifi, ids: seq<nat>)
    requires Wf(w) && Wf(w')
  {
    && w'.server == w.server && w'.clients == w.clients
    && (forall t :: 0 <= t < 5 ==>
         w'.sockets[t] == if t in ids then ClosedSocket(w.sockets[t]) else w.sockets[t])
    && (forall c :: 0 <= c < 4 ==> w'.connToSock[c] == if w.connToSock[c] in ids then INVALID else w.connToSock[c])
  }

  function ClosedSocket(s: Socket): Socket {
    if Carries(s.state) then Socket(Unused, INVALID) else s.(state := Unused)
  }

  lemma CloseClientEffect(w: Wifi, t: nat)
    requires Sound(w) && Wf(w) && t < 5 && t != w.server
    ensures AllClosed(w, CloseClient(w, t), [t])
  {
    hide ReleaseSockets;
    var w' := CloseClient(w, t);
    assert Owns(w, t);
    forall c | 0 <= c < 4
      ensures w'.connToSock[c] == if w.connToSock[c] in [t] then INVALID else w.connToSock[c]
    {
      if w.connToSock[c] != INVALID {
        assert Target(w, c);
      }
    }
  }

  lemma ClosedTwice(w: Wifi, w1: Wifi, w2: Wifi, t: nat, rest: seq<nat>)
    requires Wf(w) && Wf(w1) && Wf(w2) && AllClosed(w, w1, [t]) && AllClosed(w1, w2, rest)
    requires forall i :: 0 <= i < |rest| ==> rest[i] < 5
    ensures AllClosed(w, w2, [t] + rest)
  {
  }

  /** _remove_server_back_log closes exactly the prepared clients. */
  lemma {:induction false} RemoveBackLogEffect(w: Wifi, ids: seq<nat>)
    requires Sound(w) && Wf(w) && forall i :: 0 <= i < |ids| ==> ids[i] < 5 && ids[i] != w.server
    ensures AllClosed(w, RemoveBackLog(w, ids), ids)
    decreases |ids|
  {
    hide Sound, Wf, CloseClient, AllClosed;
    if ids == [] {
      NoneClosed(w);
    } else {
      var w1 := CloseClient(w, ids[0]);
      CloseClientEffect(w, ids[0]);
      CloseClientSound(w, ids[0]);
      RemoveBackLogEffect(w1, ids[1..]);
      ClosedTwice(w, w1, RemoveBackLog(w1, ids[1..]), ids[0], ids[1..]);
      assert [ids[0]] + ids[1..] == ids;
    }
  }

  lemma NoneClosed(w: Wifi)
    requires Wf(w)
    ensures AllClosed(w, w, [])
  {
  }

  /** disconnect and close of the server in use: its clients are closed, and it serves no more. */
  lemma ServerEffect(w: Wifi, s: nat)
    requires Sound(w) && Wf(w) && s == w.server < 5
    requires w.sockets[s].state != Unused && w.sockets[s].state != Disconnected
    ensures var w1 := RemoveBackLog(w, w.clients);
            && AllClosed(w, w1, w.clients)
            && Disconnect(w, s) == WithSocket(w1, s, w.sockets[s].(state := Disconnected)).(server := INVALID)
            && Close(w, s) == WithSocket(w1, s, w.sockets[s].(state := Unused)).(server := INVALID)
  {
    hide RemoveBackLog, ReleaseSockets;
    RemoveBackLogEffect(w, w.clients);
  }

  // ----- listen -----

  /** The unused sockets from t on, lowest first. */
  function UnusedFrom(w: Wifi, t: nat): seq<nat>
    requires |w.sockets| == 5 && t <= 5
    decreases 5 - t
  {
    if t == 5 then [] else (if w.sockets[t].state == Unused then [t] else []) + UnusedFrom(w, t + 1)
  }

  lemma {:induction false} UnusedFirst(w: Wifi, t: nat)
    requires Wf(w) && t <= 5 && forall i :: 0 <= i < t ==> w.sockets[i].state != Unused
    ensures UnusedFrom(w, 0) == UnusedFrom(w, t)
  {
    if t > 0 {
      UnusedFirst(w, t - 1);
      assert [] + UnusedFrom(w, t) == UnusedFrom(w, t);
    }
  }

  lemma {:induction false} UnusedSame(w: Wifi, w': Wifi, t: nat)
    requires |w.sockets| == |w'.sockets| == 5 && t <= 5
    requires forall i :: t <= i < 5 ==> w.sockets[i].state == w'.sockets[i].state
    ensures UnusedFrom(w, t) == UnusedFrom(w', t)
    decreases 5 - t
  {
    if t < 5 {
      UnusedSame(w, w', t + 1);
    }
  }

  /** The sockets of `ids` are idle, and nothing else has changed. */
  ghost predicate AllPrepared(w: Wifi, w': Wifi, ids: seq<nat>) {
    && w' == w.(sockets := w'.sockets, clients := w.clients + ids)
    && |w'.sockets| == |w.sockets|
    && forall t :: 0 <= t < |w.sockets| ==>
         w'.sockets[t] == if t in ids then w.sockets[t].(state := Disconnected) else w.sockets[t]
  }

  /** The preparation takes the first n unused sockets in order, and fails if there are fewer. */
  lemma {:induction false} PrepareEffect(w: Wifi, n: nat)
    requires Wf(w)
    ensures var (w', ok) := PrepareClients(w, n);
            && (ok <==> n <= |UnusedFrom(w, 0)|)
            && AllPrepared(w, w', UnusedFrom(w, 0)[..Min(n, |UnusedFrom(w, 0)|)])
    decreases n
  {
    hide UnusedFrom, AllPrepared, Wf, PrepareClients;
    WfLengths(w);
    var all := UnusedFrom(w, 0);
    var s := FirstIn(w, Unused, 0);
    if n == 0 || s == 5 {
      if s == 5 {
        UnusedFirst(w, 5);
        UnusedEnd(w);
      }
      PrepareNothing(w, n);
      assert all[..0] == [];
    } else {
      var w1 := SetState(w, s, Disconnected).(clients := w.clients + [s]);
      NextPrepared(w, s);
      PrepareNext(w, n, s);
      UnusedSplit(w, s);
      UnusedFirst(w, s);
      UnusedFirst(w1, s + 1);
      UnusedSame(w, w1, s + 1);
      PrepareEffect(w1, n - 1);
      var rest := UnusedFrom(w1, 0);
      assert all == [s] + rest;
      assert all[..Min(n, |all|)] == [s] + rest[..Min(n - 1, |rest|)];
      PreparedMore(w, s, PrepareClients(w1, n - 1).0, rest[..Min(n - 1, |rest|)]);
    }
  }

  lemma PrepareNothing(w: Wifi, n: nat)
    requires Wf(w) && (n == 0 || FirstIn(w, Unused, 0) == 5)
    ensures PrepareClients(w, n) == (w, n == 0) && AllPrepared(w, w, [])
  {
    assert w.clients + [] == w.clients;
  }

  lemma PrepareNext(w: Wifi, n: nat, s: nat)
    requires Wf(w) && n > 0 && s == FirstIn(w, Unused, 0) < 5
    ensures var w1 := SetState(w, s, Disconnected).(clients := w.clients + [s]);
            Wf(w1) && PrepareClients(w, n) == PrepareClients(w1, n - 1)
  {
    NextPrepared(w, s);
  }

  lemma PreparedMore(w: Wifi, s: nat, w2: Wifi, ids: seq<nat>)
    requires s < |w.sockets|
    requires AllPrepared(SetState(w, s, Disconnected).(clients := w.clients + [s]), w2, ids)
    ensures AllPrepared(w, w2, [s] + ids)
  {
    assert w.clients + [s] + ids == w.clients + ([s] + ids);
  }

  lemma UnusedEnd(w: Wifi)
    requires |w.sockets| == 5
    ensures UnusedFrom(w, 5) == []
  {
  }

  lemma UnusedSplit(w: Wifi, s: nat)
    requires |w.sockets| == 5 && s < 5 && w.sockets[s].state == Unused
    ensures UnusedFrom(w, s) == [s] + UnusedFrom(w, s + 1)
  {
  }

  lemma {:induction false} UnusedAbove(w: Wifi, t: nat)
    requires |w.sockets| == 5 && t <= 5
    ensures forall i :: 0 <= i < |UnusedFrom(w, t)| ==>
              t <= UnusedFrom(w, t)[i] < 5 && w.sockets[UnusedFrom(w, t)[i]].state == Unused
    decreases 5 - t
  {
    if t < 5 {
      UnusedAbove(w, t + 1);
    }
  }

  /** listen prepares up to four sockets and listens, or leaves all sockets as they were. */
  lemma ListenEffect(w: Wifi, s: nat, backLog: nat, cmdOk: bool)
    requires Inv(w) && Wf(w)
    ensures s >= 5 || s != w.server ==> Listen(w, s, backLog, cmdOk) == w
    ensures s == w.server < 5 && Proper(w, DoListen(s, backLog, cmdOk)) ==>
              var n := if backLog == 0 || backLog > 4 then 4 else backLog;
              var ids := UnusedFrom(w, 0)[..Min(n, |UnusedFrom(w, 0)|)];
              var w' := Listen(w, s, backLog, cmdOk);
              if n <= |UnusedFrom(w, 0)| && cmdOk
              then exists w1 :: AllPrepared(w.(clients := []), w1, ids) && s < |w1.sockets|
                     && w' == WithSocket(w1, s, w.sockets[s].(state := Listening))
              else w' == w.(clients := ids)
  {
    hide PrepareClients, RemoveBackLog, UnusedFrom, UnusedBelow, AllPrepared;
    if s == w.server < 5 && Proper(w, DoListen(s, backLog, cmdOk)) {
      var n, w0 := BackLog(backLog), w.(clients := []);
      var (w1, ok) := PrepareClients(w0, n);
      SameBelow(w, w0, s);
      UnusedSame(w, w0, 0);
      PrepareEffect(w0, n);
      PrepareClientsInv(w0, n);
      var ids := UnusedFrom(w, 0)[..Min(n, |UnusedFrom(w, 0)|)];
      if !ok || !cmdOk {
        UnusedAbove(w, 0);
        PreparedAndClosed(w0, w1, ids);
      }
    }
  }

  /** Closing what has just been prepared restores the sockets. */
  lemma PreparedAndClosed(w0: Wifi, w1: Wifi, ids: seq<nat>)
    requires Wf(w0) && Inv(w1) && Wf(w1) && AllPrepared(w0, w1, ids) && w0.clients == []
    requires forall i :: 0 <= i < |ids| ==> ids[i] < 5 && w0.sockets[ids[i]].state == Unused
    ensures RemoveBackLog(w1, w1.clients) == w0.(clients := ids)
  {
    hide RemoveBackLog, Wf;
    WfLengths(w0);
    assert w1.clients == [] + ids == ids;
    NotServer(w1);
    RestoresIdle(w1, ids);
    var w2 := RemoveBackLog(w1, ids);
    assert w2.sockets == w0.sockets;
  }

  lemma NotServer(w: Wifi)
    requires Inv(w)
    ensures forall i :: 0 <= i < |w.clients| ==> w.clients[i] < 5 && w.clients[i] != w.server
  {
  }

  lemma {:induction false} RestoresIdle(w: Wifi, ids: seq<nat>)
    requires Wf(w)
    requires forall i :: 0 <= i < |ids| ==> ids[i] < 5 && ids[i] != w.server && Idle(w.sockets[ids[i]].state)
    ensures var w' := RemoveBackLog(w, ids);
            && w' == w.(sockets := w'.sockets) && |w'.sockets| == |w.sockets|
            && forall t :: 0 <= t < 5 ==>
                 w'.sockets[t] == if t in ids then w.sockets[t].(state := Unused) else w.sockets[t]
    decreases |ids|
  {
    hide ReleaseSockets;
    if ids != [] {
      RestoresIdle(CloseClient(w, ids[0]), ids[1..]);
      assert ids == [ids[0]] + ids[1..];
    }
  }
}
