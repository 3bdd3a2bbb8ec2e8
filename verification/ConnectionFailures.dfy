/**
  What goes wrong after a call that module ConnectionTable names improper (network/wifi/wifi.c):
  some later call, itself in order, leaves a connection with a wrong socket or never returns.

  wifi_socket_close, wifi_socket_disconnect and _remove_server_back_log call each other.
  `CloseCalls`, `DisconnectCalls` and `RemoveCalls` are these functions call by call, given up
  when `depth` calls are nested; a call that is given up at every depth does not return.
 */
module ConnectionFailures {
  import opened Machine
  import opened ConnectionTable
  import opened ConnectionOwnership

  // ----- Calls that do not return -----

  function CloseCalls(w: Wifi, s: nat, depth: nat): (r: Option<Wifi>)
    requires Wf(w)
    ensures r.Some? ==> Wf(r.value)
    decreases depth, 0
  {
    if depth == 0 then None
    else if s >= 5 || w.sockets[s].state == Unused then Some(w)
    else
      match DisconnectCalls(w, s, depth - 1)
      case None => None
      case Some(w1) => Some(Released(w1, s))
  }

  function DisconnectCalls(w: Wifi, s: nat, depth: nat): (r: Option<Wifi>)
    requires Wf(w)
    ensures r.Some? ==> Wf(r.value)
    decreases depth, 0
  {
    if depth == 0 then None
    else if s >= 5 || Idle(w.sockets[s].state) then Some(w)
    else if s == w.server then
      match RemoveCalls(w, w.clients, depth - 1)
      case None => None
      case Some(w1) => Some(SetState(w1.(server := INVALID), s, Disconnected))
    else Some(Drop(w, s, Disconnected))
  }

  function RemoveCalls(w: Wifi, clients: seq<nat>, depth: nat): (r: Option<Wifi>)
    requires Wf(w) && forall i :: 0 <= i < |clients| ==> clients[i] < 5
    ensures r.Some? ==> Wf(r.value)
    decreases depth, |clients|
  {
    if clients == [] then Some(w)
    else if depth == 0 then None
    else
      match CloseCalls(w, clients[0], depth - 1)
      case None => None
      case Some(w1) => RemoveCalls(w1, clients[1..], depth)
  }

  /** The socket is the server, in use, and one of its own clients. */
  predicate Hangs(w: Wifi, s: nat)
    requires Wf(w)
  {
    s < 5 && s == w.server && s in w.clients && !Idle(w.sockets[s].state)
  }

  lemma CloseOther(w: Wifi, t: nat, s: nat, depth: nat)
    requires Wf(w) && Hangs(w, s) && t < 5 && t != s && CloseCalls(w, t, depth).Some?
    ensures Hangs(CloseCalls(w, t, depth).value, s)
    ensures CloseCalls(w, t, depth).value.clients == w.clients
  {
  }

  /** disconnect and close of such a socket return at no depth. */
  lemma {:induction false} NeverReturns(w: Wifi, s: nat, depth: nat)
    requires Wf(w) && Hangs(w, s)
    ensures DisconnectCalls(w, s, depth) == None && CloseCalls(w, s, depth) == None
    decreases depth, 0
  {
    hide Wf;
    HangingSocket(w, s);
    if depth > 0 {
      NeverReturns(w, s, depth - 1);
      RemoveHangs(w, w.clients, s, depth - 1);
    }
  }

  lemma HangingSocket(w: Wifi, s: nat)
    requires Wf(w) && Hangs(w, s)
    ensures |w.sockets| == 5 && s < 5 && !Idle(w.sockets[s].state)
    ensures forall i :: 0 <= i < |w.clients| ==> w.clients[i] < 5
  {
  }

  lemma {:induction false} RemoveHangs(w: Wifi, clients: seq<nat>, s: nat, depth: nat)
    requires Wf(w) && Hangs(w, s) && s in clients && forall i :: 0 <= i < |clients| ==> clients[i] < 5
    ensures RemoveCalls(w, clients, depth) == None
    decreases depth, |clients|
  {
    hide Wf, Hangs, CloseCalls;
    if depth > 0 {
      if clients[0] == s {
        NeverReturns(w, s, depth - 1);
      } else if CloseCalls(w, clients[0], depth - 1).Some? {
        HangingSocket(w, s);
        CloseOther(w, clients[0], s, depth - 1);
        RemoveHangs(CloseCalls(w, clients[0], depth - 1).value, clients[1..], s, depth);
      }
    }
  }

  lemma CloseClientCalls(w: Wifi, t: nat, depth: nat)
    requires Wf(w) && t < 5 && (t == w.server ==> Idle(w.sockets[t].state)) && depth >= 2
    ensures CloseCalls(w, t, depth) == Some(CloseClient(w, t))
  {
    hide ReleaseSockets;
    if !Idle(w.sockets[t].state) {
      assert DisconnectCalls(w, t, depth - 1) == Some(Drop(w, t, Disconnected));
      assert SetState(Drop(w, t, Disconnected), t, Unused) == Drop(w, t, Unused);
    } else {
      assert DisconnectCalls(w, t, depth - 1) == Some(w);
    }
  }

  lemma {:induction false} RemoveReturns(w: Wifi, clients: seq<nat>, depth: nat)
    requires Wf(w) && Closable(w) && depth >= 3 && forall i :: 0 <= i < |clients| ==> clients[i] in w.clients
    ensures forall i :: 0 <= i < |clients| ==> clients[i] < 5
    ensures RemoveCalls(w, clients, depth) == Some(RemoveBackLog(w, clients))
    decreases |clients|
  {
    hide CloseClient, CloseCalls, Closable;
    if clients != [] {
      var i :| 0 <= i < |w.clients| && w.clients[i] == clients[0];
      ClosableClient(w, i);
      CloseClientCalls(w, clients[0], depth - 1);
      RemoveReturns(CloseClient(w, clients[0]), clients[1..], depth);
    }
  }

  /** Every other disconnect returns, with the result of the model. */
  lemma DisconnectReturns(w: Wifi, s: nat, depth: nat)
    requires Wf(w) && !Hangs(w, s) && depth >= 4
    ensures DisconnectCalls(w, s, depth) == Some(Disconnect(w, s))
  {
    hide RemoveBackLog, RemoveCalls;
    if s < 5 && s == w.server && !Idle(w.sockets[s].state) {
      RemoveReturns(w, w.clients, depth - 1);
    }
  }

  /** disconnect and close return if and only if the socket is not such a server. */
  lemma ReturnsIff(w: Wifi, s: nat)
    requires Wf(w)
    ensures (exists depth :: DisconnectCalls(w, s, depth).Some?) <==> !Hangs(w, s)
    ensures (exists depth :: CloseCalls(w, s, depth).Some?) <==> !Hangs(w, s)
    ensures !Hangs(w, s) ==>
              DisconnectCalls(w, s, 4) == Some(Disconnect(w, s)) && CloseCalls(w, s, 5) == Some(Close(w, s))
  {
    hide DisconnectCalls, CloseCalls, Disconnect, Close, Wf, Hangs;
    if Hangs(w, s) {
      forall depth: nat
        ensures DisconnectCalls(w, s, depth) == None && CloseCalls(w, s, depth) == None
      {
        NeverReturns(w, s, depth);
      }
    } else {
      DisconnectReturns(w, s, 4);
      CloseReturns(w, s);
    }
  }

  lemma CloseReturns(w: Wifi, s: nat)
    requires Wf(w) && !Hangs(w, s)
    ensures CloseCalls(w, s, 5) == Some(Close(w, s))
  {
    hide DisconnectCalls, Disconnect, Released, Wf, Hangs;
    WfLengths(w);
    DisconnectReturns(w, s, 4);
  }

  // ----- Runs that fail -----

  /** Every connection leads to a socket that carries exactly it: the conclusion of RunConsistent. */
  ghost predicate Consistent(w: Wifi)
    requires Wf(w)
  {
    forall c :: 0 <= c < 4 ==> Leads(w, c)
  }

  ghost predicate Leads(w: Wifi, c: nat)
    requires Wf(w) && c < 4
  {
    w.connToSock[c] != INVALID ==> Target(w, c)
  }

  predicate HangsOn(w: Wifi, e: Event)
    requires Wf(w)
  {
    (e.DoDisconnect? || e.DoClose?) && Hangs(w, e.s)
  }

  /** Somewhere in the run the tables are inconsistent, or a call does not return. */
  ghost predicate Fails(w: Wifi, es: seq<Event>)
    requires Wf(w)
    decreases |es|
  {
    !Consistent(w) || (es != [] && (HangsOn(w, es[0]) || Fails(Step(w, es[0]), es[1..])))
  }

  lemma InvHolds(w: Wifi, e: Event)
    requires Inv(w)
    ensures Wf(w) && Consistent(w) && !HangsOn(w, e)
  {
  }

  /** Proper runs do not fail. */
  lemma {:induction false} ProperRunHolds(w: Wifi, es: seq<Event>)
    requires Inv(w) && Wf(w) && ProperRun(w, es)
    ensures !Fails(w, es)
    decreases |es|
  {
    hide Inv, Wf, Step, Proper, Consistent, HangsOn;
    InvHolds(w, if es == [] then DoOpen else es[0]);
    if es != [] {
      StepInvIff(w, es[0]);
      ProperRunHolds(Step(w, es[0]), es[1..]);
    }
  }

  /** Neither connect nor bind nor listen: events that are proper whatever the state. */
  predicate Plain(e: Event) {
    !e.DoConnect? && !e.DoBind? && !e.DoListen?
  }

  /** A run of plain events that fails. */
  ghost predicate Doomed(w: Wifi, es: seq<Event>)
    requires Wf(w)
  {
    (forall i :: 0 <= i < |es| ==> Plain(es[i])) && Fails(w, es)
  }

  lemma DoomedFirst(w: Wifi, e: Event, es: seq<Event>)
    requires Wf(w) && Plain(e) && (HangsOn(w, e) || Doomed(Step(w, e), es))
    requires HangsOn(w, e) ==> es == []
    ensures Doomed(w, [e] + es)
  {
    hide Step, Wf, Consistent;
    assert ([e] + es)[1..] == es;
  }

  lemma DoomedNow(w: Wifi)
    requires Wf(w) && !Consistent(w)
    ensures Doomed(w, [])
  {
  }

  // ----- connect -----

  lemma ConnectFails(w: Wifi, s: nat)
    requires Inv(w) && Wf(w) && ConnectsTwice(w, s)
    ensures !Consistent(Connect(w, s))
  {
    var w', free := Connect(w, s), FreeConn(w, 0);
    var c :| 0 <= c < 4 && w.connToSock[c] == s;
    assert w'.connToSock[c] == s && w'.sockets[s].connId == free != c;
    assert !Leads(w', c);
  }

  // ----- bind on a connected or waiting socket -----

  ghost predicate NoneListens(w: Wifi) {
    forall t :: 0 <= t < |w.sockets| ==> w.sockets[t].state != Listening
  }

  /** Closing prepared clients takes no connection from another socket. */
  lemma {:induction false} BackLogKeeps(w: Wifi, clients: seq<nat>, s: nat, c: nat)
    requires Wf(w) && Owned(w) && NoneListens(w) && s < 5 && c < 4 && s == w.server && w.connToSock[c] == s
    requires forall i :: 0 <= i < |clients| ==> clients[i] < 5 && clients[i] != s
    ensures RemoveBackLog(w, clients).connToSock[c] == s
    decreases |clients|
  {
    hide CloseClient, Owned, Wf, NoneListens;
    WfLengths(w);
    if clients != [] {
      ClientKeeps(w, clients[0], s, c);
      BackLogKeeps(CloseClient(w, clients[0]), clients[1..], s, c);
    }
  }

  lemma ClientKeeps(w: Wifi, t: nat, s: nat, c: nat)
    requires Wf(w) && Owned(w) && NoneListens(w) && s < 5 && c < 4 && s == w.server && w.connToSock[c] == s
    requires t < 5 && t != s
    ensures var w' := CloseClient(w, t);
            Owned(w') && NoneListens(w') && w'.server == s && w'.connToSock[c] == s
  {
    var w' := CloseClient(w, t);
    assert Owns(w, t);
    forall u | 0 <= u < 5
      ensures Owns(w', u)
    {
      assert Owns(w, u);
    }
  }

  lemma BindFails(w: Wifi, s: nat) returns (es: seq<Event>)
    requires Sound(w) && Wf(w) && s < 5 && w.server == INVALID && Carries(w.sockets[s].state)
    ensures Doomed(Bind(w, s), es)
  {
    hide Owned, RemoveBackLog;
    var w1 := Bind(w, s);
    es := [DoDisconnect(s)] + [];
    if !Hangs(w1, s) {
      var c := OwnConnection(w, s);
      OwnedIgnoresServer(w, s, w.clients);
      BackLogKeeps(w1, w1.clients, s, c);
      var w2 := Step(w1, DoDisconnect(s));
      assert w2.connToSock[c] == s && w2.sockets[s].state == Disconnected;
      assert !Leads(w2, c);
      DoomedNow(w2);
    }
    DoomedFirst(w1, DoDisconnect(s), []);
  }

  lemma OwnConnection(w: Wifi, s: nat) returns (c: nat)
    requires Wf(w) && Owned(w) && s < 5 && Carries(w.sockets[s].state)
    ensures c < 4 && w.connToSock[c] == s
  {
    assert Owns(w, s);
    c := w.sockets[s].connId;
  }

  // ----- A server among its own clients, with no connection -----

  /** The server is idle and one of its own clients; the tables are still consistent. */
  ghost predicate Trap(w: Wifi, s: nat) {
    Wf(w) && s < 5 && s == w.server && s in w.clients && w.sockets[s].state == Disconnected && Consistent(w)
  }

  lemma TrapClose(w: Wifi, t: nat, s: nat)
    requires Trap(w, s) && t < 5 && t != s
    ensures Wf(w) && Trap(Close(w, t), s) && Close(w, t).sockets[t].state == Unused
    ensures forall u :: 0 <= u < 5 && u != t ==> Close(w, t).sockets[u] == w.sockets[u]
  {
    hide RemoveBackLog, ReleaseSockets;
    var w' := Close(w, t);
    forall c | 0 <= c < 4
      ensures Leads(w', c)
    {
      assert Leads(w, c);
    }
  }

  /** Closes of all sockets from k on, except s. */
  function Closes(s: nat, k: nat): seq<Event>
    decreases 5 - k
  {
    if k >= 5 then [] else (if k == s then [] else [DoClose(k)]) + Closes(s, k + 1)
  }

  /** With all other sockets closed the next connection goes to the server, and disconnect does not return. */
  lemma TrapSprings(w: Wifi, s: nat)
    requires Trap(w, s) && forall u :: 0 <= u < 5 && u != s ==> w.sockets[u].state == Unused
    ensures Wf(w) && Doomed(w, [OnNew(0)] + ([DoDisconnect(s)] + []))
  {
    assert Leads(w, 0);
    var w1 := Step(w, OnNew(0));
    assert IdleClient(w, w.clients) == Some(s);
    assert Hangs(w1, s);
    DoomedFirst(w1, DoDisconnect(s), []);
    DoomedFirst(w, OnNew(0), [DoDisconnect(s)] + []);
  }

  lemma {:induction false} TrapFails(w: Wifi, s: nat, k: nat)
    requires Trap(w, s) && k <= 5 && forall u :: 0 <= u < k && u != s ==> w.sockets[u].state == Unused
    ensures Wf(w) && Doomed(w, Closes(s, k) + ([OnNew(0)] + ([DoDisconnect(s)] + [])))
    decreases 5 - k
  {
    hide Doomed, Step, Consistent;
    var last := [OnNew(0)] + ([DoDisconnect(s)] + []);
    if k == 5 {
      TrapSprings(w, s);
      assert Closes(s, k) + last == last;
    } else if k == s {
      TrapFails(w, s, k + 1);
      assert Closes(s, k) + last == Closes(s, k + 1) + last;
    } else {
      TrapClose(w, k, s);
      StepCloses(w, k);
      TrapFails(Close(w, k), s, k + 1);
      DoomedClose(w, k, Closes(s, k + 1) + last);
      assert Closes(s, k) + last == [DoClose(k)] + (Closes(s, k + 1) + last);
    }
  }

  lemma StepCloses(w: Wifi, k: nat)
    requires Wf(w)
    ensures Step(w, DoClose(k)) == Close(w, k)
  {
  }

  lemma DoomedClose(w: Wifi, k: nat, es: seq<Event>)
    requires Wf(w) && !Hangs(w, k) && Doomed(Step(w, DoClose(k)), es)
    ensures Doomed(w, [DoClose(k)] + es)
  {
    DoomedFirst(w, DoClose(k), es);
  }

  // ----- listen on a closed server -----

  /** The same with the server closed. */
  ghost predicate ClosedTrap(w: Wifi, s: nat) {
    Wf(w) && s < 5 && s == w.server && s in w.clients && w.sockets[s].state == Unused && Consistent(w)
  }

  /** Opening sockets, lowest first, comes to the server in the end. */
  lemma {:induction false} ClosedTrapFails(w: Wifi, s: nat) returns (es: seq<Event>)
    requires ClosedTrap(w, s)
    ensures Wf(w) && Doomed(w, es)
    decreases UnusedBelow(w, s)
  {
    hide Doomed, Consistent;
    var u, w1 := FirstIn(w, Unused, 0), Open(w);
    OpenKeepsTrap(w, s);
    if u == s {
      TrapFails(w1, s, 0);
      es := Closes(s, 0) + ([OnNew(0)] + ([DoDisconnect(s)] + []));
    } else {
      OneFewer(w, u, w.clients, s);
      es := ClosedTrapFails(w1, s);
    }
    DoomedFirst(w, DoOpen, es);
    es := [DoOpen] + es;
  }

  lemma OpenKeepsTrap(w: Wifi, s: nat)
    requires ClosedTrap(w, s)
    ensures Wf(w)
    ensures var u := FirstIn(w, Unused, 0);
            && u <= s && w.sockets[u].state == Unused
            && Open(w) == SetState(w, u, Disconnected).(clients := w.clients)
            && (u == s ==> Trap(Open(w), s)) && (u != s ==> ClosedTrap(Open(w), s))
  {
    var w1 := Open(w);
    forall c | 0 <= c < 4
      ensures Leads(w1, c)
    {
      assert Leads(w, c);
    }
  }

  /** Preparing clients changes unused sockets only. */
  lemma {:induction false} PreparedKeeps(w: Wifi, n: nat)
    requires Wf(w)
    ensures var w' := PrepareClients(w, n).0;
            && w'.connToSock == w.connToSock
            && forall t :: 0 <= t < 5 && w.sockets[t].state != Unused ==> w'.sockets[t] == w.sockets[t]
    decreases n
  {
    if n > 0 {
      var s := FirstIn(w, Unused, 0);
      if s < 5 {
        PreparedKeeps(SetState(w, s, Disconnected).(clients := w.clients + [s]), n - 1);
      }
    }
  }

  ghost predicate AllIdle(w: Wifi, ids: seq<nat>)
    requires Wf(w)
  {
    forall i :: 0 <= i < |ids| ==> ids[i] < 5 && Idle(w.sockets[ids[i]].state)
  }

  /** From w to w' idle sockets have been marked unused and nothing else has changed. */
  ghost predicate OnlyReleased(w: Wifi, w': Wifi)
    requires Wf(w) && Wf(w')
  {
    && w'.connToSock == w.connToSock && w'.server == w.server && w'.clients == w.clients
    && forall t :: 0 <= t < 5 ==>
         w'.sockets[t] == w.sockets[t] || (Idle(w.sockets[t].state) && w'.sockets[t] == w.sockets[t].(state := Unused))
  }

  lemma {:induction false} ReleaseIdle(w: Wifi, ids: seq<nat>)
    requires Wf(w) && AllIdle(w, ids)
    ensures OnlyReleased(w, ReleaseSockets(w, ids))
    decreases |ids|
  {
    if ids != [] {
      ReleaseIdle(SetState(w, ids[0], Unused), ids[1..]);
    }
  }

  lemma CloseIdle(w: Wifi, t: nat)
    requires Wf(w) && AllIdle(w, w.clients) && t < 5 && Idle(w.sockets[t].state)
    ensures OnlyReleased(w, CloseClient(w, t)) && CloseClient(w, t).sockets[t].state == Unused
  {
    hide ReleaseSockets;
    ReleaseIdle(w, w.clients);
  }

  lemma {:induction false} RemoveIdle(w: Wifi, ids: seq<nat>)
    requires Wf(w) && AllIdle(w, w.clients) && AllIdle(w, ids)
    ensures OnlyReleased(w, RemoveBackLog(w, ids))
    ensures forall i :: 0 <= i < |ids| ==> RemoveBackLog(w, ids).sockets[ids[i]].state == Unused
    decreases |ids|
  {
    hide CloseClient;
    if ids != [] {
      CloseIdle(w, ids[0]);
      RemoveIdle(CloseClient(w, ids[0]), ids[1..]);
    }
  }

  lemma ReleasedConsistent(w: Wifi, w': Wifi)
    requires Wf(w) && Wf(w') && Consistent(w) && OnlyReleased(w, w')
    ensures Consistent(w')
  {
    forall c | 0 <= c < 4
      ensures Leads(w', c)
    {
      assert Leads(w, c);
    }
  }

  lemma PreparedConsistent(w: Wifi, n: nat)
    requires Wf(w) && Consistent(w)
    ensures Consistent(PrepareClients(w, n).0)
  {
    PreparedKeeps(w, n);
    var w' := PrepareClients(w, n).0;
    forall c | 0 <= c < 4
      ensures Leads(w', c)
    {
      assert Leads(w, c);
    }
  }

  lemma ListenFails(w: Wifi, s: nat, backLog: nat, cmdOk: bool) returns (es: seq<Event>)
    requires Inv(w) && Wf(w) && s == w.server && PicksServer(w, BackLog(backLog))
    ensures Doomed(Listen(w, s, backLog, cmdOk), es)
  {
    hide PrepareClients, RemoveBackLog, UnusedBelow, Doomed, Consistent;
    var n, w0 := BackLog(backLog), w.(clients := []);
    var (w1, ok) := PrepareClients(w0, n);
    SameBelow(w, w0, s);
    PreparedExactly(w0, n, s);
    var w' := Listen(w, s, backLog, cmdOk);
    if ok && cmdOk {
      es := [DoDisconnect(s)] + [];
      DoomedFirst(w', DoDisconnect(s), []);
    } else {
      InvHolds(w, DoOpen);
      SameTargets(w, w0);
      PreparedConsistent(w0, n);
      PreparedIdle(w0, n);
      RemoveIdle(w1, w1.clients);
      ReleasedConsistent(w1, w');
      es := ClosedTrapFails(w', s);
    }
  }

  lemma SameTargets(w: Wifi, w': Wifi)
    requires Wf(w) && Wf(w') && w'.sockets == w.sockets && w'.connToSock == w.connToSock && Consistent(w)
    ensures Consistent(w')
  {
    forall c | 0 <= c < 4
      ensures Leads(w', c)
    {
      assert Leads(w, c);
    }
  }

  // ----- All calls -----

  lemma ImproperFails(w: Wifi, e: Event) returns (es: seq<Event>)
    requires Sound(w) && Wf(w) && !Proper(w, e)
    ensures Doomed(Step(w, e), es)
  {
    hide Inv, Wf, Owned, Doomed, ConnectsTwice, PicksServer, Connect, Listen;
    match e
    case DoConnect(s) =>
      ConnectFails(w, s);
      DoomedNow(Connect(w, s));
      es := [];
    case DoListen(s, n, ok) => es := ListenFails(w, s, n, ok);
    case DoBind(s) => es := BusyBindFails(w, s);
  }

  lemma BusyBindFails(w: Wifi, s: nat) returns (es: seq<Event>)
    requires Sound(w) && Wf(w) && BindsBusy(w, s)
    ensures Doomed(Bind(w, s), es)
  {
    hide Owned, Doomed, Consistent;
    if Carries(w.sockets[s].state) {
      es := BindFails(w, s);
    } else {
      InvHolds(w, DoOpen);
      SameTargets(w, Bind(w, s));
      TrapFails(Bind(w, s), s, 0);
      es := Closes(s, 0) + ([OnNew(0)] + ([DoDisconnect(s)] + []));
    }
  }

  lemma {:induction false} PlainProper(w: Wifi, es: seq<Event>)
    requires Wf(w) && forall i :: 0 <= i < |es| ==> Plain(es[i])
    ensures ProperRun(w, es)
    decreases |es|
  {
    hide Step, Wf;
    if es != [] {
      PlainProper(Step(w, es[0]), es[1..]);
    }
  }

  /**
    Where every connected socket owns its connection, a call is proper if and only if no proper
    run after it ever finds inconsistent tables or a call that does not return.
   */
  lemma ProperIff(w: Wifi, e: Event)
    requires Sound(w) && Wf(w)
    ensures Proper(w, e) <==> forall es :: ProperRun(Step(w, e), es) ==> !Fails(Step(w, e), es)
  {
    hide Inv, Wf, Owned, Step, Proper, Fails, ProperRun;
    SoundWf(w);
    var w1 := Step(w, e);
    if Proper(w, e) {
      StepInvIff(w, e);
      forall es | ProperRun(w1, es)
        ensures !Fails(w1, es)
      {
        ProperRunHolds(w1, es);
      }
    } else {
      var es := ImproperFails(w, e);
      PlainProper(w1, es);
    }
  }
}
