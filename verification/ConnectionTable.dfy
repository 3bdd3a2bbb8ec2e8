/**
  The socket and connection tables of network/wifi/wifi.c, changed by API calls and by the
  callbacks of the AT parser, each taken as one atomic step.

  In connect and disconnect the result of the AT command and of the search for a free
  connection is stored in a uint32_t, so the error tests after them never hold; the model
  has no error path there.
 */
module ConnectionTable {
  import opened Machine

  const INVALID: nat := 0xffff_ffff
  const NB_SOCKETS: nat := 5
  const NB_CONNS: nat := 4

  datatype SockState = Unused | WaitingAccept | Disconnected | Connected | Listening

  datatype Socket = Socket(state: SockState, connId: nat)

  /** `clients` is server.client_ids up to back_log_clients. */
  datatype Wifi = Wifi(sockets: seq<Socket>, connToSock: seq<nat>, server: nat, clients: seq<nat>)

  predicate Wf(w: Wifi) {
    && |w.sockets| == 5 && |w.connToSock| == 4
    && (forall s :: 0 <= s < 5 ==> w.sockets[s].connId < 4 || w.sockets[s].connId == INVALID)
    && (forall c :: 0 <= c < 4 ==> w.connToSock[c] < 5 || w.connToSock[c] == INVALID)
    && (forall i :: 0 <= i < |w.clients| ==> w.clients[i] < 5)
    && (w.server < 5 || w.server == INVALID)
  }

  function Start(): Wifi {
    Wifi(seq(5, _ => Socket(Unused, 0)), seq(4, _ => INVALID), INVALID, [])
  }

  function SetState(w: Wifi, s: nat, st: SockState): Wifi
    requires s < |w.sockets|
  {
    w.(sockets := w.sockets[s := w.sockets[s].(state := st)])
  }

  // ----- Searches -----

  /** First socket in the given state, or 5. */
  function FirstIn(w: Wifi, st: SockState, from: nat): (s: nat)
    requires |w.sockets| == 5 && from <= 5
    ensures from <= s <= 5 && (s < 5 ==> w.sockets[s].state == st)
    ensures forall i :: from <= i < s ==> w.sockets[i].state != st
    decreases 5 - from
  {
    if from == 5 || w.sockets[from].state == st then from else FirstIn(w, st, from + 1)
  }

  /** First free connection, or 4. */
  function FreeConn(w: Wifi, from: nat): (c: nat)
    requires |w.connToSock| == 4 && from <= 4
    ensures from <= c <= 4 && (c < 4 ==> w.connToSock[c] == INVALID)
    ensures forall i :: from <= i < c ==> w.connToSock[i] != INVALID
    decreases 4 - from
  {
    if from == 4 || w.connToSock[from] == INVALID then from else FreeConn(w, from + 1)
  }

  /** First prepared client socket that is idle, or none. */
  function IdleClient(w: Wifi, clients: seq<nat>): (r: Option<nat>)
    requires Wf(w) && forall i :: 0 <= i < |clients| ==> clients[i] < 5
    ensures r.Some? ==> r.value in clients && w.sockets[r.value].state == Disconnected
    ensures r.None? ==> forall i :: 0 <= i < |clients| ==> w.sockets[clients[i]].state != Disconnected
  {
    if clients == [] then None
    else if w.sockets[clients[0]].state == Disconnected then Some(clients[0])
    else IdleClient(w, clients[1..])
  }

  // ----- The operations -----

  /** _wifi_release_conn. */
  function ReleaseConn(w: Wifi, s: nat): (w': Wifi)
    requires Wf(w) && s < 5
    ensures Wf(w')
  {
    var c := w.sockets[s].connId;
    if c == INVALID then w
    else w.(sockets := w.sockets[s := w.sockets[s].(connId := INVALID)], connToSock := w.connToSock[c := INVALID])
  }

  /** The socket gives up its connection and ends in the given state. */
  function Drop(w: Wifi, s: nat, st: SockState): (w': Wifi)
    requires Wf(w) && s < 5
    ensures Wf(w')
  {
    SetState(ReleaseConn(w, s), s, st)
  }

  /** wifi_socket_open. */
  function Open(w: Wifi): (w': Wifi)
    requires Wf(w)
    ensures Wf(w')
  {
    var s := FirstIn(w, Unused, 0);
    if s == 5 then w else SetState(w, s, Disconnected)
  }

  /** The sockets are marked unused, whatever they carry. */
  function ReleaseSockets(w: Wifi, ids: seq<nat>): (w': Wifi)
    requires Wf(w) && forall i :: 0 <= i < |ids| ==> ids[i] < 5
    ensures Wf(w') && w'.server == w.server && w'.clients == w.clients && w'.connToSock == w.connToSock
    ensures forall t :: 0 <= t < 5 ==> w'.sockets[t] == w.sockets[t] || w'.sockets[t].state == Unused
    decreases |ids|
  {
    if ids == [] then w else ReleaseSockets(SetState(w, ids[0], Unused), ids[1..])
  }

  /** The end of wifi_socket_close: a server that is one of its own clients takes all of them along. */
  function Released(w: Wifi, s: nat): (w': Wifi)
    requires Wf(w) && s < 5
    ensures Wf(w') && w'.server == w.server && w'.clients == w.clients
  {
    SetState(if s in w.clients && s == w.server then ReleaseSockets(w, w.clients) else w, s, Unused)
  }

  /** wifi_socket_close of a socket that is not a listening server. */
  function CloseClient(w: Wifi, s: nat): (w': Wifi)
    requires Wf(w) && s < 5
    ensures Wf(w')
  {
    match w.sockets[s].state
    case Unused => w
    case Disconnected => Released(w, s)
    case _ => Drop(w, s, Unused)
  }

  /** _remove_server_back_log. */
  function RemoveBackLog(w: Wifi, clients: seq<nat>): (w': Wifi)
    requires Wf(w) && forall i :: 0 <= i < |clients| ==> clients[i] < 5
    ensures Wf(w') && w'.server == w.server && w'.clients == w.clients
    decreases |clients|
  {
    if clients == [] then w else RemoveBackLog(CloseClient(w, clients[0]), clients[1..])
  }

  /** wifi_socket_disconnect. */
  function Disconnect(w: Wifi, s: nat): (w': Wifi)
    requires Wf(w)
    ensures Wf(w')
  {
    if s >= 5 || w.sockets[s].state == Unused || w.sockets[s].state == Disconnected then w
    else if s == w.server then SetState(RemoveBackLog(w, w.clients).(server := INVALID), s, Disconnected)
    else Drop(w, s, Disconnected)
  }

  /** wifi_socket_close. */
  function Close(w: Wifi, s: nat): (w': Wifi)
    requires Wf(w)
    ensures Wf(w')
  {
    if s >= 5 || w.sockets[s].state == Unused then w
    else Released(Disconnect(w, s), s)
  }

  /** wifi_socket_connect. */
  function Connect(w: Wifi, s: nat): (w': Wifi)
    requires Wf(w)
    ensures Wf(w')
  {
    if s >= 5 || s == w.server || w.sockets[s].state == Unused || w.sockets[s].state == Connected then w
    else
      var c := FreeConn(w, 0);
      if c == 4 then SetState(w, s, Connected)
      else w.(sockets := w.sockets[s := Socket(Connected, c)], connToSock := w.connToSock[c := s])
  }

  /** wifi_socket_bind. */
  function Bind(w: Wifi, s: nat): (w': Wifi)
    requires Wf(w)
    ensures Wf(w')
  {
    if s >= 5 || w.server != INVALID || w.sockets[s].state == Unused then w else w.(server := s)
  }

  /** The allocation loop of wifi_socket_listen: false when the sockets run out. */
  function PrepareClients(w: Wifi, n: nat): (r: (Wifi, bool))
    requires Wf(w)
    ensures Wf(r.0) && r.0.server == w.server
    decreases n
  {
    if n == 0 then (w, true)
    else
      var s := FirstIn(w, Unused, 0);
      if s == 5 then (w, false)
      else
        var w1 := SetState(w, s, Disconnected);
        PrepareClients(w1.(clients := w1.clients + [s]), n - 1)
  }

  /** wifi_socket_listen; `cmdOk` is the result of the AT command. */
  function Listen(w: Wifi, s: nat, backLog: nat, cmdOk: bool): (w': Wifi)
    requires Wf(w)
    ensures Wf(w')
  {
    if w.server == INVALID || s != w.server then w
    else
      var (w1, ok) := PrepareClients(w.(clients := []), BackLog(backLog));
      if !ok || !cmdOk then RemoveBackLog(w1, w1.clients) else SetState(w1, s, Listening)
  }

  /** wifi_socket_accept. */
  function Accept(w: Wifi, s: nat): (w': Wifi)
    requires Wf(w)
    ensures Wf(w')
  {
    if s >= 5 || w.server != s || w.sockets[s].state != Listening then w
    else
      var a := FirstIn(w, WaitingAccept, 0);
      if a == 5 then w else SetState(w, a, Connected)
  }

  /** _wifi_connection_callback on AT_NEW_CONNECTION. */
  function NewConnection(w: Wifi, c: nat): (w': Wifi)
    requires Wf(w) && c < 4
    ensures Wf(w')
  {
    if w.connToSock[c] != INVALID then w
    else
      match IdleClient(w, w.clients)
      case None => w
      case Some(s) => w.(sockets := w.sockets[s := Socket(WaitingAccept, c)], connToSock := w.connToSock[c := s])
  }

  /** _wifi_connection_callback on AT_CLOSED_CONNECTION. */
  function ClosedConnection(w: Wifi, c: nat): (w': Wifi)
    requires Wf(w) && c < 4
    ensures Wf(w')
  {
    var s := w.connToSock[c];
    if s == INVALID then w else ReleaseConn(SetState(w, s, Disconnected), s)
  }

  predicate Idle(st: SockState) {
    st == Unused || st == Disconnected
  }

  /** A server that is one of its own clients is at least not listening. */
  predicate Closable(w: Wifi)
    requires Wf(w)
  {
    w.server < 5 && w.server in w.clients ==> Idle(w.sockets[w.server].state)
  }

  /** Closing a client leaves the others closable. */
  lemma ClosableClient(w: Wifi, i: nat)
    requires Wf(w) && Closable(w) && i < |w.clients|
    ensures w.clients[i] == w.server ==> Idle(w.sockets[w.clients[i]].state)
    ensures var w' := CloseClient(w, w.clients[i]); Closable(w') && w'.server == w.server && w'.clients == w.clients
  {
    hide ReleaseSockets;
  }

  // ----- The invariant -----

  ghost predicate Inv(w: Wifi) {
    && Wf(w)
    && (forall c :: 0 <= c < 4 && w.connToSock[c] != INVALID ==> Target(w, c))
    && (w.server != INVALID ==> w.server !in w.clients && !Carries(w.sockets[w.server].state))
    && (forall s :: 0 <= s < 5 && w.sockets[s].state == Listening ==> s == w.server)
  }

  predicate Carries(st: SockState) {
    st == Connected || st == WaitingAccept
  }

  /** The socket of connection c knows it, and is connected or waiting to be accepted. */
  ghost predicate Target(w: Wifi, c: nat)
    requires Wf(w) && c < 4 && w.connToSock[c] != INVALID
  {
    var s := w.connToSock[c];
    w.sockets[s].connId == c && Carries(w.sockets[s].state)
  }

  lemma DropInv(w: Wifi, s: nat, st: SockState)
    requires Inv(w) && s < 5 && !Carries(st) && st != Listening
    ensures Inv(Drop(w, s, st))
    ensures Drop(w, s, st).server == w.server && Drop(w, s, st).clients == w.clients
    ensures forall t :: 0 <= t < 5 && t != s ==> Drop(w, s, st).sockets[t] == w.sockets[t]
  {
  }

  lemma CloseClientInv(w: Wifi, s: nat)
    requires Inv(w) && s < 5 && s != w.server
    ensures Inv(CloseClient(w, s))
    ensures CloseClient(w, s).server == w.server && CloseClient(w, s).clients == w.clients
    ensures forall t :: 0 <= t < 5 && t != s ==> CloseClient(w, s).sockets[t] == w.sockets[t]
  {
    hide Drop;
    if w.sockets[s].state != Unused && w.sockets[s].state != Disconnected {
      DropInv(w, s, Unused);
    }
  }

  /** Closing the prepared clients keeps the tables consistent and leaves the server socket alone. */
  lemma {:induction false} RemoveBackLogInv(w: Wifi, clients: seq<nat>)
    requires Inv(w) && forall i :: 0 <= i < |clients| ==> clients[i] < 5 && clients[i] != w.server
    ensures Inv(RemoveBackLog(w, clients))
    ensures w.server < 5 ==> RemoveBackLog(w, clients).sockets[w.server] == w.sockets[w.server]
    decreases |clients|
  {
    hide CloseClient, Inv, Wf;
    InvWf(w);
    if clients != [] {
      CloseClientInv(w, clients[0]);
      RemoveBackLogInv(CloseClient(w, clients[0]), clients[1..]);
    }
  }

  lemma InvWf(w: Wifi)
    requires Inv(w)
    ensures Wf(w) && |w.sockets| == 5 && |w.connToSock| == 4
  {
  }

  lemma OpenInv(w: Wifi)
    requires Inv(w)
    ensures Inv(Open(w))
  {
  }

  lemma DisconnectInv(w: Wifi, s: nat)
    requires Inv(w)
    ensures Inv(Disconnect(w, s))
    ensures s < 5 ==> !Carries(Disconnect(w, s).sockets[s].state) && Disconnect(w, s).sockets[s].state != Listening
  {
    hide Drop, RemoveBackLog;
    if s < 5 && w.sockets[s].state != Unused && w.sockets[s].state != Disconnected {
      if s == w.server {
        RemoveBackLogInv(w, w.clients);
      } else {
        DropInv(w, s, Disconnected);
        DropState(w, s, Disconnected);
      }
    }
  }

  lemma DropState(w: Wifi, s: nat, st: SockState)
    requires Wf(w) && s < 5
    ensures Drop(w, s, st).sockets[s].state == st
  {
  }

  lemma CloseInv(w: Wifi, s: nat)
    requires Inv(w)
    ensures Inv(Close(w, s))
  {
    hide Disconnect;
    if s < 5 && w.sockets[s].state != Unused {
      DisconnectInv(w, s);
    }
  }

  /** Some connection leads to the socket. */
  predicate IsTarget(w: Wifi, s: nat)
    requires |w.connToSock| == 4
  {
    exists c :: 0 <= c < 4 && w.connToSock[c] == s
  }

  /** The socket waits to be accepted on its connection while another connection is free. */
  predicate ConnectsTwice(w: Wifi, s: nat)
    requires Wf(w)
  {
    s < 5 && s != w.server && w.sockets[s].state == WaitingAccept && IsTarget(w, s) && FreeConn(w, 0) < 4
  }

  /**
    wifi_socket_connect keeps the tables consistent exactly when the socket is not one that
    waits to be accepted on a connection while another connection is free: the code only
    refuses connected sockets.
   */
  lemma ConnectSafeIff(w: Wifi, s: nat)
    requires Inv(w)
    ensures Inv(Connect(w, s)) <==> !ConnectsTwice(w, s)
  {
    if s < 5 && s != w.server && w.sockets[s].state == WaitingAccept && FreeConn(w, 0) < 4 {
      var w', free := Connect(w, s), FreeConn(w, 0);
      if IsTarget(w, s) {
        var c :| 0 <= c < 4 && w.connToSock[c] == s;
        assert w'.connToSock[c] == s && w'.sockets[s].connId == free != c;
        assert !Target(w', c);
      }
    }
  }

  /** The socket that becomes the server is in use: connected, waiting, or prepared for clients. */
  predicate BindsBusy(w: Wifi, s: nat)
    requires Wf(w)
  {
    s < 5 && w.server == INVALID && (Carries(w.sockets[s].state) || (s in w.clients && w.sockets[s].state != Unused))
  }

  /** wifi_socket_bind keeps the invariant exactly when the socket is not in use. */
  lemma BindSafeIff(w: Wifi, s: nat)
    requires Inv(w)
    ensures Inv(Bind(w, s)) <==> !BindsBusy(w, s)
  {
  }

  // ----- Listening -----

  /** How many of the first t sockets are unused. */
  function UnusedBelow(w: Wifi, t: nat): nat
    requires |w.sockets| == 5 && t <= 5
  {
    if t == 0 then 0 else UnusedBelow(w, t - 1) + (if w.sockets[t - 1].state == Unused then 1 else 0)
  }

  lemma {:induction false} NoneBelow(w: Wifi, t: nat)
    requires |w.sockets| == 5 && t <= 5 && forall i :: 0 <= i < t ==> w.sockets[i].state != Unused
    ensures UnusedBelow(w, t) == 0
  {
    if t > 0 {
      NoneBelow(w, t - 1);
    }
  }

  lemma {:induction false} OneFewer(w: Wifi, s: nat, clients: seq<nat>, t: nat)
    requires |w.sockets| == 5 && s < 5 && t <= 5 && w.sockets[s].state == Unused
    ensures UnusedBelow(SetState(w, s, Disconnected).(clients := clients), t)
            == UnusedBelow(w, t) - (if s < t then 1 else 0)
  {
    if t > 0 {
      OneFewer(w, s, clients, t - 1);
    }
  }

  /** The preparation of clients takes exactly the first n unused sockets. */
  lemma {:induction false} PreparedExactly(w: Wifi, n: nat, t: nat)
    requires Wf(w) && t < 5
    ensures t in PrepareClients(w, n).0.clients <==>
            t in w.clients || (w.sockets[t].state == Unused && UnusedBelow(w, t) < n)
    decreases n
  {
    hide Wf;
    if n > 0 {
      WfLengths(w);
      var s := FirstIn(w, Unused, 0);
      if s < 5 {
        var w1 := SetState(w, s, Disconnected).(clients := w.clients + [s]);
        NextPrepared(w, s);
        PreparedExactly(w1, n - 1, t);
        OneFewer(w, s, w.clients + [s], t);
        NoneBelow(w, s);
      }
    }
  }

  lemma WfLengths(w: Wifi)
    requires Wf(w)
    ensures |w.sockets| == 5 && |w.connToSock| == 4
  {
  }

  lemma NextPrepared(w: Wifi, s: nat)
    requires Wf(w) && s < 5
    ensures Wf(SetState(w, s, Disconnected).(clients := w.clients + [s]))
  {
  }

  predicate ClientsIdle(w: Wifi)
    requires Wf(w)
  {
    forall i :: 0 <= i < |w.clients| ==> w.sockets[w.clients[i]].state == Disconnected
  }

  /** Prepared sockets are idle. */
  lemma {:induction false} PreparedIdle(w: Wifi, n: nat)
    requires Wf(w) && ClientsIdle(w)
    ensures ClientsIdle(PrepareClients(w, n).0)
    decreases n
  {
    hide ClientsIdle, Wf;
    if n > 0 {
      WfLengths(w);
      var s := FirstIn(w, Unused, 0);
      if s < 5 {
        NextIdle(w, s);
        PreparedIdle(SetState(w, s, Disconnected).(clients := w.clients + [s]), n - 1);
      }
    }
  }

  lemma NextIdle(w: Wifi, s: nat)
    requires Wf(w) && ClientsIdle(w) && s < 5
    ensures var w1 := SetState(w, s, Disconnected).(clients := w.clients + [s]); Wf(w1) && ClientsIdle(w1)
  {
  }

  /** The server is among the first n unused sockets, and would become its own client. */
  predicate PicksServer(w: Wifi, n: nat)
    requires Wf(w)
  {
    w.server < 5 && w.sockets[w.server].state == Unused && UnusedBelow(w, w.server) < n
  }

  lemma {:induction false} PrepareClientsInv(w: Wifi, n: nat)
    requires Inv(w) && Wf(w) && !PicksServer(w, n)
    ensures var w' := PrepareClients(w, n).0;
            Inv(w') && w'.server == w.server && (w.server < 5 ==> w'.sockets[w.server] == w.sockets[w.server])
    decreases n
  {
    hide Inv, Wf;
    WfLengths(w);
    if n > 0 {
      var s := FirstIn(w, Unused, 0);
      if s < 5 {
        var w1 := SetState(w, s, Disconnected).(clients := w.clients + [s]);
        NextPrepared(w, s);
        NoneBelow(w, s);
        if w.server < 5 {
          OneFewer(w, s, w.clients + [s], w.server);
        }
        PreparedOneInv(w, s);
        PrepareClientsInv(w1, n - 1);
      }
    }
  }

  lemma PreparedOneInv(w: Wifi, s: nat)
    requires Inv(w) && s < 5 && w.sockets[s].state == Unused && s != w.server
    ensures Inv(SetState(w, s, Disconnected).(clients := w.clients + [s]))
  {
  }

  function BackLog(n: nat): nat {
    if n == 0 then 4 else Min(n, 4)
  }

  /** wifi_socket_listen keeps the invariant exactly when it does not take the closed server for a client. */
  lemma ListenSafeIff(w: Wifi, s: nat, backLog: nat, cmdOk: bool)
    requires Inv(w)
    ensures Wf(w) && (Inv(Listen(w, s, backLog, cmdOk)) <==> !(s == w.server && PicksServer(w, BackLog(backLog))))
  {
    hide PrepareClients, RemoveBackLog, UnusedBelow;
    if w.server != INVALID && s == w.server {
      var n, w0 := BackLog(backLog), w.(clients := []);
      var (w1, ok) := PrepareClients(w0, n);
      SameBelow(w, w0, s);
      PreparedExactly(w0, n, s);
      if !PicksServer(w, n) {
        PrepareClientsInv(w0, n);
        if !ok || !cmdOk {
          RemoveBackLogInv(w1, w1.clients);
        }
      }
    }
  }

  lemma {:induction false} SameBelow(w: Wifi, w': Wifi, t: nat)
    requires |w.sockets| == 5 && w'.sockets == w.sockets && t <= 5
    ensures UnusedBelow(w', t) == UnusedBelow(w, t)
  {
    if t > 0 {
      SameBelow(w, w', t - 1);
    }
  }

  lemma AcceptInv(w: Wifi, s: nat)
    requires Inv(w)
    ensures Inv(Accept(w, s))
  {
  }

  lemma NewConnectionInv(w: Wifi, c: nat)
    requires Inv(w) && c < 4
    ensures Inv(NewConnection(w, c))
  {
  }

  lemma ClosedConnectionInv(w: Wifi, c: nat)
    requires Inv(w) && c < 4
    ensures Inv(ClosedConnection(w, c))
  {
  }

  // ----- Runs -----

  datatype Event =
    | DoOpen | DoClose(s: nat) | DoConnect(s: nat) | DoDisconnect(s: nat) | DoBind(s: nat)
    | DoListen(s: nat, backLog: nat, cmdOk: bool) | DoAccept(s: nat)
    | OnNew(c: nat) | OnClosed(c: nat)

  function Step(w: Wifi, e: Event): (w': Wifi)
    requires Wf(w)
    ensures Wf(w')
  {
    match e
    case DoOpen => Open(w)
    case DoClose(s) => Close(w, s)
    case DoConnect(s) => Connect(w, s)
    case DoDisconnect(s) => Disconnect(w, s)
    case DoBind(s) => Bind(w, s)
    case DoListen(s, n, ok) => Listen(w, s, n, ok)
    case DoAccept(s) => Accept(w, s)
    case OnNew(c) => if c < 4 then NewConnection(w, c) else w
    case OnClosed(c) => if c < 4 then ClosedConnection(w, c) else w
  }

  /** The calls that respect the tables; by StepInvIff there are no others. */
  predicate Proper(w: Wifi, e: Event)
    requires Wf(w)
  {
    match e
    case DoConnect(s) => !ConnectsTwice(w, s)
    case DoBind(s) => !BindsBusy(w, s)
    case DoListen(s, n, _) => !(s == w.server && PicksServer(w, BackLog(n)))
    case _ => true
  }

  predicate ProperRun(w: Wifi, es: seq<Event>)
    requires Wf(w)
    decreases |es|
  {
    es == [] || (Proper(w, es[0]) && ProperRun(Step(w, es[0]), es[1..]))
  }

  function Run(w: Wifi, es: seq<Event>): (w': Wifi)
    requires Wf(w)
    ensures Wf(w')
    decreases |es|
  {
    if es == [] then w else Run(Step(w, es[0]), es[1..])
  }

  /** A call or callback keeps the invariant if and only if it is proper. */
  lemma StepInvIff(w: Wifi, e: Event)
    requires Inv(w) && Wf(w)
    ensures Inv(Step(w, e)) <==> Proper(w, e)
  {
    hide Inv, Wf, Open, Close, Connect, Disconnect, Bind, Listen, Accept, NewConnection, ClosedConnection,
      ConnectsTwice, BindsBusy, PicksServer;
    match e
    case DoOpen => OpenInv(w);
    case DoClose(s) => CloseInv(w, s);
    case DoConnect(s) => ConnectSafeIff(w, s);
    case DoDisconnect(s) => DisconnectInv(w, s);
    case DoBind(s) => BindSafeIff(w, s);
    case DoListen(s, n, ok) => ListenSafeIff(w, s, n, ok);
    case DoAccept(s) => AcceptInv(w, s);
    case OnNew(c) => if c < 4 { NewConnectionInv(w, c); }
    case OnClosed(c) => if c < 4 { ClosedConnectionInv(w, c); }
  }

  lemma {:induction false} RunInv(w: Wifi, es: seq<Event>)
    requires Inv(w) && Wf(w) && ProperRun(w, es)
    ensures Inv(Run(w, es))
    decreases |es|
  {
    hide Inv, Wf, Step, Proper;
    if es != [] {
      StepInvIff(w, es[0]);
      RunInv(Step(w, es[0]), es[1..]);
    }
  }

  /**
    In every proper run from initialisation each connection leads to a socket that carries
    exactly that connection and is connected or waiting to be accepted, never to an unused
    or disconnected one, and no two connections lead to the same socket.
   */
  lemma RunConsistent(es: seq<Event>)
    requires ProperRun(Start(), es)
    ensures var w := Run(Start(), es);
            && (forall c :: 0 <= c < 4 && w.connToSock[c] != INVALID ==>
                 var s := w.connToSock[c];
                 s < 5 && w.sockets[s].connId == c && Carries(w.sockets[s].state))
            && (forall c, c' :: 0 <= c < c' < 4 && w.connToSock[c] != INVALID ==> w.connToSock[c] != w.connToSock[c'])
  {
    hide Run, ProperRun;
    assert Inv(Start());
    RunInv(Start(), es);
    var w := Run(Start(), es);
    assert forall c :: 0 <= c < 4 && w.connToSock[c] != INVALID ==> Target(w, c);
  }
}
