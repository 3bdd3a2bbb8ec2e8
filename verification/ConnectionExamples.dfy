/**
  Concrete runs of the calls and callbacks of network/wifi/wifi.c, from initialisation on, that
  leave the tables in a state they should not be in: one for each condition of modules
  ConnectionTable and ConnectionOwnership that a caller has to respect.
 */
module ConnectionExamples {
  import opened Machine
  import opened ConnectionTable
  import opened ConnectionFailures

  // ----- An overfull run -----

  function Opened(k: nat): Wifi {
    Wifi(seq(5, i => Socket(if i < k then Disconnected else Unused, 0)), seq(4, _ => INVALID), INVALID, [])
  }

  function Taken(k: nat): Wifi {
    Wifi(seq(5, i requires 0 <= i => if i < k then Socket(Connected, i) else Socket(Disconnected, 0)),
         seq(4, i requires 0 <= i => if i < k then i else INVALID), INVALID, [])
  }

  function Opens(n: nat): seq<Event> {
    if n == 0 then [] else [DoOpen] + Opens(n - 1)
  }

  /** Connects of the sockets k, ..., 3. */
  function Connects(k: nat): seq<Event>
    decreases 4 - k
  {
    if k >= 4 then [] else [DoConnect(k)] + Connects(k + 1)
  }

  lemma RunFirst(w: Wifi, e: Event, es: seq<Event>)
    requires Wf(w) && Proper(w, e)
    ensures Run(w, [e] + es) == Run(Step(w, e), es)
    ensures ProperRun(w, [e] + es) <==> ProperRun(Step(w, e), es)
  {
    hide Step, Wf, Proper;
    assert ([e] + es)[1..] == es;
  }

  lemma {:induction false} RunOpens(n: nat, rest: seq<Event>)
    requires n <= 5
    ensures Wf(Opened(5 - n)) && Wf(Opened(5))
    ensures Run(Opened(5 - n), Opens(n) + rest) == Run(Opened(5), rest)
    ensures ProperRun(Opened(5 - n), Opens(n) + rest) <==> ProperRun(Opened(5), rest)
  {
    hide Run, ProperRun;
    if n == 0 {
      assert Opens(0) + rest == rest;
    } else {
      RunOpens(n - 1, rest);
      assert Opens(n) + rest == [DoOpen] + (Opens(n - 1) + rest);
      RunFirst(Opened(5 - n), DoOpen, Opens(n - 1) + rest);
      OpenNext(5 - n);
    }
  }

  lemma OpenNext(k: nat)
    requires k < 5
    ensures Wf(Opened(k)) && Open(Opened(k)) == Opened(k + 1)
  {
    assert FirstIn(Opened(k), Unused, 0) == k;
  }

  lemma {:induction false} RunConnects(k: nat, rest: seq<Event>)
    requires k <= 4
    ensures Wf(Taken(k)) && Wf(Taken(4))
    ensures Run(Taken(k), Connects(k) + rest) == Run(Taken(4), rest)
    ensures ProperRun(Taken(k), Connects(k) + rest) <==> ProperRun(Taken(4), rest)
    decreases 4 - k
  {
    hide Run, ProperRun;
    if k == 4 {
      assert Connects(4) + rest == rest;
    } else {
      RunConnects(k + 1, rest);
      assert Connects(k) + rest == [DoConnect(k)] + (Connects(k + 1) + rest);
      RunFirst(Taken(k), DoConnect(k), Connects(k + 1) + rest);
      ConnectNext(k);
    }
  }

  lemma ConnectNext(k: nat)
    requires k < 4
    ensures Wf(Taken(k)) && Connect(Taken(k), k) == Taken(k + 1)
  {
    assert FreeConn(Taken(k), 0) == k;
  }

  /** Five sockets, four connections: undoing the fifth connect takes the first socket's connection away. */
  lemma ConnectionLost()
    ensures var es := Opens(5) + (Connects(0) + [DoConnect(4), DoDisconnect(4)]);
            var w := Run(Start(), es);
            && ProperRun(Start(), es)
            && w.sockets[0] == Socket(Connected, 0) && w.connToSock[0] == INVALID
  {
    hide Run, ProperRun;
    var last := [DoConnect(4), DoDisconnect(4)];
    assert Start() == Opened(0) && Opened(5) == Taken(0);
    RunOpens(5, Connects(0) + last);
    RunConnects(0, last);
    LastTwo();
  }

  lemma LastTwo()
    ensures Wf(Taken(4))
    ensures var last := [DoConnect(4), DoDisconnect(4)];
            var w := Run(Taken(4), last);
            && ProperRun(Taken(4), last)
            && w.sockets[0] == Socket(Connected, 0) && w.connToSock[0] == INVALID
  {
    var w := Taken(4);
    assert FreeConn(w, 0) == 4;
    var w1 := Connect(w, 4);
    assert w1.sockets[4] == Socket(Connected, 0);
    assert [DoConnect(4), DoDisconnect(4)] == [DoConnect(4)] + ([DoDisconnect(4)] + []);
    RunFirst(w, DoConnect(4), [DoDisconnect(4)] + []);
    RunFirst(w1, DoDisconnect(4), []);
  }

  // ----- A socket connected twice -----

  /** A server with one prepared client, on which a connection waits to be accepted. */
  function Waiting(): Wifi {
    Wifi([Socket(Listening, 0), Socket(WaitingAccept, 0), Socket(Unused, 0), Socket(Unused, 0), Socket(Unused, 0)],
         [1, INVALID, INVALID, INVALID], 0, [1])
  }

  lemma WaitingReached()
    ensures var es := [DoOpen] + ([DoBind(0)] + ([DoListen(0, 1, true)] + ([OnNew(0)] + [])));
            ProperRun(Start(), es) && Run(Start(), es) == Waiting()
  {
    hide Run, ProperRun, PrepareClients, Step;
    var w1, w2 := Opened(1), Opened(1).(server := 0);
    ListensOn(w2);
    ClientArrives();
    assert Start() == Opened(0);
    OpenNext(0);
    StepOpens(Start());
    RunFirst(Start(), DoOpen, [DoBind(0)] + ([DoListen(0, 1, true)] + ([OnNew(0)] + [])));
    StepBinds(w1);
    RunFirst(w1, DoBind(0), [DoListen(0, 1, true)] + ([OnNew(0)] + []));
    RunFirst(w2, DoListen(0, 1, true), [OnNew(0)] + []);
    RunFirst(Ready(), OnNew(0), []);
    RunNone(Waiting());
  }

  lemma StepOpens(w: Wifi)
    requires Wf(w)
    ensures Step(w, DoOpen) == Open(w)
  {
  }

  lemma StepBinds(w: Wifi)
    requires w == Opened(1)
    ensures Wf(w) && Step(w, DoBind(0)) == w.(server := 0) && Proper(w, DoBind(0))
  {
  }

  /** A server that listens with one prepared client. */
  function Ready(): Wifi {
    Wifi([Socket(Listening, 0), Socket(Disconnected, 0), Socket(Unused, 0), Socket(Unused, 0), Socket(Unused, 0)],
         [INVALID, INVALID, INVALID, INVALID], 0, [1])
  }

  lemma ListensOn(w2: Wifi)
    requires w2 == Opened(1).(server := 0)
    ensures Wf(w2) && Proper(w2, DoListen(0, 1, true)) && Step(w2, DoListen(0, 1, true)) == Ready()
  {
    hide PrepareClients, PicksServer;
    PreparesOne(w2);
    NotPicked(w2);
  }

  lemma NotPicked(w2: Wifi)
    requires w2 == Opened(1).(server := 0)
    ensures Wf(w2) && !PicksServer(w2, 1)
  {
  }

  lemma PreparesOne(w2: Wifi)
    requires w2 == Opened(1).(server := 0)
    ensures Wf(w2) && PrepareClients(w2, 1) == (SetState(w2, 1, Disconnected).(clients := [1]), true)
  {
    assert FirstIn(w2, Unused, 0) == 1;
    var w1 := SetState(w2, 1, Disconnected).(clients := [1]);
    assert w2.clients + [1] == [1];
    assert PrepareClients(w1, 0) == (w1, true);
    assert PrepareClients(w2, 1) == PrepareClients(w1, 0);
  }

  lemma ClientArrives()
    ensures Wf(Ready()) && Proper(Ready(), OnNew(0)) && Step(Ready(), OnNew(0)) == Waiting()
  {
    assert IdleClient(Ready(), [1]) == Some(1);
  }

  lemma RunNone(w: Wifi)
    requires Wf(w)
    ensures Run(w, []) == w && ProperRun(w, [])
  {
  }

  /** connect on the waiting socket leaves two connections leading to it. */
  lemma ConnectedTwice()
    ensures var es := [DoOpen] + ([DoBind(0)] + ([DoListen(0, 1, true)] + ([OnNew(0)] + [])));
            var w := Run(Start(), es);
            var w' := Connect(w, 1);
            ProperRun(Start(), es) && Inv(w) && !Inv(w') && w'.connToSock[0] == w'.connToSock[1] == 1
  {
    hide Run, ProperRun;
    WaitingReached();
    var w := Waiting();
    assert FreeConn(w, 0) == 1;
    assert !Target(Connect(w, 1), 0);
  }

  /** bind on a connected socket, and its disconnect: the connection leads to a disconnected socket. */
  lemma BoundWhileConnected()
    ensures var es := [DoOpen] + ([DoConnect(0)] + []);
            var w := Run(Start(), es);
            var w' := Disconnect(Bind(w, 0), 0);
            && ProperRun(Start(), es)
            && w'.connToSock[0] == 0 && w'.sockets[0].state == Disconnected && !Consistent(w')
  {
    hide Run, ProperRun;
    var w1 := Opened(1);
    assert Start() == Opened(0);
    OpenNext(0);
    RunFirst(Start(), DoOpen, [DoConnect(0)] + []);
    assert FreeConn(w1, 0) == 0;
    RunFirst(w1, DoConnect(0), []);
    var w2 := Connect(w1, 0);
    RunNone(w2);
    DisconnectsBound(w2);
  }

  lemma DisconnectsBound(w: Wifi)
    requires Wf(w) && w.server == INVALID && w.clients == []
    requires w.sockets[0] == Socket(Connected, 0) && w.connToSock[0] == 0
    ensures var w' := Disconnect(Bind(w, 0), 0);
            w'.connToSock[0] == 0 && w'.sockets[0].state == Disconnected && !Consistent(w')
  {
    assert !Leads(Disconnect(Bind(w, 0), 0), 0);
  }

  /**
    listen after the bound socket was closed takes the server for its own client; disconnect and
    close of it do not return.
   */
  lemma ListenedAfterClose(depth: nat)
    ensures var es := [DoOpen] + ([DoBind(0)] + ([DoClose(0)] + []));
            var w := Listen(Run(Start(), es), 0, 1, true);
            && ProperRun(Start(), es)
            && w.server == 0 && w.clients == [0] && w.sockets[0].state == Listening
            && DisconnectCalls(w, 0, depth) == None && CloseCalls(w, 0, depth) == None
  {
    hide Run, ProperRun, Step, DisconnectCalls, CloseCalls;
    var w1, w2 := Opened(1), Opened(1).(server := 0);
    assert Start() == Opened(0);
    OpenNext(0);
    StepOpens(Start());
    RunFirst(Start(), DoOpen, [DoBind(0)] + ([DoClose(0)] + []));
    StepBinds(w1);
    RunFirst(w1, DoBind(0), [DoClose(0)] + []);
    ClosesServer(w2);
    var w3 := Opened(0).(server := 0);
    RunFirst(w2, DoClose(0), []);
    RunNone(w3);
    ListensOnItself(w3);
    NeverReturns(Listen(w3, 0, 1, true), 0, depth);
  }

  lemma ClosesServer(w2: Wifi)
    requires w2 == Opened(1).(server := 0)
    ensures Wf(w2) && Step(w2, DoClose(0)) == Opened(0).(server := 0)
  {
  }

  lemma ListensOnItself(w3: Wifi)
    requires w3 == Opened(0).(server := 0)
    ensures Wf(w3) && Hangs(Listen(w3, 0, 1, true), 0)
    ensures var w := Listen(w3, 0, 1, true);
            w.server == 0 && w.clients == [0] && w.sockets[0].state == Listening
  {
    assert FirstIn(w3, Unused, 0) == 0;
    var w1 := SetState(w3, 0, Disconnected).(clients := [0]);
    assert w3.clients + [0] == [0];
    assert PrepareClients(w1, 0) == (w1, true);
    assert PrepareClients(w3, 1) == PrepareClients(w1, 0);
  }
}
