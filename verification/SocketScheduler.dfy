/**
  Round-robin service of client sockets in iio/iio.c: a FIFO of socket pointers kept in a
  circular buffer, and one current socket per iio_step.
 */
module SocketScheduler {
  import opened Machine

  /** A socket pointer: neither NULL nor the marker (void *)-1. */
  type Sock = s: nat | 0 < s < 0xffff_ffff witness 1

  const MAX_SOCKET_TO_HANDLE: nat := 4

  /** desc->current_sock: NULL, (void *)-1 after a disconnection, or a client. */
  datatype Current = NoSock | Gone | Client(s: Sock)

  /** One answer of socket_accept. */
  datatype Accept = EAgain | Error | New(s: Sock)

  /** What a step meets: the answers of socket_accept, and whether reading finds the peer gone. */
  datatype Input = Input(accepts: seq<Accept>, disconnect: bool)

  datatype Sched = Sched(queue: seq<Sock>, current: Current)

  /** How the accept loop of _get_next_socket ends; Waiting: it would go on waiting. */
  datatype Ending = Ready | Failed | Waiting

  datatype Admitted = Admitted(queue: seq<Sock>, ending: Ending)

  /** The accept loop: every new socket is queued; with none at all it waits for the first. */
  function Admit(queue: seq<Sock>, accepts: seq<Accept>): Admitted
    decreases |accepts|
  {
    if accepts == [] then Admitted(queue, Waiting)
    else
      match accepts[0]
      case EAgain => if queue == [] then Admit(queue, accepts[1..]) else Admitted(queue, Ready)
      case Error => Admitted(queue, Failed)
      case New(s) => Admit(queue + [s], accepts[1..])
  }

  /** iio_step puts the current client, if there is one, at the end of the queue. */
  function Requeued(y: Sched): seq<Sock> {
    if y.current.Client? then y.queue + [y.current.s] else y.queue
  }

  /** iio_step up to the first network_read of its command. */
  function Step(y: Sched, i: Input): Sched {
    var a := Admit(Requeued(y), i.accepts);
    if a.ending == Ready && a.queue != [] then
      Sched(a.queue[1..], if i.disconnect then Gone else Client(a.queue[0]))
    else Sched(a.queue, NoSock)
  }

  /** The client a step serves. */
  function Served(y: Sched, i: Input): Option<Sock> {
    var a := Admit(Requeued(y), i.accepts);
    if a.ending == Ready && a.queue != [] then Some(a.queue[0]) else None
  }

  function Run(y: Sched, inputs: seq<Input>): Sched
    decreases |inputs|
  {
    if inputs == [] then y else Run(Step(y, inputs[0]), inputs[1..])
  }

  // ----- Bookkeeping over runs -----

  function Accepted(queue: seq<Sock>, accepts: seq<Accept>): seq<Sock>
    decreases |accepts|
  {
    if accepts == [] then []
    else
      match accepts[0]
      case EAgain => if queue == [] then Accepted(queue, accepts[1..]) else []
      case Error => []
      case New(s) => [s] + Accepted(queue + [s], accepts[1..])
  }

  lemma {:induction false} AdmitAppends(queue: seq<Sock>, accepts: seq<Accept>)
    ensures Admit(queue, accepts).queue == queue + Accepted(queue, accepts)
    ensures Admit(queue, accepts).ending == Ready ==> Admit(queue, accepts).queue != []
    decreases |accepts|
  {
    if accepts != [] {
      match accepts[0]
      case EAgain =>
        if queue == [] {
          AdmitAppends(queue, accepts[1..]);
        } else {
          assert queue + [] == queue;
        }
      case Error => assert queue + [] == queue;
      case New(s) =>
        AdmitAppends(queue + [s], accepts[1..]);
        assert queue + [s] + Accepted(queue + [s], accepts[1..]) == queue + ([s] + Accepted(queue + [s], accepts[1..]));
    } else {
      assert queue + [] == queue;
    }
  }

  /** The live clients: the queue and the current one. */
  function Live(y: Sched): multiset<Sock> {
    multiset(y.queue) + (if y.current.Client? then multiset{y.current.s} else multiset{})
  }

  /** All sockets accepted, and all sockets found disconnected, in a run. */
  function AcceptedIn(y: Sched, inputs: seq<Input>): multiset<Sock>
    decreases |inputs|
  {
    if inputs == [] then multiset{}
    else multiset(Accepted(Requeued(y), inputs[0].accepts)) + AcceptedIn(Step(y, inputs[0]), inputs[1..])
  }

  function RemovedIn(y: Sched, inputs: seq<Input>): multiset<Sock>
    decreases |inputs|
  {
    if inputs == [] then multiset{}
    else
      (if inputs[0].disconnect && Served(y, inputs[0]).Some? then multiset{Served(y, inputs[0]).value} else multiset{})
      + RemovedIn(Step(y, inputs[0]), inputs[1..])
  }

  lemma StepConserves(y: Sched, i: Input)
    ensures Live(Step(y, i)) + (if i.disconnect && Served(y, i).Some? then multiset{Served(y, i).value} else multiset{})
         == Live(y) + multiset(Accepted(Requeued(y), i.accepts))
  {
    hide Admit, Accepted, Live, Requeued;
    var q := Requeued(y);
    var a := Admit(q, i.accepts);
    AdmitAppends(q, i.accepts);
    RequeuedLive(y);
    MultisetAppend(q, Accepted(q, i.accepts));
    if a.ending == Ready {
      FirstOut(a.queue);
      LiveServed(a.queue, if i.disconnect then Gone else Client(a.queue[0]));
    } else {
      LiveServed(a.queue, NoSock);
    }
  }

  lemma RequeuedLive(y: Sched)
    ensures multiset(Requeued(y)) == Live(y)
  {
  }

  lemma LiveServed(q: seq<Sock>, c: Current)
    ensures Live(Sched(q, c)) == multiset(q) + (if c.Client? then multiset{c.s} else multiset{})
    ensures q != [] ==> Live(Sched(q[1..], c)) == multiset(q[1..]) + (if c.Client? then multiset{c.s} else multiset{})
  {
  }

  lemma MultisetAppend(a: seq<Sock>, b: seq<Sock>)
    ensures multiset(a + b) == multiset(a) + multiset(b)
  {
  }

  lemma FirstOut(q: seq<Sock>)
    requires q != []
    ensures multiset(q) == multiset(q[1..]) + multiset{q[0]}
  {
    assert q == [q[0]] + q[1..];
  }

  lemma Combine(l0: multiset<Sock>, l1: multiset<Sock>, l2: multiset<Sock>, r1: multiset<Sock>, r2: multiset<Sock>,
                a1: multiset<Sock>, a2: multiset<Sock>)
    requires l1 + r1 == l0 + a1 && l2 + r2 == l1 + a2
    ensures l2 + (r1 + r2) == l0 + (a1 + a2)
  {
    assert l2 + (r1 + r2) == l2 + r2 + r1 == l1 + a2 + r1 == l1 + r1 + a2 == l0 + a1 + a2;
  }

  /** In every run the live clients are those accepted and not removed, each as often as it came. */
  lemma {:induction false} RunConserves(y: Sched, inputs: seq<Input>)
    ensures Live(Run(y, inputs)) + RemovedIn(y, inputs) == Live(y) + AcceptedIn(y, inputs)
    decreases |inputs|
  {
    hide Step, Served, Accepted, Live;
    if inputs != [] {
      var i, y1 := inputs[0], Step(y, inputs[0]);
      StepConserves(y, i);
      RunConserves(y1, inputs[1..]);
      var r1: multiset<Sock> := if i.disconnect && Served(y, i).Some? then multiset{Served(y, i).value} else multiset{};
      Combine(Live(y), Live(y1), Live(Run(y, inputs)), r1, RemovedIn(y1, inputs[1..]),
              multiset(Accepted(Requeued(y), i.accepts)), AcceptedIn(y1, inputs[1..]));
    }
  }

  /** So a socket accepted once and not removed is held exactly once. */
  lemma HeldOnce(inputs: seq<Input>, s: Sock)
    requires AcceptedIn(Sched([], NoSock), inputs)[s] == 1 && RemovedIn(Sched([], NoSock), inputs)[s] == 0
    ensures Live(Run(Sched([], NoSock), inputs))[s] == 1
  {
    hide Run, AcceptedIn, RemovedIn;
    var y := Sched([], NoSock);
    RunConserves(y, inputs);
    assert Live(y) == multiset{};
    var live, gone, came := Live(Run(y, inputs)), RemovedIn(y, inputs), AcceptedIn(y, inputs);
    assert (live + gone)[s] == live[s] + gone[s];
    assert (Live(y) + came)[s] == came[s];
  }

  // ----- Service order -----

  predicate Serves(y: Sched, inputs: seq<Input>)
    decreases |inputs|
  {
    inputs == [] || (Served(y, inputs[0]).Some? && Serves(Step(y, inputs[0]), inputs[1..]))
  }

  /** A step moves every queued socket one place forward, and serves the one in front. */
  lemma StepAdvances(y: Sched, i: Input, k: nat)
    requires k < |y.queue| && Served(y, i).Some?
    ensures k == 0 ==> Served(y, i) == Some(y.queue[0])
    ensures k > 0 ==> k - 1 < |Step(y, i).queue| && Step(y, i).queue[k - 1] == y.queue[k]
  {
    hide Admit, Accepted;
    AdmitAppends(Requeued(y), i.accepts);
  }

  /** A step that ends in an accept error leaves every queued socket where it is. */
  lemma StepHolds(y: Sched, i: Input, k: nat)
    requires k < |y.queue| && Served(y, i).None?
    ensures k < |Step(y, i).queue| && Step(y, i).queue[k] == y.queue[k]
  {
    hide Admit, Accepted;
    AdmitAppends(Requeued(y), i.accepts);
  }

  /** Whatever arrives or leaves meanwhile, the socket at position k is served by serving step k + 1. */
  lemma {:induction false} ServedInTurn(y: Sched, inputs: seq<Input>, k: nat)
    requires k < |y.queue| && |inputs| == k + 1 && Serves(y, inputs)
    ensures Served(Run(y, inputs[..k]), inputs[k]) == Some(y.queue[k])
    decreases k
  {
    hide Step, Served;
    StepAdvances(y, inputs[0], k);
    if k > 0 {
      var rest := inputs[1..];
      ServedInTurn(Step(y, inputs[0]), rest, k - 1);
      assert inputs[..k][1..] == rest[..k - 1] && inputs[..k][0] == inputs[0];
    }
  }

  // ----- When the accept loop ends -----

  /** The sockets among some answers, in order. */
  function News(accepts: seq<Accept>): seq<Sock> {
    if accepts == [] then []
    else (if accepts[0].New? then [accepts[0].s] else []) + News(accepts[1..])
  }

  /** The answer at n ends the loop: an error, or nothing more to accept with a client at hand. */
  predicate Stops(queue: seq<Sock>, accepts: seq<Accept>, n: nat)
    requires n < |accepts|
  {
    accepts[n] == Error || (accepts[n] == EAgain && (queue != [] || News(accepts[..n]) != []))
  }

  /** The first answer that ends the loop. */
  ghost predicate StopsAt(queue: seq<Sock>, accepts: seq<Accept>, n: nat) {
    n < |accepts| && Stops(queue, accepts, n) && forall i :: 0 <= i < n ==> !Stops(queue, accepts, i)
  }

  /** The queue after the first answer, when the loop goes on. */
  function Next(queue: seq<Sock>, a: Accept): seq<Sock> {
    if a.New? then queue + [a.s] else queue
  }

  lemma StopsShift(queue: seq<Sock>, accepts: seq<Accept>, n: nat)
    requires n + 1 < |accepts| && !Stops(queue, accepts, 0)
    ensures Stops(Next(queue, accepts[0]), accepts[1..], n) <==> Stops(queue, accepts, n + 1)
  {
    assert accepts[..n + 1][1..] == accepts[1..][..n];
  }

  lemma NewsFirst(queue: seq<Sock>, accepts: seq<Accept>)
    requires accepts != []
    ensures queue + News(accepts) == Next(queue, accepts[0]) + News(accepts[1..])
    ensures News(accepts) == (if accepts[0].New? then [accepts[0].s] else []) + News(accepts[1..])
  {
    if accepts[0].New? {
      assert queue + ([accepts[0].s] + News(accepts[1..])) == queue + [accepts[0].s] + News(accepts[1..]);
    } else {
      assert [] + News(accepts[1..]) == News(accepts[1..]);
    }
  }

  lemma AdmitNext(queue: seq<Sock>, accepts: seq<Accept>)
    requires accepts != [] && !Stops(queue, accepts, 0)
    ensures Admit(queue, accepts) == Admit(Next(queue, accepts[0]), accepts[1..])
    ensures Accepted(queue, accepts) ==
            (if accepts[0].New? then [accepts[0].s] else []) + Accepted(Next(queue, accepts[0]), accepts[1..])
  {
    assert [] + Accepted(queue, accepts[1..]) == Accepted(queue, accepts[1..]);
  }

  /**
    The loop ends at the first answer that ends it: ready to serve if nothing more is to be
    accepted, failed on an error.  The sockets answered before are queued in order.
   */
  lemma {:induction false} AdmitExact(queue: seq<Sock>, accepts: seq<Accept>, n: nat)
    requires StopsAt(queue, accepts, n)
    ensures Admit(queue, accepts) ==
            Admitted(queue + News(accepts[..n]), if accepts[n] == Error then Failed else Ready)
    ensures Accepted(queue, accepts) == News(accepts[..n])
    decreases |accepts|
  {
    if n == 0 {
      assert accepts[..0] == [] && queue + [] == queue;
    } else {
      hide Admit, Accepted, News, Stops, Next;
      var q, rest := Next(queue, accepts[0]), accepts[1..];
      assert !Stops(queue, accepts, 0);
      forall i | 0 <= i < n
        ensures Stops(q, rest, i) <==> Stops(queue, accepts, i + 1)
      {
        StopsShift(queue, accepts, i);
      }
      AdmitExact(q, rest, n - 1);
      AdmitNext(queue, accepts);
      assert accepts[..n][1..] == rest[..n - 1];
      NewsFirst(queue, accepts[..n]);
    }
  }

  /** With no answer that ends it the loop goes on waiting, having queued every socket. */
  lemma {:induction false} AdmitWaits(queue: seq<Sock>, accepts: seq<Accept>)
    requires forall i :: 0 <= i < |accepts| ==> !Stops(queue, accepts, i)
    ensures Admit(queue, accepts) == Admitted(queue + News(accepts), Waiting)
    decreases |accepts|
  {
    if accepts == [] {
      assert queue + [] == queue;
    } else {
      hide Admit, Accepted, News, Stops, Next;
      var q, rest := Next(queue, accepts[0]), accepts[1..];
      assert !Stops(queue, accepts, 0);
      forall i | 0 <= i < |rest|
        ensures !Stops(q, rest, i)
      {
        StopsShift(queue, accepts, i);
      }
      AdmitWaits(q, rest);
      AdmitNext(queue, accepts);
      NewsFirst(queue, accepts);
    }
  }

  /** The step serves a client if and only if its accept loop ends without an error. */
  lemma ServesIff(y: Sched, i: Input)
    ensures Served(y, i).Some? <==> exists n: nat :: StopsAt(Requeued(y), i.accepts, n) && i.accepts[n] == EAgain
  {
    hide Admit, Accepted, News;
    var q := Requeued(y);
    AdmitAppends(q, i.accepts);
    if m: nat :| StopsAt(q, i.accepts, m) {
      AdmitExact(q, i.accepts, m);
      forall n: nat | StopsAt(q, i.accepts, n)
        ensures n == m
      {
        assert !(n < m) && !(m < n);
      }
    } else {
      NeverStops(q, i.accepts, |i.accepts|);
      AdmitWaits(q, i.accepts);
    }
  }

  lemma {:induction false} NeverStops(queue: seq<Sock>, accepts: seq<Accept>, k: nat)
    requires k <= |accepts| && forall n: nat :: !StopsAt(queue, accepts, n)
    ensures forall i :: 0 <= i < k ==> !Stops(queue, accepts, i)
    decreases k
  {
    if k > 0 {
      NeverStops(queue, accepts, k - 1);
      assert !StopsAt(queue, accepts, k - 1);
    }
  }

  /** New sockets only, and then nothing more to accept. */
  predicate Clean(i: Input) {
    exists n :: 0 <= n < |i.accepts| && i.accepts[n] == EAgain && forall j :: 0 <= j < n ==> i.accepts[j].New?
  }

  /** With a client at hand such a step serves one. */
  lemma CleanServes(y: Sched, i: Input)
    requires Clean(i) && Requeued(y) != []
    ensures Served(y, i).Some?
  {
    var n: nat :| n < |i.accepts| && i.accepts[n] == EAgain && forall j :: 0 <= j < n ==> i.accepts[j].New?;
    assert StopsAt(Requeued(y), i.accepts, n);
    ServesIff(y, i);
  }

  /** So with such steps the socket at position k is served by step k + 1, whatever leaves meanwhile. */
  lemma CleanServedInTurn(y: Sched, inputs: seq<Input>, k: nat)
    requires k < |y.queue| && |inputs| == k + 1 && forall j :: 0 <= j < |inputs| ==> Clean(inputs[j])
    ensures Served(Run(y, inputs[..k]), inputs[k]) == Some(y.queue[k])
  {
    CleanSteps(y, inputs, k);
    ServedInTurn(y, inputs, k);
  }

  lemma {:induction false} CleanSteps(y: Sched, inputs: seq<Input>, k: nat)
    requires k < |y.queue| && |inputs| == k + 1 && forall j :: 0 <= j < |inputs| ==> Clean(inputs[j])
    ensures Serves(y, inputs)
    decreases k
  {
    hide Step, Served, Clean;
    CleanServes(y, inputs[0]);
    StepAdvances(y, inputs[0], k);
    if k > 0 {
      CleanSteps(Step(y, inputs[0]), inputs[1..], k - 1);
    }
  }
}
