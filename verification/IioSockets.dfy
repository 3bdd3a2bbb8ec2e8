/**
  The socket part of the iio descriptor (iio/iio.c): the queue of client pointers lives in
  a circular buffer of sixteen bytes.  Each method is proved against module SocketScheduler.
 */
module IioSockets {
  import opened Machine
  import opened SocketScheduler
  import CB = CircularBuffer
  import opened CircularBufferObject
  import CM = CircularBufferMissed

  /** A pointer in memory: four bytes, least significant first. */
  function Bytes4(p: nat): (b: seq<Byte>)
    requires p < U32
    ensures |b| == 4
  {
    [p % 256, p / 256 % 256, p / 65536 % 256, p / 16777216]
  }

  function FromBytes4(b: seq<Byte>): nat
    requires |b| == 4
  {
    var b0: int, b1: int, b2: int, b3: int := b[0], b[1], b[2], b[3];
    b0 + 256 * b1 + 65536 * b2 + 16777216 * b3
  }

  lemma PointerRoundTrip(p: nat)
    requires p < U32
    ensures FromBytes4(Bytes4(p)) == p
  {
    var q := p / 256;
    var t := q / 256;
    assert t == p / 65536 && t / 256 == p / 16777216;
    assert p == 256 * q + p % 256 && q == 256 * t + q % 256 && t == 256 * (t / 256) + t % 256;
  }

  function Encoded(q: seq<Sock>): (b: seq<Byte>)
    ensures |b| == 4 * |q|
  {
    if q == [] then [] else Bytes4(q[0]) + Encoded(q[1..])
  }

  lemma {:induction false} EncodedAppend(q: seq<Sock>, s: Sock)
    ensures Encoded(q + [s]) == Encoded(q) + Bytes4(s)
  {
    if q == [] {
      assert [s][1..] == [];
      assert Encoded([s]) == Bytes4(s);
      assert q + [s] == [s];
    } else {
      assert (q + [s])[1..] == q[1..] + [s];
      EncodedAppend(q[1..], s);
    }
  }

  class IioDesc {
    const sockets: Buffer
    var currentSock: Current
    ghost var queue: seq<Sock>

    /** The unread bytes of the ring are the queued pointers. */
    ghost predicate Valid()
      reads this, sockets, sockets.buff
    {
      && sockets.Valid() && CB.Wf(sockets.State()) && sockets.size == 4 * MAX_SOCKET_TO_HANDLE
      && !sockets.read.started && !sockets.write.started
      && sockets.taken <= |sockets.stream|
      && sockets.stream[sockets.taken..] == Encoded(queue)
    }

    ghost function State(): Sched
      reads this
    {
      Sched(queue, currentSock)
    }

    constructor ()
      ensures Valid() && State() == Sched([], NoSock) && fresh(sockets) && fresh(sockets.buff)
      ensures sockets.taken == 0 && sockets.stream == []
    {
      sockets := new Buffer(16);
      currentSock := NoSock;
      queue := [];
    }

    /** _push_sock. */
    method PushSock(s: Sock)
      requires Valid()
      modifies this`queue, sockets, sockets.buff
      ensures Valid() && queue == old(queue) + [s]
      ensures sockets.taken == old(sockets.taken) && sockets.stream == old(sockets.stream) + Bytes4(s)
    {
      hide CB.Rep, CB.Wf, CB.WriteAll, Bytes4, Encoded, CB.ReadAll, CB.SizeOf;
      EncodedAppend(queue, s);
      ghost var h, r := sockets.stream, sockets.taken;
      var _ := sockets.Write(Bytes4(s));
      queue := queue + [s];
      assert (h + Bytes4(s))[r..] == h[r..] + Bytes4(s);
    }

    /** _pop_sock, which would wait on an empty queue. */
    method PopSock() returns (s: Sock)
      requires Valid() && 0 < |queue| <= MAX_SOCKET_TO_HANDLE
      modifies this`queue, sockets
      ensures Valid() && s == old(queue)[0] && queue == old(queue)[1..]
    {
      hide CB.Rep, CB.Wf, CB.ReadAll, CB.SizeOf, Bytes4;
      ghost var h, r := sockets.stream, sockets.taken;
      Readable(sockets.State(), h, r, 4);
      var _, data := sockets.Read(4);
      PointerRoundTrip(queue[0]);
      assert data == h[r..][..4] == Bytes4(queue[0]);
      assert h[r + 4..] == h[r..][4..] == Encoded(queue[1..]);
      s := FromBytes4(data);
      queue := queue[1..];
    }

    /** _nb_active_sockets, right exactly while the clients fit the ring. */
    method NbActiveSockets() returns (n: nat)
      requires Valid()
      ensures n == |queue| <==> |queue| <= MAX_SOCKET_TO_HANDLE
    {
      hide CB.Rep, CB.Wf, CB.SizeOf;
      CB.AvailableAtMostUnread(sockets.State(), sockets.stream, sockets.taken);
      var _, size := sockets.Size();
      n := size / 4;
    }

    /** _get_next_socket, given the answers socket_accept will give. */
    method GetNextSocket(accepts: seq<Accept>) returns (ok: bool)
      requires Valid() && currentSock == NoSock
      requires Admit(queue, accepts).ending != Waiting && |Admit(queue, accepts).queue| <= MAX_SOCKET_TO_HANDLE
      modifies this, sockets, sockets.buff
      ensures Valid()
      ensures var a := Admit(old(queue), accepts);
              if a.ending == Ready
              then a.queue != [] && ok && currentSock == Client(a.queue[0]) && queue == a.queue[1..]
              else !ok && currentSock == NoSock && queue == a.queue
    {
      hide CB.Rep, CB.Wf, Encoded;
      var i := 0;
      while true
        invariant 0 <= i <= |accepts| && Valid() && currentSock == NoSock
        invariant Admit(queue, accepts[i..]) == Admit(old(queue), accepts)
        decreases |accepts| - i
      {
        AdmitAppends(queue, accepts[i..]);
        assert i < |accepts|;
        assert accepts[i..][1..] == accepts[i + 1..];
        var answer := accepts[i];
        if answer == EAgain {
          var n := NbActiveSockets();
          if n != 0 {
            break;
          }
        } else if answer == Error {
          return false;
        } else {
          AdmitAppends(queue + [answer.s], accepts[i + 1..]);
          PushSock(answer.s);
        }
        i := i + 1;
      }
      var s := PopSock();
      currentSock := Client(s);
      ok := true;
    }

    /** iio_step with the first network_read of the command it runs. */
    method IioStep(input: Input) returns (served: Option<Sock>)
      requires Valid() && |Requeued(State())| <= MAX_SOCKET_TO_HANDLE
      requires var a := Admit(Requeued(State()), input.accepts);
               a.ending != Waiting && |a.queue| <= MAX_SOCKET_TO_HANDLE
      modifies this, sockets, sockets.buff
      ensures Valid() && State() == Step(old(State()), input) && served == Served(old(State()), input)
    {
      hide CB.Rep, CB.Wf, Encoded, Admit;
      if currentSock.Client? {
        PushSock(currentSock.s);
      }
      currentSock := NoSock;
      assert queue == Requeued(old(State()));
      var ok := GetNextSocket(input.accepts);
      served := None;
      if ok {
        served := Some(currentSock.s);
        if input.disconnect {
          currentSock := Gone;
        }
      }
    }
  }

  /** A read of queued bytes does not wait, and advances the reader by what it took. */
  lemma Readable(s: CB.Ring, h: seq<Byte>, r: nat, n: nat)
    requires CB.Rep(s, h, r) && CB.Wf(s) && !s.read.started && !s.write.started
    requires r <= |h| && |h| - r <= s.size && n <= |h| - r
    ensures CB.ReadAll(s, n).status == CB.Success
  {
    hide CB.ReadAll;
    var s' := CB.ReadAllInOrder(s, h, r, n);
  }

  /**
    Five clients queued in a new ring: the next pop fails with an overrun, after having taken the
    second client out; the first one has been written over.
   */
  lemma FifthClientLost(s: CB.Ring, q: seq<Sock>)
    requires |q| == 5 && s.size == 16 && !s.read.started && !s.write.started && CB.Rep(s, Encoded(q), 0)
    ensures CB.Wf(s) && CB.ReadAll(s, 4).status == CB.Overrun && CB.ReadAll(s, 4).data == Bytes4(q[1])
    ensures CB.Rep(CB.ReadAll(s, 4).ring, Encoded(q), 8)
  {
    hide CB.ReadAll, Bytes4;
    var h := Encoded(q);
    CB.OverrunReportedIff(s, h, 0);
    assert 20 / 16 == 1 && 20 % 16 == 4;
    var s' := CB.ReadAllAfterOverrun(s, h, 0, 4);
    assert h == Bytes4(q[0]) + (Bytes4(q[1]) + Encoded(q[1..][1..]));
    assert h[20 - 16..][..4] == Bytes4(q[1]);
  }

  /** Five clients pushed into a new queue, and the pop that follows. */
  method FiveClients(q: seq<Sock>) returns (status: CB.Status, data: seq<Byte>)
    requires |q| == 5
    ensures status == CB.Overrun && data == Bytes4(q[1])
  {
    hide Bytes4, Encoded, CB.ReadAll, CB.SizeOf, CB.Rep, CB.Wf;
    var d := new IioDesc();
    NothingEncoded();
    assert [] + [q[0]] + [q[1]] + [q[2]] + [q[3]] + [q[4]] == q;
    EncodedAppend([], q[0]);
    EncodedAppend([] + [q[0]], q[1]);
    EncodedAppend([] + [q[0]] + [q[1]], q[2]);
    EncodedAppend([] + [q[0]] + [q[1]] + [q[2]], q[3]);
    EncodedAppend([] + [q[0]] + [q[1]] + [q[2]] + [q[3]], q[4]);
    d.PushSock(q[0]);
    d.PushSock(q[1]);
    d.PushSock(q[2]);
    d.PushSock(q[3]);
    d.PushSock(q[4]);
    assert d.sockets.stream == Encoded(q);
    FifthClientLost(d.sockets.State(), q);
    status, data := d.sockets.Read(4);
  }

  lemma NothingEncoded()
    ensures Encoded([]) == []
  {
  }

  // ----- The queue serves its clients exactly while they fit -----

  lemma {:induction false} EncodedAt(q: seq<Sock>, j: nat)
    requires j < |q|
    ensures Encoded(q)[4 * j..4 * j + 4] == Bytes4(q[j])
  {
    hide Bytes4;
    if j > 0 {
      EncodedAt(q[1..], j - 1);
      assert Encoded(q)[4 * j..4 * j + 4] == Encoded(q[1..])[4 * (j - 1)..4 * (j - 1) + 4];
    }
  }

  /** The bytes of a ring of pointers, with the reader between two of them. */
  ghost predicate Holds(s: CB.Ring, h: seq<Byte>, r: nat, q: seq<Sock>) {
    && CB.Rep(s, h, r) && s.size == 16 && !s.read.started && !s.write.started
    && r % 4 == 0 && r <= |h| && h[r..] == Encoded(q)
  }

  /** A pop that sees anything sees at least one pointer, whole. */
  lemma WholePointer(s: CB.Ring, h: seq<Byte>, r: nat, q: seq<Sock>)
    requires Holds(s, h, r, q) && CB.SizeOf(s).0 != CB.Overrun && CB.SizeOf(s).1 > 0
    ensures CB.Wf(s) && CB.PrepareRead(s, 4).len == 4 && CB.PrepareRead(s, 4).status == CB.Success
  {
    hide CB.SizeOf, Holds;
    IndicesAligned(s, h, r, q);
    SizeAligned(s);
  }

  lemma IndicesAligned(s: CB.Ring, h: seq<Byte>, r: nat, q: seq<Sock>)
    requires Holds(s, h, r, q)
    ensures CB.Wf(s) && s.size == 16 && !s.read.started
    ensures s.write.idx < 16 && s.read.idx < 16 && s.write.idx % 4 == 0 && s.read.idx % 4 == 0
  {
    hide CB.Rep, CB.Wf, Encoded, Bytes4;
    RepIndices(s, h, r);
    assert |h| == r + 4 * |q|;
    Multiple(r, |q|);
    Aligned(r);
    Aligned(|h|);
  }

  lemma RepIndices(s: CB.Ring, h: seq<Byte>, r: nat)
    requires CB.Rep(s, h, r)
    ensures CB.Wf(s) && s.size > 0 && s.write.idx == |h| % s.size && s.read.idx == r % s.size
  {
  }

  lemma Multiple(r: nat, n: nat)
    requires r % 4 == 0
    ensures (r + 4 * n) % 4 == 0
  {
  }

  lemma SizeAligned(s: CB.Ring)
    requires s.size == 16 && s.write.idx < 16 && s.read.idx < 16 && s.write.idx % 4 == 0 && s.read.idx % 4 == 0
    requires CB.SizeOf(s).0 != CB.Overrun && CB.SizeOf(s).1 > 0
    ensures CB.SizeOf(s).0 == CB.Success && CB.SizeOf(s).1 % 4 == 0 && CB.SizeOf(s).1 >= 4
  {
    hide CB.NbSpins;
  }

  lemma Aligned(n: nat)
    requires n % 4 == 0
    ensures n % 16 % 4 == 0
  {
  }

  /** Where the newest pointer at the reader's place lies. */
  lemma NewestPointer(w: nat, r: nat, i: nat) returns (j: nat)
    requires w % 4 == 0 && r % 4 == 0 && r + 16 < w && i < 4
    ensures 1 <= j && r + 4 * j + 4 <= w
    ensures j == (w - 1 - r) / 16 * 4
    ensures CM.Newest(w, 16, r + i) == r + 4 * j + i
  {
    var c := w / 4 - r / 4 - 1;
    j := c / 4 * 4;
    DivModUnique(w - 1 - r, 16, c / 4, c % 4 * 4 + 3);
    DivModUnique(w - 1 - (r + i), 16, c / 4, c % 4 * 4 + 3 - i);
  }

  lemma StalePointer(s: CB.Ring, h: seq<Byte>, r: nat, q: seq<Sock>) returns (j: nat)
    requires Holds(s, h, r, q) && |q| > 4 && CB.Wf(s)
    requires CB.PrepareRead(s, 4).len == 4 && CB.PrepareRead(s, 4).status == CB.Success
    ensures 0 < j < |q| && CB.ReadAll(s, 4).data == Bytes4(q[j]) && CB.ReadAll(s, 4).status == CB.Success
  {
    hide Bytes4, Encoded, CB.Rep, CB.Wf, CB.PrepareRead, CB.EndRead, CB.ReadAll, CM.Newest, CM.Held, CM.Span;
    var p := CB.PrepareRead(s, 4);
    CB.RepWf(s, h, r);
    RingLengths(s);
    j := (|h| - 1 - r) / 16 * 4;
    CM.ChunkNewest(s, h, r, 4);
    CB.ReadAllTurn(s, 4);
    CB.ReadAllNothing(CB.EndRead(p.ring).0);
    var data := p.ring.buff[p.start..p.start + 4];
    forall i | 0 <= i < 4
      ensures 0 < j < |q| && data[i] == h[r..][4 * j..4 * j + 4][i]
    {
      var _ := NewestPointer(|h|, r, i);
      assert CM.Span(r, 4)[i] == r + i;
      CM.HeldNewest(s, h, r + i);
      assert h[r..][4 * j..4 * j + 4][i] == h[r + 4 * j + i];
    }
    var _ := NewestPointer(|h|, r, 0);
    EncodedAt(q, j);
    assert data == Bytes4(q[j]);
    assert data + [] == data;
  }

  /** A pop returns the client in front if and only if at most four are queued. */
  lemma PopRightIff(s: CB.Ring, h: seq<Byte>, r: nat, q: seq<Sock>)
    requires Holds(s, h, r, q) && q != [] && forall i, j :: 0 <= i < j < |q| ==> q[i] != q[j]
    ensures CB.Wf(s)
    ensures CB.ReadAll(s, 4).status == CB.Success && CB.ReadAll(s, 4).data == Bytes4(q[0]) <==> |q| <= 4
  {
    hide Bytes4, CB.Wf, CB.PrepareRead, CB.EndRead, CB.ReadAll, CB.SizeOf;
    CB.RepWf(s, h, r);
    CB.ReadAllTurn(s, 4);
    if |q| <= 4 {
      var s' := CB.ReadAllInOrder(s, h, r, 4);
      EncodedAt(q, 0);
      assert h[r..r + 4] == h[r..][..4] == Bytes4(q[0]);
    } else {
      CB.PrepareReadRep(s, h, r, 4);
      if CB.SizeOf(s).0 != CB.Overrun && CB.SizeOf(s).1 > 0 {
        WholePointer(s, h, r, q);
        var j := StalePointer(s, h, r, q);
        PointerRoundTrip(q[0]);
        PointerRoundTrip(q[j]);
      }
    }
  }
}
