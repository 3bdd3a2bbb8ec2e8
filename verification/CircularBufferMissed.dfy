/**
  What cb_read delivers after an overrun that cb_size did not report (util/circular_buffer.c):
  not the bytes of the stream in order, but at each position the newest byte that shares its
  place in the ring, or what a write in progress has put there.  This holds in every run of the
  two sides, also in those that exceed the buffer.
 */
module CircularBufferMissed {
  import opened Machine
  import opened CircularBuffer
  import S = CircularBufferSharing

  /** The newest of w positions that shares its index in the ring with position p. */
  ghost function Newest(w: nat, n: nat, p: nat): (k: nat)
    requires n > 0 && p < w
    ensures p <= k < w && w - n <= k
  {
    w - 1 - (w - 1 - p) % n
  }

  lemma NewestIndex(w: nat, n: nat, p: nat)
    requires n > 0 && p < w
    ensures Newest(w, n, p) % n == p % n
    ensures w - p <= n ==> Newest(w, n, p) == p
  {
    hide Newest;
    NewestIs(w, n, p);
    Congruent(w - 1 - p, n, p);
    if w - p <= n {
      DivModUnique(w - 1 - p, n, 0, w - 1 - p);
    }
  }

  lemma Congruent(x: nat, n: nat, p: nat)
    requires n > 0
    ensures (x + p - x % n) % n == p % n
  {
    DivModSplit(x, n);
    DivModSplit(p, n);
    SameIndexSplit(x, n, p, x / n, x % n, p / n, p % n);
  }

  lemma SameIndexSplit(x: nat, n: nat, p: nat, q: nat, e: nat, a: nat, b: nat)
    requires n > 0 && b < n && x == q * n + e && p == a * n + b
    ensures (x + p - e) % n == b
  {
    SameIndex(x + p - e, n, a, q, b);
  }

  lemma NewestIs(w: nat, n: nat, p: nat)
    requires n > 0 && p < w
    ensures Newest(w, n, p) == w - 1 - (w - 1 - p) % n
  {
  }

  lemma SameIndex(k: nat, n: nat, a: nat, q: nat, b: nat)
    requires n > 0 && b < n && k == a * n + b + q * n
    ensures k % n == b
  {
    assert (a + q) * n == a * n + q * n;
    DivModUnique(k, n, a + q, b);
  }

  /** The place of position p in the ring belongs to the write in progress. */
  ghost predicate InRegion(s: Ring, p: nat)
    requires s.size > 0
  {
    s.write.idx <= p % s.size < s.write.idx + InFlight(s.write)
  }

  /** What the ring holds at the place of position p: the newest committed byte, or the write in progress. */
  ghost function Held(s: Ring, h: seq<Byte>, p: nat): Byte
    requires s.size > 0 && |s.buff| == s.size && p < |h|
  {
    if InRegion(s, p) then s.buff[p % s.size] else h[Newest(|h|, s.size, p)]
  }

  lemma HeldNewest(s: Ring, h: seq<Byte>, p: nat)
    requires s.size > 0 && |s.buff| == s.size && p < |h| && !s.write.started
    ensures Held(s, h, p) == h[Newest(|h|, s.size, p)]
  {
  }

  /** A position whose byte a write in progress may have overwritten lies in its region. */
  lemma RegionIndex(s: Ring, h: seq<Byte>, r: nat, k: nat)
    requires Rep(s, h, r) && k < |h| && |h| - s.size <= k < |h| + InFlight(s.write) - s.size
    ensures s.write.idx <= k % s.size < s.write.idx + InFlight(s.write)
  {
    RegionArithmetic(|h|, s.size, InFlight(s.write), k);
  }

  lemma RegionArithmetic(w: nat, n: nat, a: nat, k: nat)
    requires n > 0 && w % n + a <= n && w - n <= k < w + a - n
    ensures w % n <= k % n < w % n + a
  {
    var e := k + n - w;
    Advance(w, n, e);
    assert w + e == k + n;
    var q, b := Split(k, n);
    LapOn(k, n, q, b);
  }

  lemma LapOn(k: nat, n: nat, q: nat, b: nat)
    requires n > 0 && b < n && k == q * n + b
    ensures (k + n) % n == b
  {
    SameIndex(k + n, n, q, 1, b);
  }

  lemma ByteNewest(s: Ring, h: seq<Byte>, r: nat, d: nat)
    requires Rep(s, h, r) && d < InFlight(s.read)
    ensures s.buff[s.read.idx + d] == Held(s, h, r + d)
  {
    hide Newest;
    Advance(r, s.size, d);
    NewestIndex(|h|, s.size, r + d);
    var k := Newest(|h|, s.size, r + d);
    if k < |h| + InFlight(s.write) - s.size {
      RegionIndex(s, h, r, k);
    }
  }

  ghost function Span(from: int, len: nat): (at: seq<int>)
    ensures |at| == len && forall i :: 0 <= i < len ==> at[i] == from + i
  {
    seq(len, i => from + i)
  }

  /** The positions of the stream at which the read loop takes its bytes; w bytes are committed. */
  ghost function Taken(s: Ring, w: nat, r: int, n: nat): seq<int>
    requires Wf(s) && !s.read.started
    decreases n
  {
    if n == 0 then []
    else
      var p := PrepareRead(s, n);
      if p.status == Again then []
      else
        var from := if p.status == Overrun then w - s.size else r;
        Span(from, p.len) + Taken(EndRead(p.ring).0, w, from + p.len, n - p.len)
  }

  /** Every byte delivered at a position is what the ring holds at its place. */
  ghost predicate AllNewest(data: seq<Byte>, at: seq<int>, h: seq<Byte>, s: Ring)
    requires s.size > 0 && |s.buff| == s.size
  {
    |data| == |at| && forall i :: 0 <= i < |at| ==> 0 <= at[i] < |h| && data[i] == Held(s, h, at[i])
  }

  /** Reading changes neither the memory nor the writer. */
  ghost predicate SameMemory(s: Ring, t: Ring) {
    t.size == s.size && t.buff == s.buff && t.write == s.write
  }

  lemma SameNewest(data: seq<Byte>, at: seq<int>, h: seq<Byte>, s: Ring, t: Ring)
    requires s.size > 0 && |s.buff| == s.size && SameMemory(s, t) && AllNewest(data, at, h, t)
    ensures AllNewest(data, at, h, s)
  {
    hide Newest;
    forall i | 0 <= i < |at|
      ensures 0 <= at[i] < |h| && data[i] == Held(s, h, at[i])
    {
      assert data[i] == Held(t, h, at[i]);
    }
  }

  /** The region of a read in progress. */
  lemma RegionNewest(s: Ring, h: seq<Byte>, r: nat)
    requires Rep(s, h, r)
    ensures Wf(s) && s.read.idx + InFlight(s.read) <= |s.buff|
    ensures AllNewest(s.buff[s.read.idx..s.read.idx + InFlight(s.read)], Span(r, InFlight(s.read)), h, s)
  {
    hide Rep, Newest, Span, Held;
    RepWf(s, h, r);
    InFlightUnread(s, h, r);
    var a := InFlight(s.read);
    var region, at := s.buff[s.read.idx..s.read.idx + a], Span(r, a);
    forall i | 0 <= i < a
      ensures 0 <= at[i] < |h| && region[i] == Held(s, h, at[i])
    {
      ByteNewest(s, h, r, i);
    }
  }

  lemma ChunkNewest(s: Ring, h: seq<Byte>, r: nat, n: nat)
    requires Rep(s, h, r) && !s.read.started && n > 0 && PrepareRead(s, n).status != Again
    ensures Wf(s)
    ensures var p := PrepareRead(s, n);
            var from := if p.status == Overrun then |h| - s.size else r;
            var s1 := EndRead(p.ring).0;
            && 0 < p.len <= n && p.start + p.len <= |p.ring.buff|
            && AllNewest(p.ring.buff[p.start..p.start + p.len], Span(from, p.len), h, s)
            && 0 <= from && Rep(s1, h, from + p.len) && !s1.read.started && SameMemory(s, s1)
  {
    hide Rep, SizeOf, Newest, Span, Held, AllNewest;
    RepWf(s, h, r);
    PrepareReadRep(s, h, r, n);
    var p := PrepareRead(s, n);
    var from := if p.status == Overrun then |h| - s.size else r;
    PreparedRegion(s, n);
    EndReadRep(p.ring, h, from);
    RegionNewest(p.ring, h, from);
    SameNewest(p.ring.buff[p.start..p.start + p.len], Span(from, p.len), h, s, p.ring);
  }

  lemma InFlightUnread(s: Ring, h: seq<Byte>, r: nat)
    requires Rep(s, h, r)
    ensures r + InFlight(s.read) <= |h| && s.read.idx + InFlight(s.read) <= |s.buff| == s.size
  {
  }

  lemma PreparedRegion(s: Ring, n: nat)
    requires Wf(s) && !s.read.started && PrepareRead(s, n).status != Again
    ensures var p := PrepareRead(s, n);
            && p.ring.read.started && p.len == p.ring.read.asyncSize == InFlight(p.ring.read)
            && p.start == p.ring.read.idx && SameMemory(s, p.ring)
  {
  }

  /** The reader's position after the read loop. */
  ghost function TakenEnd(s: Ring, w: nat, r: int, n: nat): int
    requires Wf(s) && !s.read.started
    decreases n
  {
    if n == 0 then r
    else
      var p := PrepareRead(s, n);
      if p.status == Again then r
      else
        var from := if p.status == Overrun then w - s.size else r;
        TakenEnd(EndRead(p.ring).0, w, from + p.len, n - p.len)
  }

  /**
    Whatever overruns went unreported, and whether or not a write is in progress: cb_read, where
    it does not wait, delivers at each position what the ring holds at its place.
   */
  lemma {:induction false} ReadAllNewest(s: Ring, h: seq<Byte>, r: nat, n: nat)
    requires Rep(s, h, r) && !s.read.started
    ensures Wf(s) && AllNewest(ReadAll(s, n).data, Taken(s, |h|, r, n), h, s)
    ensures ReadAll(s, n).status != Again ==>
              TakenEnd(s, |h|, r, n) >= 0 && Rep(ReadAll(s, n).ring, h, TakenEnd(s, |h|, r, n))
    decreases n
  {
    hide *;
    RepWf(s, h, r);
    if n == 0 {
      ReadAllNothing(s);
      NothingTaken(s, |h|, r, h);
    } else {
      ReadAllTurn(s, n);
      TakenTurn(s, |h|, r, n);
      var p := PrepareRead(s, n);
      if p.status == Again {
        NothingTaken(s, |h|, r, h);
      } else {
        var from := if p.status == Overrun then |h| - s.size else r;
        ChunkNewest(s, h, r, n);
        var s1 := EndRead(p.ring).0;
        var rest, at := ReadAll(s1, n - p.len), Taken(s1, |h|, from + p.len, n - p.len);
        ReadAllNewest(s1, h, from + p.len, n - p.len);
        SameNewest(rest.data, at, h, s, s1);
        NewestAppend(p.ring.buff[p.start..p.start + p.len], Span(from, p.len), rest.data, at, h, s);
      }
    }
  }

  lemma NothingTaken(s: Ring, w: nat, r: int, h: seq<Byte>)
    requires Wf(s) && !s.read.started
    ensures s.size > 0 && |s.buff| == s.size && Taken(s, w, r, 0) == [] && TakenEnd(s, w, r, 0) == r
    ensures AllNewest([], [], h, s)
  {
  }

  lemma {:induction false} TakenTurn(s: Ring, w: nat, r: int, n: nat)
    requires Wf(s) && !s.read.started && n > 0
    ensures |s.buff| == s.size > 0
    ensures var p := PrepareRead(s, n);
            var from := if p.status == Overrun then w - s.size else r;
            var s1 := EndRead(p.ring).0;
            && Taken(s, w, r, n) ==
               (if p.status == Again then [] else Span(from, p.len) + Taken(s1, w, from + p.len, n - p.len))
            && TakenEnd(s, w, r, n) ==
               (if p.status == Again then r else TakenEnd(s1, w, from + p.len, n - p.len))
  {
    hide PrepareRead, EndRead, Span;
  }

  lemma NewestAppend(d: seq<Byte>, at: seq<int>, d': seq<Byte>, at': seq<int>, h: seq<Byte>, s: Ring)
    requires s.size > 0 && |s.buff| == s.size && AllNewest(d, at, h, s) && AllNewest(d', at', h, s)
    ensures AllNewest(d + d', at + at', h, s)
  {
    hide Held;
  }

  // ----- Runs of any length and any load -----

  /** The reader's position after one step of the shared ring. */
  ghost function Reader(y: S.Sys, r: int, op: S.Op): int
    requires Wf(y.ring)
  {
    var s := y.ring;
    match op
    case PrepareR(n) => if !s.read.started && SizeOf(s).0 == Overrun then |y.committed| - s.size else r
    case EndR => r + InFlight(s.read)
    case Read(n) =>
      if s.read.started || ReadAll(s, n).status == Again then r else TakenEnd(s, |y.committed|, r, n)
    case _ => r
  }

  ghost function ReaderAfter(y: S.Sys, r: int, ops: seq<S.Op>): int
    requires Wf(y.ring)
    decreases |ops|
  {
    if ops == [] then r else ReaderAfter(S.Step(y, ops[0]), Reader(y, r, ops[0]), ops[1..])
  }

  lemma WriterRep(y: S.Sys, r: nat, op: S.Op)
    requires Rep(y.ring, y.committed, r) && (op.PrepareW? || op.Fill? || op.EndW? || op.Write?)
    ensures var y' := S.Step(y, op); Rep(y'.ring, y'.committed, r)
  {
    hide Rep, Wf, PrepareWrite, EndWrite, WriteAll;
    RepWf(y.ring, y.committed, r);
    RegionsInside(y.ring);
    match op
    case PrepareW(n) => PrepareWriteRep(y.ring, y.committed, r, n);
    case Fill(off, data) =>
      if y.ring.write.started && off + |data| <= y.ring.write.asyncSize {
        StoreRep(y.ring, y.committed, r, off, data);
      }
    case EndW => if y.ring.write.started { EndWriteRep(y.ring, y.committed, r); }
    case Write(all) => if !y.ring.write.started { WriteAllRep(y.ring, y.committed, r, all); }
  }

  lemma RegionsInside(s: Ring)
    requires Wf(s)
    ensures s.write.started ==> s.write.idx + s.write.asyncSize <= |s.buff|
    ensures s.read.started ==> s.read.idx + s.read.asyncSize <= |s.buff|
  {
  }

  lemma ReaderRep(y: S.Sys, r: nat, op: S.Op)
    requires Rep(y.ring, y.committed, r) && (op.PrepareR? || op.Copy? || op.EndR? || op.Read?)
    ensures Wf(y.ring)
    ensures var y' := S.Step(y, op);
            Reader(y, r, op) >= 0 && Rep(y'.ring, y'.committed, Reader(y, r, op))
  {
    hide Rep, Wf, PrepareRead, EndRead, ReadAll, SizeOf, TakenEnd, AllNewest;
    RepWf(y.ring, y.committed, r);
    RegionsInside(y.ring);
    match op
    case PrepareR(n) =>
      if y.ring.read.started { BusyRead(y.ring, n); } else { PrepareReadRep(y.ring, y.committed, r, n); }
    case Copy =>
    case EndR => if y.ring.read.started { EndReadRep(y.ring, y.committed, r); }
    case Read(n) => if !y.ring.read.started { ReadAllNewest(y.ring, y.committed, r, n); }
  }

  lemma BusyRead(s: Ring, n: nat)
    requires Wf(s) && s.read.started
    ensures PrepareRead(s, n).ring == s
  {
  }

  /** Every run, within capacity or not, keeps the ring standing for the committed stream. */
  lemma {:induction false} RunRep(y: S.Sys, r: nat, ops: seq<S.Op>)
    requires Rep(y.ring, y.committed, r) && Wf(y.ring)
    ensures var y' := S.Run(y, ops);
            ReaderAfter(y, r, ops) >= 0 && Rep(y'.ring, y'.committed, ReaderAfter(y, r, ops))
    decreases |ops|
  {
    hide Rep, Wf, S.Step, Reader;
    if ops != [] {
      var op := ops[0];
      if op.PrepareR? || op.Copy? || op.EndR? || op.Read? {
        ReaderRep(y, r, op);
      } else {
        WriterRep(y, r, op);
        WriterKeepsReader(y, r, op);
      }
      RunRep(S.Step(y, op), Reader(y, r, op), ops[1..]);
    }
  }

  lemma WriterKeepsReader(y: S.Sys, r: nat, op: S.Op)
    requires Wf(y.ring) && (op.PrepareW? || op.Fill? || op.EndW? || op.Write?)
    ensures Reader(y, r, op) == r
  {
  }

  /**
    In every run from an empty ring, however much it is overrun: what a reader in a transaction
    copies at any moment is, position by position, the newest committed byte of its place, or
    what a write in progress has put there.
   */
  lemma RunHolds(size: nat, ops: seq<S.Op>)
    requires 0 < size < U32
    ensures var y := S.Run(S.Start(size), ops);
            var r := ReaderAfter(S.Start(size), 0, ops);
            && r >= 0 && Rep(y.ring, y.committed, r)
            && AllNewest(y.ring.buff[y.ring.read.idx..y.ring.read.idx + InFlight(y.ring.read)],
                         Span(r, InFlight(y.ring.read)), y.committed, y.ring)
  {
    hide S.Run, ReaderAfter, AllNewest, Span, Rep;
    InitRep(size);
    RunRep(S.Start(size), 0, ops);
    var y := S.Run(S.Start(size), ops);
    RegionNewest(y.ring, y.committed, ReaderAfter(S.Start(size), 0, ops));
  }

  // ----- An example -----

  /** Two bytes written into a one-byte buffer: an overrun that cb_size does not see. */
  lemma MissedOverrunExample(a: Byte, b: Byte)
    ensures var s := WriteAll(Init(1), [a, b]);
            Rep(s, [a, b], 0) && |[a, b]| - 0 > s.size && SizeOf(s) == (Success, 1)
  {
    hide WriteAll, Rep;
    InitRep(1);
    WriteAllRep(Init(1), [], 0, [a, b]);
    assert [] + [a, b] == [a, b];
    BothWritten(a, b);
  }

  /** Two bytes written into a one-byte buffer: the second one is delivered twice, with success. */
  lemma DoubleDelivery(a: Byte, b: Byte)
    ensures var s := WriteAll(Init(1), [a, b]);
            var first := ReadAll(s, 1);
            var second := ReadAll(first.ring, 1);
            && first.status == second.status == Success && first.data == second.data == [b]
  {
    hide WriteAll, ReadAll;
    var s := Ring(1, [b], Ptr(0, 2, false, 0), Ptr(0, 0, false, 0));
    BothWritten(a, b);
    OneByteRead(s, 0);
    OneByteRead(s.(read := Ptr(0, 1, false, 0)), 1);
  }

  lemma BothWritten(a: Byte, b: Byte)
    ensures WriteAll(Init(1), [a, b]) == Ring(1, [b], Ptr(0, 2, false, 0), Ptr(0, 0, false, 0))
  {
    hide WriteAll;
    var s0 := Ring(1, [0], Ptr(0, 0, false, 0), Ptr(0, 0, false, 0));
    var s1 := Ring(1, [a], Ptr(0, 1, false, 0), Ptr(0, 0, false, 0));
    var s2 := Ring(1, [b], Ptr(0, 2, false, 0), Ptr(0, 0, false, 0));
    assert Init(1).buff == [0];
    OneByteWritten(s0, s1, [a, b], 0);
    OneByteWritten(s1, s2, [b], 1);
    assert [a, b][1..] == [b] && [b][1..] == [];
    NothingWritten(s2);
  }

  lemma NothingWritten(s: Ring)
    requires Wf(s) && !s.write.started
    ensures WriteAll(s, []) == s
  {
  }

  /** One turn of the write loop on a ring of one byte. */
  lemma OneByteWritten(s: Ring, t: Ring, data: seq<Byte>, lap: nat)
    requires |s.buff| == 1 && data != [] && lap < 2
    requires s == Ring(1, s.buff, Ptr(0, lap, false, 0), s.read) && s.read == Ptr(0, 0, false, 0)
    requires t == Ring(1, [data[0]], Ptr(0, lap + 1, false, 0), s.read)
    ensures Wf(s) && Wf(t) && WriteAll(s, data) == WriteAll(t, data[1..])
  {
    hide WriteAll;
    var p := PrepareWrite(s, |data|);
    assert p.len == 1 && p.start == 0;
    var s1 := Store(p.ring, 0, data[..1]);
    assert s1.buff == [data[0]];
    assert EndWrite(s1).0 == t;
    WriteTurn(s, data);
  }

  lemma WriteTurn(s: Ring, data: seq<Byte>)
    requires Wf(s) && !s.write.started && data != []
    ensures var p := PrepareWrite(s, |data|);
            WriteAll(s, data) == WriteAll(EndWrite(Store(p.ring, p.start, data[..p.len])).0, data[p.len..])
  {
    hide PrepareWrite, EndWrite, Store;
  }

  lemma OneByteRead(s: Ring, lap: nat)
    requires lap < 2 && |s.buff| == 1
    requires s == Ring(1, s.buff, Ptr(0, 2, false, 0), Ptr(0, lap, false, 0))
    ensures Wf(s) && ReadAll(s, 1) == ReadResult(s.(read := Ptr(0, lap + 1, false, 0)), Success, s.buff)
  {
    assert SizeOf(s) == (Success, 1);
    var s1 := s.(read := Ptr(0, lap + 1, false, 0));
    assert EndRead(PrepareRead(s, 1).ring).0 == s1;
    ReadAllTurn(s, 1);
    ReadAllNothing(s1);
  }
}
