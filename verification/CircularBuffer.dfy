/**
  The byte ring of util/circular_buffer.c.

  `Ring` is the C descriptor as a value, with one function per atomic API call; the
  lemmas relate it to the unbounded stream of bytes ever committed.  `Buffer` is the
  descriptor updated in place.
 */
module CircularBuffer {
  import opened Machine

  datatype Status = Success | Failure | Invalid | Busy | Again | Overrun

  /** struct cb_ptr: one side's index, its lap counter (uint32_t), its async transaction. */
  datatype Ptr = Ptr(idx: nat, spin: nat, started: bool, asyncSize: nat)

  datatype Ring = Ring(size: nat, buff: seq<Byte>, write: Ptr, read: Ptr)

  /** Outcome of cb_prepare_async_*: the new ring, the status, and the raw region handed out. */
  datatype Prepared = Prepared(ring: Ring, status: Status, start: nat, len: nat)

  /** Outcome of a blocking read. */
  datatype ReadResult = ReadResult(ring: Ring, status: Status, data: seq<Byte>)

  // ----- The operations of the C file -----

  function Init(size: nat): Ring {
    var p := Ptr(0, 0, false, 0);
    Ring(size, seq(size, _ => 0), p, p)
  }

  function NbSpins(s: Ring): nat {
    if s.write.spin > s.read.spin then s.write.spin - s.read.spin
    else Wrap32(U32 - 1 - s.read.spin + s.write.spin + 1)
  }

  /** cb_size: status and number of bytes available to read. */
  function SizeOf(s: Ring): (Status, nat) {
    var raw := Wrap32((if NbSpins(s) > 0 then s.size else 0) + s.write.idx - s.read.idx);
    if raw > s.size then (Overrun, s.size) else (Success, raw)
  }

  /** The overrun resynchronisation inside cb_prepare_async_operation. */
  function Resync(s: Ring): Ring {
    s.(read := s.read.(spin := Wrap32(s.write.spin - 1), idx := s.write.idx))
  }

  predicate Wf(s: Ring) {
    && 0 < s.size < U32
    && |s.buff| == s.size
    && WfPtr(s.write, s.size)
    && WfPtr(s.read, s.size)
  }

  predicate WfPtr(p: Ptr, size: nat) {
    p.idx < size && p.spin < U32 && p.idx + InFlight(p) <= size
  }

  /** Bytes of the transaction in progress. */
  function InFlight(p: Ptr): nat {
    if p.started then p.asyncSize else 0
  }

  function PrepareWrite(s: Ring, requested: nat): (p: Prepared)
    requires Wf(s)
    ensures Wf(p.ring) && p.start + p.len <= s.size && p.len <= requested
    ensures p.status == Success && requested > 0 ==> p.len > 0
  {
    if s.write.started then Prepared(s, Busy, 0, 0)
    else
      var len := Min(requested, s.size - s.write.idx);
      Prepared(s.(write := s.write.(started := true, asyncSize := len)), Success, s.write.idx, len)
  }

  function PrepareRead(s: Ring, requested: nat): (p: Prepared)
    requires Wf(s)
    ensures Wf(p.ring) && p.start + p.len <= s.size && p.len <= requested
    ensures p.status == Success || p.status == Overrun <==> p.len > 0
  {
    if s.read.started then Prepared(s, Busy, 0, 0)
    else
      var (ret, available) := SizeOf(s);
      var s1 := if ret == Overrun then Resync(s) else s;
      var wanted := Min(requested, available);
      if wanted == 0 then Prepared(s1, Again, 0, 0)
      else
        var len := Min(wanted, s.size - s1.read.idx);
        Prepared(s1.(read := s1.read.(started := true, asyncSize := len)), ret, s1.read.idx, len)
  }

  function EndPtr(p: Ptr, size: nat): Ptr
    requires size > 0
  {
    var newVal := Wrap32(p.idx + p.asyncSize);
    if newVal >= size then Ptr(newVal % size, Wrap32(p.spin + 1), false, 0)
    else Ptr(newVal, p.spin, false, 0)
  }

  function EndWrite(s: Ring): (r: (Ring, Status))
    requires Wf(s)
    ensures Wf(r.0) && !r.0.write.started
  {
    if s.write.started then (s.(write := EndPtr(s.write, s.size)), Success) else (s, Failure)
  }

  function EndRead(s: Ring): (r: (Ring, Status))
    requires Wf(s)
    ensures Wf(r.0) && !r.0.read.started
  {
    if s.read.started then (s.(read := EndPtr(s.read, s.size)), Success) else (s, Failure)
  }

  /** A raw copy into the buffer memory, by memcpy or DMA. */
  function Store(s: Ring, at: nat, data: seq<Byte>): Ring
    requires at + |data| <= |s.buff|
  {
    s.(buff := s.buff[..at] + data + s.buff[at + |data|..])
  }

  /** cb_write: the chunk loop of cb_operation on the write side. */
  function WriteAll(s: Ring, data: seq<Byte>): (s': Ring)
    requires Wf(s) && !s.write.started
    ensures Wf(s') && !s'.write.started && s'.size == s.size && s'.read == s.read
    decreases |data|
  {
    if data == [] then s
    else
      var p := PrepareWrite(s, |data|);
      var s1 := Store(p.ring, p.start, data[..p.len]);
      WriteAll(EndWrite(s1).0, data[p.len..])
  }

  /**
    cb_read: the chunk loop of cb_operation on the read side, with its sticky overrun.
    Where the C loop would spin until a writer delivers more, the result is Again.
   */
  function ReadAll(s: Ring, n: nat): (r: ReadResult)
    requires Wf(s) && !s.read.started
    ensures Wf(r.ring) && r.ring.size == s.size && r.ring.write == s.write
    decreases n
  {
    if n == 0 then ReadResult(s, Success, [])
    else
      var p := PrepareRead(s, n);
      if p.status == Again then ReadResult(p.ring, Again, [])
      else
        var rest := ReadAll(EndRead(p.ring).0, n - p.len);
        ReadResult(rest.ring, if rest.status != Again && p.status == Overrun then Overrun else rest.status,
                   p.ring.buff[p.start..p.start + p.len] + rest.data)
  }

  // ----- Refinement of an unbounded stream -----

  /**
    The ring stands for the stream `h` of all committed bytes with the reader at
    position `r`: both sides hold their position modulo the size, both lap counters
    the lap modulo 2^32, and every byte of the last `size` ones that no write in
    flight may already have overwritten is in its place.
   */
  ghost predicate Rep(s: Ring, h: seq<Byte>, r: nat) {
    && Wf(s)
    && At(s.write, s.size, |h|)
    && At(s.read, s.size, r)
    && r + InFlight(s.read) <= |h|
    && forall k :: 0 <= k < |h| && |h| + InFlight(s.write) - s.size <= k ==> s.buff[k % s.size] == h[k]
  }

  ghost predicate At(p: Ptr, size: nat, pos: nat)
    requires size > 0
  {
    p.idx == pos % size && p.spin == (pos / size) % U32
  }

  /** How many laps the writer is ahead, without wrap-around. */
  ghost function Gap(s: Ring, h: seq<Byte>, r: nat): int
    requires s.size > 0
  {
    |h| / s.size - r / s.size
  }

  lemma InitRep(size: nat)
    requires 0 < size < U32
    ensures Rep(Init(size), [], 0)
  {
  }

  /** The lap counters' difference is the true gap modulo 2^32, wrapped or not. */
  lemma NbSpinsIsGap(s: Ring, h: seq<Byte>, r: nat)
    requires Rep(s, h, r)
    ensures NbSpins(s) == Gap(s, h, r) % U32
  {
    var a, b := |h| / s.size, r / s.size;
    var d := a / U32 - b / U32;
    assert a - b == d * U32 + (s.write.spin - s.read.spin);
    if s.write.spin > s.read.spin {
      DivModUnique(a - b, U32, d, s.write.spin - s.read.spin);
    } else if s.write.spin == s.read.spin {
      DivModUnique(a - b, U32, d, 0);
    } else {
      DivModUnique(a - b, U32, d - 1, U32 + s.write.spin - s.read.spin);
    }
  }

  /** Unread bytes in terms of gap and indices; the gap's sign rules. */
  lemma UnreadByGap(s: Ring, h: seq<Byte>, r: nat)
    requires Rep(s, h, r)
    ensures |h| - r == Gap(s, h, r) * s.size + s.write.idx - s.read.idx
    ensures Gap(s, h, r) >= 0
    ensures Gap(s, h, r) == 0 ==> s.write.idx >= s.read.idx
    ensures Gap(s, h, r) >= 1 ==> |h| >= s.size
    ensures Gap(s, h, r) >= 2 ==> |h| - r > s.size
  {
    PositionArithmetic(|h|, r, s.size);
  }

  lemma PositionArithmetic(w: nat, r: nat, n: nat)
    requires n > 0 && r <= w
    ensures w - r == (w / n - r / n) * n + w % n - r % n
    ensures w / n >= r / n
    ensures w / n == r / n ==> w % n >= r % n
    ensures w / n > r / n ==> w >= n
    ensures w / n >= r / n + 2 ==> w - r > n
  {
    var a, i := Split(w, n);
    var b, j := Split(r, n);
    LapArithmetic(w, a, i, r, b, j, n);
  }

  lemma Split(x: nat, n: nat) returns (q: nat, e: nat)
    requires n > 0
    ensures q == x / n && e == x % n && x == q * n + e && e < n
  {
    q, e := x / n, x % n;
    DivModSplit(x, n);
  }

  lemma LapArithmetic(w: nat, a: nat, i: nat, r: nat, b: nat, j: nat, n: nat)
    requires i < n && j < n && r <= w && w == a * n + i && r == b * n + j
    ensures w - r == (a - b) * n + i - j
    ensures a >= b && (a == b ==> i >= j)
    ensures a > b ==> w >= n
    ensures a >= b + 2 ==> w - r > n
  {
    assert a * n - b * n == (a - b) * n;
    if a < b {
      MulGe(b - a, n);
    } else if a > b {
      MulGe(a, n);
      if a >= b + 2 {
        MulGe(a - b - 1, n);
      }
    }
  }

  /** While unread data fits, cb_size is the exact unread count, whatever the counters wrapped to. */
  lemma SizeExact(s: Ring, h: seq<Byte>, r: nat)
    requires Rep(s, h, r) && |h| - r <= s.size
    ensures SizeOf(s) == (Success, |h| - r)
  {
    NbSpinsIsGap(s, h, r);
    UnreadByGap(s, h, r);
  }

  /** When cb_size reports an overrun, exactly; `g` is the true number of laps between the sides. */
  ghost predicate ReportCondition(size: nat, w: nat, r: nat, g: int) {
    if g % U32 != 0 then w > r && size + w - r < U32
    else w < r && U32 + w - r > size
  }

  lemma OverrunReportedIff(s: Ring, h: seq<Byte>, r: nat)
    requires Rep(s, h, r)
    ensures SizeOf(s).0 == Overrun <==> ReportCondition(s.size, s.write.idx, s.read.idx, Gap(s, h, r))
  {
    NbSpinsIsGap(s, h, r);
    var raw := (if NbSpins(s) > 0 then s.size else 0) + s.write.idx - s.read.idx;
    if raw >= U32 {
      DivModUnique(raw, U32, 1, raw - U32);
    } else if raw < 0 {
      DivModUnique(raw, U32, -1, raw + U32);
    }
  }

  /** Every report is genuine, with no bound on the laps or on the size. */
  lemma OverrunGenuine(s: Ring, h: seq<Byte>, r: nat)
    requires Rep(s, h, r) && SizeOf(s).0 == Overrun
    ensures |h| - r > s.size && Gap(s, h, r) >= 1
  {
    OverrunReportedIff(s, h, r);
    UnreadByGap(s, h, r);
    var g := Gap(s, h, r);
    if g >= 2 {
    } else if g == 1 {
      assert g % U32 == 1;
    }
  }

  /** The overruns that go unreported, exactly, while fewer than 2^32 laps separate the sides. */
  lemma OverrunMissedIff(s: Ring, h: seq<Byte>, r: nat)
    requires Rep(s, h, r) && Gap(s, h, r) < U32
    ensures (|h| - r > s.size && SizeOf(s).0 != Overrun) <==>
            || (Gap(s, h, r) >= 2 && s.write.idx <= s.read.idx)
            || (Gap(s, h, r) >= 1 && s.write.idx > s.read.idx && s.size + s.write.idx - s.read.idx >= U32)
  {
    OverrunReportedIff(s, h, r);
    UnreadByGap(s, h, r);
    var g := Gap(s, h, r);
    DivModUnique(g, U32, 0, g);
  }

  /** With a gap of at most one lap and a buffer of at most 2^31 bytes no overrun is missed. */
  lemma OverrunDetected(s: Ring, h: seq<Byte>, r: nat)
    requires Rep(s, h, r) && Gap(s, h, r) <= 1 && s.size <= 0x8000_0000
    ensures SizeOf(s).0 == Overrun <==> |h| - r > s.size
  {
    OverrunMissedIff(s, h, r);
    if SizeOf(s).0 == Overrun { OverrunGenuine(s, h, r); }
  }

  // ----- Every operation keeps the representation -----

  lemma EndPtrAt(p: Ptr, size: nat, pos: nat)
    requires 0 < size < U32 && WfPtr(p, size) && p.started && At(p, size, pos)
    ensures WfPtr(EndPtr(p, size), size) && At(EndPtr(p, size), size, pos + p.asyncSize)
  {
    Advance(pos, size, p.asyncSize);
    assert p.idx + p.asyncSize == size ==> size % size == 0;
    var lap := pos / size;
    if p.spin + 1 == U32 {
      assert lap + 1 == (lap / U32 + 1) * U32 + 0;
      DivModUnique(lap + 1, U32, lap / U32 + 1, 0);
    } else {
      DivModUnique(lap + 1, U32, lap / U32, p.spin + 1);
    }
  }

  lemma PrepareWriteRep(s: Ring, h: seq<Byte>, r: nat, n: nat)
    requires Rep(s, h, r)
    ensures var p := PrepareWrite(s, n);
            && Rep(p.ring, h, r)
            && (p.status == Success ==> p.start + p.len <= s.size && p.len <= n && (n > 0 ==> p.len > 0))
  {
  }

  /** A byte position less than one lap behind the writer lies outside the region being written. */
  lemma BehindWriter(s: Ring, h: seq<Byte>, r: nat, k: nat)
    requires Rep(s, h, r) && k < |h| && |h| + InFlight(s.write) - s.size <= k
    ensures k % s.size < s.write.idx || s.write.idx + InFlight(s.write) <= k % s.size
  {
    Back(|h|, s.size, |h| - k);
  }

  /** Filling any part of the region in flight disturbs no byte still promised to the reader. */
  lemma StoreRep(s: Ring, h: seq<Byte>, r: nat, off: nat, data: seq<Byte>)
    requires Rep(s, h, r) && s.write.started && off + |data| <= s.write.asyncSize
    ensures Rep(Store(s, s.write.idx + off, data), h, r)
  {
    var s' := Store(s, s.write.idx + off, data);
    forall k | 0 <= k < |h| && |h| + InFlight(s.write) - s.size <= k
      ensures s'.buff[k % s.size] == h[k]
    {
      BehindWriter(s, h, r, k);
    }
  }

  /** cb_end_async_write commits exactly the bytes found in the region. */
  lemma EndWriteRep(s: Ring, h: seq<Byte>, r: nat)
    requires Rep(s, h, r) && s.write.started
    ensures Rep(EndWrite(s).0, h + s.buff[s.write.idx..s.write.idx + s.write.asyncSize], r)
  {
    var a, i := s.write.asyncSize, s.write.idx;
    var h' := h + s.buff[i..i + a];
    EndPtrAt(s.write, s.size, |h|);
    forall k | 0 <= k < |h'| && |h'| - s.size <= k
      ensures s.buff[k % s.size] == h'[k]
    {
      if k >= |h| {
        Advance(|h|, s.size, k - |h|);
      }
    }
  }

  /** cb_prepare_async_read: on a report the reader is moved to the oldest surviving byte. */
  lemma PrepareReadRep(s: Ring, h: seq<Byte>, r: nat, n: nat)
    requires Rep(s, h, r) && !s.read.started
    ensures var p := PrepareRead(s, n);
            var r' := if SizeOf(s).0 == Overrun then |h| - s.size else r;
            && r' >= 0
            && Rep(p.ring, h, r')
            && (p.status == Again <==> Min(n, SizeOf(s).1) == 0)
            && (p.status != Again ==>
                 p.status == SizeOf(s).0 && p.start == p.ring.read.idx
                 && 0 < p.len == p.ring.read.asyncSize && p.len <= n && p.len <= SizeOf(s).1)
  {
    AvailableAtMostUnread(s, h, r);
    if SizeOf(s).0 == Overrun {
      OverrunGenuine(s, h, r);
      UnreadByGap(s, h, r);
      Back(|h|, s.size, s.size);
      var lap := |h| / s.size;
      if s.write.spin == 0 {
        DivModUnique(lap - 1, U32, lap / U32 - 1, U32 - 1);
        DivModUnique(-1, U32, -1, U32 - 1);
      } else {
        DivModUnique(lap - 1, U32, lap / U32, s.write.spin - 1);
      }
      assert Rep(Resync(s), h, |h| - s.size);
    }
  }

  lemma AvailableAtMostUnread(s: Ring, h: seq<Byte>, r: nat)
    requires Rep(s, h, r)
    ensures SizeOf(s).1 <= |h| - r && SizeOf(s).1 <= s.size
  {
    NbSpinsIsGap(s, h, r);
    UnreadByGap(s, h, r);
    var g := Gap(s, h, r);
    if SizeOf(s).0 == Overrun {
      OverrunGenuine(s, h, r);
    } else if g == 0 || g == 1 {
      assert g % U32 == g;
      var raw := (if g > 0 then s.size else 0) + s.write.idx - s.read.idx;
      if raw >= U32 { DivModUnique(raw, U32, 1, raw - U32); }
    }
  }

  lemma EndReadRep(s: Ring, h: seq<Byte>, r: nat)
    requires Rep(s, h, r) && s.read.started
    ensures Rep(EndRead(s).0, h, r + s.read.asyncSize)
  {
    EndPtrAt(s.read, s.size, r);
  }

  /** Two index ranges, given by start and length, that share no index. */
  ghost predicate Apart(i: nat, a: nat, j: nat, b: nat) {
    a == 0 || b == 0 || i + a <= j || j + b <= i
  }

  /**
    While unread bytes plus the write in flight fit the buffer, the two raw regions share
    no index and the region handed to the reader holds completed bytes, in stream order.
   */
  lemma RegionsDisjoint(s: Ring, h: seq<Byte>, r: nat)
    requires Rep(s, h, r) && |h| + InFlight(s.write) - r <= s.size
    ensures Apart(s.read.idx, InFlight(s.read), s.write.idx, InFlight(s.write))
    ensures s.buff[s.read.idx..s.read.idx + InFlight(s.read)] == h[r..r + InFlight(s.read)]
  {
    hide Apart;
    var a := InFlight(s.read);
    var region := s.buff[s.read.idx..s.read.idx + a];
    forall d | 0 <= d < |region|
      ensures region[d] == h[r..r + a][d]
    {
      ByteInPlace(s, h, r, d);
    }
    ApartArithmetic(|h|, s.size, InFlight(s.write), r, a);
  }

  lemma ByteInPlace(s: Ring, h: seq<Byte>, r: nat, d: nat)
    requires Rep(s, h, r) && |h| + InFlight(s.write) - r <= s.size && d < InFlight(s.read)
    ensures s.buff[s.read.idx + d] == h[r + d]
  {
    Advance(r, s.size, d);
  }

  lemma ApartArithmetic(w: nat, n: nat, b: nat, r: nat, a: nat)
    requires n > 0 && r + a <= w && w + b - r <= n
    ensures Apart(r % n, a, w % n, b)
  {
    Back(w, n, w - r);
  }

  /** cb_write appends the whole of `data`, even when it is longer than the buffer. */
  lemma {:induction false} WriteAllRep(s: Ring, h: seq<Byte>, r: nat, data: seq<Byte>)
    requires Rep(s, h, r) && !s.write.started
    ensures Rep(WriteAll(s, data), h + data, r)
    decreases |data|
  {
    if data == [] {
      assert h + data == h;
    } else {
      var p := PrepareWrite(s, |data|);
      PrepareWriteRep(s, h, r, |data|);
      StoreRep(p.ring, h, r, 0, data[..p.len]);
      var s1 := Store(p.ring, p.start, data[..p.len]);
      EndWriteRep(s1, h, r);
      assert s1.buff[p.start..p.start + p.len] == data[..p.len];
      WriteAllRep(EndWrite(s1).0, h + data[..p.len], r, data[p.len..]);
      assert h + data[..p.len] + data[p.len..] == h + data;
    }
  }

  /** One turn of the read loop, from the position `from` the reader holds after resynchronising. */
  lemma ReadChunk(s: Ring, h: seq<Byte>, r: nat, n: nat, from: nat)
    requires Rep(s, h, r) && !s.read.started && n > 0 && SizeOf(s).1 > 0
    requires from == if SizeOf(s).0 == Overrun then |h| - s.size else r
    requires |h| + InFlight(s.write) - from <= s.size
    ensures Wf(s)
    ensures var p := PrepareRead(s, n);
            var s1 := EndRead(p.ring).0;
            && p.status == SizeOf(s).0 && p.status != Again
            && 0 < p.len <= n && p.len <= SizeOf(s).1 && from + p.len <= |h|
            && p.ring.buff[p.start..p.start + p.len] == h[from..from + p.len]
            && Rep(s1, h, from + p.len) && !s1.read.started
            && |h| + InFlight(s1.write) - (from + p.len) <= s1.size
  {
    PrepareReadRep(s, h, r, n);
    var p := PrepareRead(s, n);
    RegionsDisjoint(p.ring, h, from);
    EndReadRep(p.ring, h, from);
  }

  lemma SliceSplit(h: seq<Byte>, a: nat, b: nat, c: nat)
    requires a <= b <= c <= |h|
    ensures h[a..b] + h[b..c] == h[a..c] == h[a..][..c - a]
  {
  }

  /** Unfolds one turn of the read loop. */
  lemma {:induction false} ReadAllTurn(s: Ring, n: nat)
    requires Wf(s) && !s.read.started && n > 0
    ensures var p := PrepareRead(s, n);
            var rest := ReadAll(EndRead(p.ring).0, n - p.len);
            ReadAll(s, n) == if p.status == Again then ReadResult(p.ring, Again, []) else ReadResult(
              rest.ring,
              if rest.status != Again && p.status == Overrun then Overrun else rest.status,
              p.ring.buff[p.start..p.start + p.len] + rest.data)
  {
    hide PrepareRead, EndRead, Wf;
  }

  lemma ReadAllNothing(s: Ring)
    requires Wf(s) && !s.read.started
    ensures ReadAll(s, 0) == ReadResult(s, Success, [])
  {
  }

  lemma OverrunSize(s: Ring, h: seq<Byte>, r: nat)
    requires Rep(s, h, r) && SizeOf(s).0 == Overrun
    ensures SizeOf(s).1 == s.size > 0 && (!s.write.started ==> InFlight(s.write) == 0)
  {
  }

  lemma RepWf(s: Ring, h: seq<Byte>, r: nat)
    requires Rep(s, h, r)
    ensures Wf(s) && s.size > 0 && r <= |h|
  {
  }

  /** cb_read within the unread data returns it byte for byte, in order. */
  lemma {:induction false} ReadAllInOrder(s: Ring, h: seq<Byte>, r: nat, n: nat) returns (s': Ring)
    requires Rep(s, h, r) && !s.read.started
    requires |h| + InFlight(s.write) - r <= s.size && n <= |h| - r
    ensures ReadAll(s, n) == ReadResult(s', Success, h[r..r + n])
    ensures Rep(s', h, r + n)
    decreases n
  {
    hide *;
    RepWf(s, h, r);
    if n == 0 {
      ReadAllNothing(s);
      return s;
    }
    SizeExact(s, h, r);
    ReadChunk(s, h, r, n, r);
    var p := PrepareRead(s, n);
    var s1 := EndRead(p.ring).0;
    s' := ReadAllInOrder(s1, h, r + p.len, n - p.len);
    ReadAllTurn(s, n);
    SliceSplit(h, r, r + p.len, r + n);
  }

  /** After a reported overrun cb_read delivers the most recent `size` bytes, oldest first. */
  lemma ReadAllAfterOverrun(s: Ring, h: seq<Byte>, r: nat, n: nat) returns (s': Ring)
    requires Rep(s, h, r) && !s.read.started && !s.write.started
    requires SizeOf(s).0 == Overrun && 0 < n <= s.size
    ensures |h| >= s.size
    ensures ReadAll(s, n) == ReadResult(s', Overrun, h[|h| - s.size..][..n])
    ensures Rep(s', h, |h| - s.size + n)
  {
    hide *;
    OverrunGenuine(s, h, r);
    OverrunSize(s, h, r);
    var oldest := |h| - s.size;
    ReadChunk(s, h, r, n, oldest);
    var p := PrepareRead(s, n);
    var s1 := EndRead(p.ring).0;
    s' := ReadAllInOrder(s1, h, oldest + p.len, n - p.len);
    ReadAllTurn(s, n);
    SliceSplit(h, oldest, oldest + p.len, oldest + n);
  }

  /** A read of more than is there would wait. */
  lemma {:induction false} ReadPastEnd(s: Ring, h: seq<Byte>, r: nat, n: nat)
    requires Rep(s, h, r) && !s.read.started
    requires |h| + InFlight(s.write) - r <= s.size && n > |h| - r
    ensures Wf(s) && ReadAll(s, n).status == Again
    decreases n
  {
    hide PrepareRead, EndRead, ReadAll, Rep, Wf, SizeOf, InFlight;
    RepWf(s, h, r);
    SizeExact(s, h, r);
    PrepareReadRep(s, h, r, n);
    ReadAllTurn(s, n);
    if |h| - r > 0 {
      ReadChunk(s, h, r, n, r);
      var p := PrepareRead(s, n);
      ReadPastEnd(EndRead(p.ring).0, h, r + p.len, n - p.len);
    }
  }

  // ----- Status and extent of the transactions, exactly -----

  /** A write gets all it asks for up to the end of the memory; while one is open the next is refused. */
  lemma PrepareWriteExact(s: Ring, n: nat)
    requires Wf(s)
    ensures s.write.started ==> PrepareWrite(s, n) == Prepared(s, Busy, 0, 0)
    ensures !s.write.started ==>
              var room := s.size - s.write.idx;
              var len := if n <= room then n else room;
              PrepareWrite(s, n) ==
              Prepared(s.(write := Ptr(s.write.idx, s.write.spin, true, len)), Success, s.write.idx, len)
  {
  }

  /** A read gets all it asks for, up to what is available and to the end of the memory. */
  lemma PrepareReadExact(s: Ring, n: nat)
    requires Wf(s)
    ensures s.read.started ==> PrepareRead(s, n) == Prepared(s, Busy, 0, 0)
    ensures !s.read.started ==>
              var p := PrepareRead(s, n);
              && p.ring.buff == s.buff && p.ring.write == s.write && p.ring.size == s.size
              && (SizeOf(s).0 != Overrun ==> p.ring.read.idx == s.read.idx && p.ring.read.spin == s.read.spin)
              && (p.status == Again <==> n == 0 || SizeOf(s).1 == 0)
              && (p.status == Again ==> p.len == 0 && !p.ring.read.started)
              && (p.status != Again ==>
                   && p.status == SizeOf(s).0 && p.start == p.ring.read.idx
                   && p.ring.read.started && p.ring.read.asyncSize == p.len
                   && p.len <= n && p.len <= SizeOf(s).1 && p.start + p.len <= s.size
                   && (p.len == n || p.len == SizeOf(s).1 || p.start + p.len == s.size))
  {
  }

  /** Ending a transaction that is not open fails and changes nothing; an open one is closed. */
  lemma EndExact(s: Ring)
    requires Wf(s)
    ensures !s.write.started ==> EndWrite(s) == (s, Failure)
    ensures !s.read.started ==> EndRead(s) == (s, Failure)
    ensures s.write.started ==>
              var (t, status) := EndWrite(s);
              status == Success && !t.write.started && t.write.asyncSize == 0 && t == s.(write := t.write)
    ensures s.read.started ==>
              var (t, status) := EndRead(s);
              status == Success && !t.read.started && t.read.asyncSize == 0 && t == s.(read := t.read)
  {
  }
}
