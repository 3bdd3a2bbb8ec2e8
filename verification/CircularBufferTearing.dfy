/**
  cb_end_async_write seen from an interrupt: it stores the writer's lap counter before the
  writer's index (util/circular_buffer.c:257-264).  This module splits the end of a write at
  that point, says exactly when a reader that comes in between is misled, and proves that
  every finer interleaving without such a read delivers the stream as the atomic one does.
 */
module CircularBufferTearing {
  import opened Machine
  import opened CircularBuffer
  import S = CircularBufferSharing

  /** The write in progress reaches the end of the buffer. */
  predicate Wraps(s: Ring) {
    s.write.started && s.write.idx + s.write.asyncSize >= s.size
  }

  /** Memory after the lap counter has been stored and before the index is. */
  function SpinStored(s: Ring): Ring {
    if Wraps(s) then s.(write := s.write.(spin := Wrap32(s.write.spin + 1))) else s
  }

  /** The remaining stores: index, size and flag of the transaction. */
  function IdxStored(t: Ring): Ring
    requires t.size > 0
  {
    var newVal := Wrap32(t.write.idx + t.write.asyncSize);
    t.(write := Ptr(if newVal >= t.size then newVal % t.size else newVal, t.write.spin, false, 0))
  }

  /** The two halves together are cb_end_async_write. */
  lemma HalvesAreEnd(s: Ring)
    requires Wf(s) && s.write.started
    ensures IdxStored(SpinStored(s)) == EndWrite(s).0
  {
  }

  /** What cb_size computes between the stores, for unread data that fits. */
  lemma TornSize(s: Ring, h: seq<Byte>, r: nat)
    requires Rep(s, h, r) && s.write.started && |h| - r <= s.size
    ensures SizeOf(SpinStored(s)) ==
            if !Wraps(s) || Gap(s, h, r) >= 1 then (Success, |h| - r)
            else if s.write.idx == s.read.idx then (Success, s.size)
            else if s.size + s.write.idx - s.read.idx < U32 then (Overrun, s.size)
            else (Success, s.size + s.write.idx - s.read.idx - U32)
  {
    SizeExact(s, h, r);
    if Wraps(s) {
      NbSpinsIsGap(s, h, r);
      UnreadByGap(s, h, r);
      TornSpins(s);
      var raw := s.size + s.write.idx - s.read.idx;
      if raw >= U32 {
        DivModUnique(raw, U32, 1, raw - U32);
      }
    }
  }

  /** The stored counter puts the writer one lap further ahead. */
  lemma TornSpins(s: Ring)
    requires Wf(s) && Wraps(s) && NbSpins(s) < U32 - 1
    ensures NbSpins(SpinStored(s)) == NbSpins(s) + 1
  {
  }

  /**
    Between the two stores cb_size is right if and only if the write does not reach the end of
    the buffer, or the reader is still on an earlier lap.
   */
  lemma TornSizeIff(s: Ring, h: seq<Byte>, r: nat)
    requires Rep(s, h, r) && s.write.started && |h| - r <= s.size
    ensures SizeOf(SpinStored(s)) == (Success, |h| - r) <==> !Wraps(s) || Gap(s, h, r) >= 1
  {
    TornSize(s, h, r);
    UnreadByGap(s, h, r);
  }

  /** The same raw region with the same status. */
  ghost predicate SameRead(p: Prepared, q: Prepared) {
    p.status == q.status && p.start == q.start && p.len == q.len && p.ring.read == q.ring.read
  }

  /** A read prepared between the stores is right, for every requested size, under the same condition. */
  lemma TornReadIff(s: Ring, h: seq<Byte>, r: nat)
    requires Rep(s, h, r) && s.write.started && !s.read.started && |h| - r <= s.size
    ensures Wf(SpinStored(s))
    ensures (forall n :: SameRead(PrepareRead(SpinStored(s), n), PrepareRead(s, n)))
            <==> !Wraps(s) || Gap(s, h, r) >= 1
  {
    hide Rep, Gap;
    RepWf(s, h, r);
    TornWf(s);
    TornSizeIff(s, h, r);
    SizeExact(s, h, r);
    if Wraps(s) && Gap(s, h, r) < 1 {
      TornReadWrong(s, h, r);
    }
  }

  lemma TornWf(s: Ring)
    requires Wf(s)
    ensures Wf(SpinStored(s))
  {
  }

  lemma TornReadWrong(s: Ring, h: seq<Byte>, r: nat)
    requires Rep(s, h, r) && s.write.started && !s.read.started && |h| - r <= s.size
    requires Wraps(s) && Gap(s, h, r) < 1
    ensures Wf(SpinStored(s))
    ensures var n := if |h| == r then 1 else |h| - r;
            !SameRead(PrepareRead(SpinStored(s), n), PrepareRead(s, n))
  {
    hide Rep, SizeOf;
    RepWf(s, h, r);
    TornWf(s);
    TornSize(s, h, r);
    UnreadByGap(s, h, r);
    SizeExact(s, h, r);
  }

  // ----- Runs with the end of a write split -----

  datatype Op =
    | PrepareW(n: nat) | Fill(off: nat, data: seq<Byte>)
    | StoreSpin | StoreIdx        // the two halves of cb_end_async_write
    | PrepareR(n: nat) | Copy | EndR

  /** Memory, streams and last copy, and whether the writer is between its two stores. */
  datatype Fine = Fine(y: S.Sys, ending: bool)

  predicate WfFine(f: Fine) {
    Wf(f.y.ring) && (f.ending ==> f.y.ring.write.started)
  }

  /** The writer, inside its call, starts nothing else; the reader may do anything. */
  function FineStep(f: Fine, op: Op): (f': Fine)
    requires WfFine(f)
    ensures WfFine(f')
  {
    var s := f.y.ring;
    match op
    case PrepareW(n) => if f.ending then f else f.(y := S.Step(f.y, S.PrepareW(n)))
    case Fill(off, data) => if f.ending then f else f.(y := S.Step(f.y, S.Fill(off, data)))
    case StoreSpin => if f.ending || !s.write.started then f else Fine(f.y.(ring := SpinStored(s)), true)
    case StoreIdx =>
      if !f.ending then f
      else Fine(f.y.(ring := IdxStored(s), committed := f.y.committed + S.Region(s, s.write)), false)
    case PrepareR(n) => f.(y := S.Step(f.y, S.PrepareR(n)))
    case Copy => f.(y := S.Step(f.y, S.Copy))
    case EndR => f.(y := S.Step(f.y, S.EndR))
  }

  function FineRun(f: Fine, ops: seq<Op>): (f': Fine)
    requires WfFine(f)
    ensures WfFine(f')
    decreases |ops|
  {
    if ops == [] then f else FineRun(FineStep(f, ops[0]), ops[1..])
  }

  function Begin(size: nat): Fine {
    Fine(S.Start(size), false)
  }

  /** The state with an unfinished end taken as not begun. */
  function Whole(f: Fine): S.Sys {
    if f.ending && Wraps(f.y.ring)
    then f.y.(ring := f.y.ring.(write := f.y.ring.write.(spin := Wrap32(f.y.ring.write.spin - 1))))
    else f.y
  }

  /** A new read now would be misled: the stored lap counter is one ahead of a reader on the writer's lap. */
  predicate Misleading(f: Fine) {
    f.ending && Wraps(f.y.ring) && f.y.ring.write.spin == Wrap32(f.y.ring.read.spin + 1)
  }

  /** Nothing exceeds the buffer, the reader copies before it ends, and no read starts while misleading. */
  predicate GoodStep(f: Fine, op: Op)
    requires WfFine(f)
  {
    && (op == EndR && f.y.ring.read.started ==> f.y.copied.Some?)
    && (op.PrepareR? && !f.y.ring.read.started ==> !Misleading(f))
    && S.Fits(Whole(FineStep(f, op)))
  }

  predicate GoodRun(f: Fine, ops: seq<Op>)
    requires WfFine(f)
    decreases |ops|
  {
    ops == [] || (GoodStep(f, ops[0]) && GoodRun(FineStep(f, ops[0]), ops[1..]))
  }

  /** The atomic step that a fine step stands for. */
  ghost function Atomic(f: Fine, op: Op): (y: S.Sys)
    requires Wf(Whole(f).ring)
  {
    match op
    case PrepareW(n) => if f.ending then Whole(f) else S.Step(Whole(f), S.PrepareW(n))
    case Fill(off, data) => if f.ending then Whole(f) else S.Step(Whole(f), S.Fill(off, data))
    case StoreSpin => Whole(f)
    case StoreIdx => if f.ending then S.Step(Whole(f), S.EndW) else Whole(f)
    case PrepareR(n) => S.Step(Whole(f), S.PrepareR(n))
    case Copy => S.Step(Whole(f), S.Copy)
    case EndR => S.Step(Whole(f), S.EndR)
  }

  lemma WholeWf(f: Fine)
    requires WfFine(f)
    ensures Wf(Whole(f).ring)
    ensures f.ending ==> SpinStored(Whole(f).ring) == f.y.ring && Whole(f).ring.write.started
    ensures f.ending ==> (Wraps(Whole(f).ring) <==> Wraps(f.y.ring))
  {
    SpinBack(f.y.ring.write.spin);
  }

  lemma SpinBack(spin: nat)
    requires spin < U32
    ensures Wrap32(Wrap32(spin - 1) + 1) == spin == Wrap32(Wrap32(spin + 1) - 1)
  {
    if spin == 0 {
      DivModUnique(-1, U32, -1, U32 - 1);
      DivModUnique(U32, U32, 1, 0);
    } else if spin == U32 - 1 {
      DivModUnique(U32, U32, 1, 0);
      DivModUnique(-1, U32, -1, U32 - 1);
    }
  }

  /**
    Within capacity the stored counters mislead exactly while the end of a write that reaches
    the end of the buffer is unfinished: the reader is then on the writer's lap.
   */
  lemma MisleadingIff(f: Fine)
    requires WfFine(f) && f.ending && S.Sound(Whole(f))
    ensures var y := Whole(f);
            && Rep(y.ring, y.committed, |y.out|)
            && (Misleading(f) <==> Wraps(y.ring))
            && (Wraps(y.ring) ==> Gap(y.ring, y.committed, |y.out|) == 0)
  {
    var y := Whole(f);
    WholeWf(f);
    if Wraps(y.ring) {
      WrapsOnSameLap(y.ring, y.committed, |y.out|);
      NbSpinsIsGap(y.ring, y.committed, |y.out|);
      SpinBack(f.y.ring.write.spin);
      SpinBack(f.y.ring.read.spin);
    }
  }

  lemma PrepareSimulated(f: Fine, n: nat)
    requires WfFine(f) && S.Sound(Whole(f)) && GoodStep(f, PrepareR(n))
    ensures Wf(Whole(f).ring) && Whole(FineStep(f, PrepareR(n))) == S.Step(Whole(f), S.PrepareR(n))
  {
    hide SizeOf, Rep, S.Sound, S.Fits;
    WholeWf(f);
    if f.ending && !f.y.ring.read.started {
      var y := Whole(f);
      MisleadingIff(f);
      SoundSize(y);
      TornSizeIff(y.ring, y.committed, |y.out|);
      SizeExact(y.ring, y.committed, |y.out|);
    }
  }

  lemma SoundSize(y: S.Sys)
    requires S.Sound(y)
    ensures Rep(y.ring, y.committed, |y.out|) && |y.committed| - |y.out| <= y.ring.size
  {
  }

  /** Every fine step that starts no misled read is the atomic step, or none. */
  lemma StepSimulated(f: Fine, op: Op)
    requires WfFine(f) && S.Sound(Whole(f)) && GoodStep(f, op)
    ensures Wf(Whole(f).ring) && Whole(FineStep(f, op)) == Atomic(f, op)
  {
    hide Rep, S.Sound, S.Fits, SizeOf, PrepareRead, PrepareWrite;
    WholeWf(f);
    match op
    case PrepareR(n) => PrepareSimulated(f, n);
    case StoreSpin => StoreSpinSimulated(f);
    case StoreIdx => StoreIdxSimulated(f);
    case EndR => EndReadSimulated(f);
    case Copy => CopySimulated(f);
    case _ =>
  }

  lemma CopySimulated(f: Fine)
    requires WfFine(f)
    ensures Wf(Whole(f).ring) && Whole(FineStep(f, Copy)) == Atomic(f, Copy)
  {
    WholeWf(f);
  }

  lemma EndReadSimulated(f: Fine)
    requires WfFine(f)
    ensures Wf(Whole(f).ring) && Whole(FineStep(f, EndR)) == Atomic(f, EndR)
  {
    hide EndPtr;
    WholeWf(f);
  }

  lemma StoreSpinSimulated(f: Fine)
    requires WfFine(f)
    ensures Wf(Whole(f).ring) && Whole(FineStep(f, StoreSpin)) == Atomic(f, StoreSpin)
  {
    WholeWf(f);
    SpinBack(f.y.ring.write.spin);
  }

  lemma StoreIdxSimulated(f: Fine)
    requires WfFine(f)
    ensures Wf(Whole(f).ring) && Whole(FineStep(f, StoreIdx)) == Atomic(f, StoreIdx)
  {
    WholeWf(f);
    if f.ending {
      HalvesAreEnd(Whole(f).ring);
    }
  }

  lemma FineStepSound(f: Fine, op: Op)
    requires WfFine(f) && S.Sound(Whole(f)) && GoodStep(f, op)
    ensures S.Sound(Whole(FineStep(f, op)))
  {
    hide S.Sound, S.Step, FineStep, S.Fits, Rep;
    StepSimulated(f, op);
    var y := Whole(f);
    match op
    case PrepareW(n) => if !f.ending { S.StepSound(y, S.PrepareW(n)); }
    case Fill(off, data) => if !f.ending { S.StepSound(y, S.Fill(off, data)); }
    case StoreSpin =>
    case StoreIdx => if f.ending { S.StepSound(y, S.EndW); }
    case PrepareR(n) => S.StepSound(y, S.PrepareR(n));
    case Copy => S.StepSound(y, S.Copy);
    case EndR => S.StepSound(y, S.EndR);
  }

  lemma {:induction false} FineRunSound(f: Fine, ops: seq<Op>)
    requires WfFine(f) && S.Sound(Whole(f)) && GoodRun(f, ops)
    ensures S.Sound(Whole(FineRun(f, ops)))
    decreases |ops|
  {
    hide S.Sound, FineStep, GoodStep, WfFine;
    if ops != [] {
      FineStepSound(f, ops[0]);
      FineRunSound(FineStep(f, ops[0]), ops[1..]);
    }
  }

  /**
    In every interleaving of the split operations from an empty ring that stays within capacity
    and starts no read while misleading, the reader receives the committed stream byte for
    byte in order, and outside an unfinished end cb_size is the exact unread count.
   */
  lemma FineRunDelivers(size: nat, ops: seq<Op>)
    requires 0 < size < U32 && WfFine(Begin(size)) && GoodRun(Begin(size), ops)
    ensures var f := FineRun(Begin(size), ops);
            && f.y.out <= f.y.committed
            && (!f.ending ==> SizeOf(f.y.ring) == (Success, |f.y.committed| - |f.y.out|))
  {
    hide FineRun, GoodRun, SizeOf, Rep;
    InitRep(size);
    assert S.Sound(Whole(Begin(size)));
    FineRunSound(Begin(size), ops);
    var f := FineRun(Begin(size), ops);
    SizeExact(Whole(f).ring, f.y.committed, |f.y.out|);
  }

  // ----- The two wrong outcomes -----

  lemma RunFirst(f: Fine, op: Op, ops: seq<Op>)
    requires WfFine(f)
    ensures FineRun(f, [op] + ops) == FineRun(FineStep(f, op), ops)
  {
    hide FineStep, WfFine;
    assert ([op] + ops)[1..] == ops;
  }

  lemma RunNone(f: Fine)
    requires WfFine(f)
    ensures FineRun(f, []) == f
  {
  }

  lemma RunThree(f: Fine, a: Op, b: Op, c: Op, ops: seq<Op>)
    requires WfFine(f)
    ensures FineRun(f, [a, b, c] + ops) == FineRun(FineStep(FineStep(FineStep(f, a), b), c), ops)
  {
    hide FineRun, FineStep, WfFine;
    assert [a, b, c] + ops == [a] + ([b] + ([c] + ops));
    RunFirst(f, a, [b] + ([c] + ops));
    RunFirst(FineStep(f, a), b, [c] + ops);
    RunFirst(FineStep(FineStep(f, a), b), c, ops);
  }

  /** The state of a ring of two bytes. */
  function Two(a: Byte, b: Byte, write: Ptr, read: Ptr, committed: seq<Byte>, out: seq<Byte>, ending: bool): Fine {
    Fine(S.Sys(Ring(2, [a, b], write, read), committed, out, None), ending)
  }

  lemma FirstWrite(b: Byte)
    ensures WfFine(Begin(2))
    ensures var f := FineStep(FineStep(FineStep(Begin(2), PrepareW(1)), Fill(0, [b])), StoreSpin);
            FineStep(f, StoreIdx) == Two(b, 0, Ptr(1, 0, false, 0), Ptr(0, 0, false, 0), [b], [], false)
  {
    var f2 := FineStep(FineStep(Begin(2), PrepareW(1)), Fill(0, [b]));
    assert f2.y.ring.buff == [b, 0];
    assert FineStep(f2, StoreSpin) == f2.(ending := true);
  }

  /** The second byte, up to the store of the lap counter. */
  lemma SecondHalfWrite(a: Byte, b: Byte, read: Ptr, out: seq<Byte>)
    requires read == Ptr(0, 0, false, 0) || read == Ptr(1, 0, false, 0)
    ensures var f := Two(a, 0, Ptr(1, 0, false, 0), read, [a], out, false);
            WfFine(f) && FineStep(FineStep(FineStep(f, PrepareW(1)), Fill(0, [b])), StoreSpin) ==
            Two(a, b, Ptr(1, 1, true, 1), read, [a], out, true)
  {
    var f := Two(a, 0, Ptr(1, 0, false, 0), read, [a], out, false);
    var f2 := FineStep(FineStep(f, PrepareW(1)), Fill(0, [b]));
    assert f2.y.ring.buff == [a, b];
  }

  /** With the first byte unread: -EOVERRUN, and the reader is moved past it. */
  lemma MisledOverrun(a: Byte, b: Byte)
    ensures var f := Two(a, b, Ptr(1, 1, true, 1), Ptr(0, 0, false, 0), [a], [], true);
            && WfFine(f) && Misleading(f) && PrepareRead(f.y.ring, 1).status == Overrun
            && FineStep(FineStep(FineStep(f, PrepareR(1)), Copy), EndR) ==
               Two(a, b, Ptr(1, 1, true, 1), Ptr(0, 1, false, 0), [a], [b], true)
  {
    var f := Two(a, b, Ptr(1, 1, true, 1), Ptr(0, 0, false, 0), [a], [], true);
    assert SizeOf(f.y.ring) == (Overrun, 2);
    var f2 := FineStep(FineStep(f, PrepareR(1)), Copy);
    assert [a, b][1..2] == [b];
    assert f2.y.copied == Some([b]);
  }

  lemma EndsAt(a: Byte, b: Byte, read: Ptr, out: seq<Byte>)
    requires read.idx < 2 && read.spin < U32 && !read.started
    ensures var f := Two(a, b, Ptr(1, 1, true, 1), read, [a], out, true);
            WfFine(f) && FineStep(f, StoreIdx) == Two(a, b, Ptr(0, 1, false, 0), read, [a, b], out, false)
  {
  }

  /**
    A false -EOVERRUN: two bytes go into a ring of two, a one-byte read comes between the stores
    of the second end, and the first byte is never delivered.
   */
  lemma FalseOverrun(a: Byte, b: Byte)
    ensures WfFine(Begin(2))
    ensures var ops := [PrepareW(1), Fill(0, [a]), StoreSpin] + ([StoreIdx] + ([PrepareW(1), Fill(0, [b]), StoreSpin]
                       + ([PrepareR(1), Copy, EndR] + ([StoreIdx] + []))));
            var f := FineRun(Begin(2), ops);
            f.y.committed == [a, b] && f.y.out == [b] && SizeOf(f.y.ring) == (Success, 0)
  {
    hide FineRun, FineStep, WfFine;
    FirstWrite(a);
    var f3 := FineStep(FineStep(FineStep(Begin(2), PrepareW(1)), Fill(0, [a])), StoreSpin);
    var r4 := [PrepareR(1), Copy, EndR] + ([StoreIdx] + []);
    var r3 := [PrepareW(1), Fill(0, [b]), StoreSpin] + r4;
    RunThree(Begin(2), PrepareW(1), Fill(0, [a]), StoreSpin, [StoreIdx] + r3);
    RunFirst(f3, StoreIdx, r3);
    SecondHalfWrite(a, b, Ptr(0, 0, false, 0), []);
    RunThree(FineStep(f3, StoreIdx), PrepareW(1), Fill(0, [b]), StoreSpin, r4);
    MisledOverrun(a, b);
    var f7 := Two(a, b, Ptr(1, 1, true, 1), Ptr(0, 0, false, 0), [a], [], true);
    RunThree(f7, PrepareR(1), Copy, EndR, [StoreIdx] + []);
    var f10 := Two(a, b, Ptr(1, 1, true, 1), Ptr(0, 1, false, 0), [a], [b], true);
    EndsAt(a, b, Ptr(0, 1, false, 0), [b]);
    RunFirst(f10, StoreIdx, []);
    RunNone(FineStep(f10, StoreIdx));
  }

  /** With nothing unread: the whole buffer is offered. */
  lemma MisledStale(a: Byte, b: Byte)
    ensures var f := Two(a, b, Ptr(1, 1, true, 1), Ptr(1, 0, false, 0), [a], [a], true);
            && WfFine(f) && Misleading(f) && SizeOf(f.y.ring) == (Success, 2)
            && FineStep(FineStep(FineStep(f, PrepareR(2)), Copy), EndR) ==
               Two(a, b, Ptr(1, 1, true, 1), Ptr(0, 1, false, 0), [a], [a, b], true)
  {
    var f := Two(a, b, Ptr(1, 1, true, 1), Ptr(1, 0, false, 0), [a], [a], true);
    assert SizeOf(f.y.ring) == (Success, 2);
    var f2 := FineStep(FineStep(f, PrepareR(2)), Copy);
    assert [a, b][1..2] == [b];
    assert f2.y.copied == Some([b]);
  }

  lemma StaleAgain(a: Byte, b: Byte)
    ensures var f := Two(a, b, Ptr(1, 1, true, 1), Ptr(0, 1, false, 0), [a], [a, b], true);
            && WfFine(f)
            && FineStep(FineStep(FineStep(f, PrepareR(1)), Copy), EndR) ==
               Two(a, b, Ptr(1, 1, true, 1), Ptr(1, 1, false, 0), [a], [a, b, a], true)
  {
    var f := Two(a, b, Ptr(1, 1, true, 1), Ptr(0, 1, false, 0), [a], [a, b], true);
    assert SizeOf(f.y.ring) == (Success, 1);
    var f2 := FineStep(FineStep(f, PrepareR(1)), Copy);
    assert [a, b][0..1] == [a];
    assert f2.y.copied == Some([a]);
  }

  lemma FirstRead(a: Byte)
    ensures var f := Two(a, 0, Ptr(1, 0, false, 0), Ptr(0, 0, false, 0), [a], [], false);
            WfFine(f) && FineStep(FineStep(FineStep(f, PrepareR(1)), Copy), EndR) ==
            Two(a, 0, Ptr(1, 0, false, 0), Ptr(1, 0, false, 0), [a], [a], false)
  {
    var f := Two(a, 0, Ptr(1, 0, false, 0), Ptr(0, 0, false, 0), [a], [], false);
    assert SizeOf(f.y.ring) == (Success, 1);
    var f2 := FineStep(FineStep(f, PrepareR(1)), Copy);
    assert f.y.ring.buff[0..1] == [a];
    assert f2.y.copied == Some([a]);
  }

  /**
    Stale bytes: a byte is written and read, and between the stores of the next end the empty
    ring offers two bytes.  Both are taken, the second being the first byte once more.
   */
  lemma StaleBytes(a: Byte, b: Byte)
    ensures WfFine(Begin(2))
    ensures var ops := [PrepareW(1), Fill(0, [a]), StoreSpin] + ([StoreIdx] + ([PrepareR(1), Copy, EndR]
                       + ([PrepareW(1), Fill(0, [b]), StoreSpin] + ([PrepareR(2), Copy, EndR]
                       + ([PrepareR(1), Copy, EndR] + ([StoreIdx] + []))))));
            var f := FineRun(Begin(2), ops);
            f.y.committed == [a, b] && f.y.out == [a, b, a]
  {
    hide FineRun, FineStep, WfFine;
    FirstWrite(a);
    var f3 := FineStep(FineStep(FineStep(Begin(2), PrepareW(1)), Fill(0, [a])), StoreSpin);
    var r6 := [PrepareR(1), Copy, EndR] + ([StoreIdx] + []);
    var r5 := [PrepareR(2), Copy, EndR] + r6;
    var r4 := [PrepareW(1), Fill(0, [b]), StoreSpin] + r5;
    var r3 := [PrepareR(1), Copy, EndR] + r4;
    RunThree(Begin(2), PrepareW(1), Fill(0, [a]), StoreSpin, [StoreIdx] + r3);
    RunFirst(f3, StoreIdx, r3);
    FirstRead(a);
    RunThree(FineStep(f3, StoreIdx), PrepareR(1), Copy, EndR, r4);
    SecondHalfWrite(a, b, Ptr(1, 0, false, 0), [a]);
    var f7 := Two(a, 0, Ptr(1, 0, false, 0), Ptr(1, 0, false, 0), [a], [a], false);
    RunThree(f7, PrepareW(1), Fill(0, [b]), StoreSpin, r5);
    MisledStale(a, b);
    RunThree(Two(a, b, Ptr(1, 1, true, 1), Ptr(1, 0, false, 0), [a], [a], true), PrepareR(2), Copy, EndR, r6);
    StaleAgain(a, b);
    var f13 := Two(a, b, Ptr(1, 1, true, 1), Ptr(0, 1, false, 0), [a], [a, b], true);
    RunThree(f13, PrepareR(1), Copy, EndR, [StoreIdx] + []);
    var f16 := Two(a, b, Ptr(1, 1, true, 1), Ptr(1, 1, false, 0), [a], [a, b, a], true);
    EndsAt(a, b, Ptr(1, 1, false, 0), [a, b, a]);
    RunFirst(f16, StoreIdx, []);
    RunNone(FineStep(f16, StoreIdx));
  }

  // ----- The reader interrupted between its two loads -----

  /** What cb_size sees when the whole end of the write falls between its load of the lap counter and of the index. */
  function SplitLoad(s: Ring): Ring
    requires Wf(s)
  {
    s.(write := s.write.(idx := EndWrite(s).0.write.idx))
  }

  /**
    Such a cb_size returns the unread count of before or of after the end if and only if the
    write does not reach the end of the buffer, or fills it whole.
   */
  lemma SplitLoadIff(s: Ring, h: seq<Byte>, r: nat)
    requires Rep(s, h, r) && s.write.started && |h| + InFlight(s.write) - r <= s.size
    ensures (SizeOf(SplitLoad(s)) == (Success, |h| - r)
             || SizeOf(SplitLoad(s)) == (Success, |h| + s.write.asyncSize - r))
            <==> !Wraps(s) || (s.write.idx == 0 && s.read.idx == 0)
  {
    NbSpinsIsGap(s, h, r);
    UnreadByGap(s, h, r);
    if Wraps(s) {
      assert s.write.idx + s.write.asyncSize == s.size && s.size % s.size == 0;
      WrapsOnSameLap(s, h, r);
      if s.read.idx > 0 {
        DivModUnique(0 - s.read.idx, U32, -1, U32 - s.read.idx);
      }
    } else {
      SizeExact(s, h, r);
      SplitLoadPlain(s, h, r);
    }
  }

  /** Within capacity a write reaches the end of the buffer only with the reader on the same lap. */
  lemma WrapsOnSameLap(s: Ring, h: seq<Byte>, r: nat)
    requires Rep(s, h, r) && Wraps(s) && |h| + InFlight(s.write) - r <= s.size
    ensures Gap(s, h, r) == 0
  {
    UnreadByGap(s, h, r);
    if Gap(s, h, r) >= 1 {
      MulGe(Gap(s, h, r), s.size);
    }
  }

  lemma SplitLoadPlain(s: Ring, h: seq<Byte>, r: nat)
    requires Rep(s, h, r) && s.write.started && !Wraps(s) && |h| + InFlight(s.write) - r <= s.size
    ensures SizeOf(SplitLoad(s)) == (Success, |h| + s.write.asyncSize - r)
  {
    EndWriteRep(s, h, r);
    SizeExact(EndWrite(s).0, h + s.buff[s.write.idx..s.write.idx + s.write.asyncSize], r);
  }

  /** An empty ring, reached by writing and reading one byte, then reports an overrun. */
  lemma SplitLoadOverrun(a: Byte, b: Byte)
    ensures WfFine(Begin(2))
    ensures var ops := [PrepareW(1), Fill(0, [a]), StoreSpin] + ([StoreIdx] + ([PrepareR(1), Copy, EndR]
                       + ([PrepareW(1)] + [])));
            var f := FineRun(Begin(2), ops);
            f.y.committed == f.y.out == [a] && SizeOf(SplitLoad(f.y.ring)) == (Overrun, 2)
  {
    hide FineRun, FineStep, WfFine;
    FirstWrite(a);
    var f3 := FineStep(FineStep(FineStep(Begin(2), PrepareW(1)), Fill(0, [a])), StoreSpin);
    var r3 := [PrepareR(1), Copy, EndR] + ([PrepareW(1)] + []);
    RunThree(Begin(2), PrepareW(1), Fill(0, [a]), StoreSpin, [StoreIdx] + r3);
    RunFirst(f3, StoreIdx, r3);
    FirstRead(a);
    RunThree(FineStep(f3, StoreIdx), PrepareR(1), Copy, EndR, [PrepareW(1)] + []);
    var f7 := Two(a, 0, Ptr(1, 0, false, 0), Ptr(1, 0, false, 0), [a], [a], false);
    EmptyPrepared(a);
    RunFirst(f7, PrepareW(1), []);
    RunNone(FineStep(f7, PrepareW(1)));
  }

  lemma EmptyPrepared(a: Byte)
    ensures var f := Two(a, 0, Ptr(1, 0, false, 0), Ptr(1, 0, false, 0), [a], [a], false);
            && WfFine(f)
            && FineStep(f, PrepareW(1)) == Two(a, 0, Ptr(1, 0, true, 1), Ptr(1, 0, false, 0), [a], [a], false)
            && SizeOf(SplitLoad(FineStep(f, PrepareW(1)).y.ring)) == (Overrun, 2)
  {
  }
}
