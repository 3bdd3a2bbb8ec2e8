/**
  One writer and one reader sharing a ring (util/circular_buffer.c:93-97): every
  interleaving of blocking calls and of the prepare, copy and end steps of both sides,
  each API call taken as one atomic step.
 */
module CircularBufferSharing {
  import opened Machine
  import opened CircularBuffer

  datatype Op =
    | PrepareW(n: nat)
    | Fill(off: nat, data: seq<Byte>)  // the writer's DMA stores part of its region
    | EndW
    | PrepareR(n: nat)
    | Copy                             // the reader copies its region out
    | EndR
    | Write(all: seq<Byte>)            // cb_write
    | Read(n: nat)                     // cb_read

  /** The ring, the bytes committed by the writer, the bytes the reader has taken, its last copy. */
  datatype Sys = Sys(ring: Ring, committed: seq<Byte>, out: seq<Byte>, copied: Option<seq<Byte>>)

  function Start(size: nat): Sys {
    Sys(Init(size), [], [], None)
  }

  function Region(s: Ring, p: Ptr): seq<Byte>
    requires p.idx + p.asyncSize <= |s.buff|
  {
    s.buff[p.idx..p.idx + p.asyncSize]
  }

  function Step(y: Sys, op: Op): (y': Sys)
    requires Wf(y.ring)
    ensures Wf(y'.ring) && y'.ring.size == y.ring.size
  {
    var s := y.ring;
    match op
    case PrepareW(n) => y.(ring := PrepareWrite(s, n).ring)
    case Fill(off, data) =>
      if s.write.started && off + |data| <= s.write.asyncSize
      then y.(ring := Store(s, s.write.idx + off, data)) else y
    case EndW =>
      if s.write.started
      then y.(ring := EndWrite(s).0, committed := y.committed + Region(s, s.write)) else y
    case PrepareR(n) =>
      var p := PrepareRead(s, n);
      y.(ring := p.ring, copied := if p.status == Busy then y.copied else None)
    case Copy =>
      if s.read.started then y.(copied := Some(Region(s, s.read))) else y
    case EndR =>
      if s.read.started
      then Sys(EndRead(s).0, y.committed, y.out + (if y.copied.Some? then y.copied.value else []), None)
      else y
    case Write(all) =>  // waits while the writer's own transaction is open
      if s.write.started then y else y.(ring := WriteAll(s, all), committed := y.committed + all)
    case Read(n) =>     // waits while the reader's own transaction is open, or data is missing
      if s.read.started || ReadAll(s, n).status == Again then y
      else y.(ring := ReadAll(s, n).ring, out := y.out + ReadAll(s, n).data)
  }

  function Run(y: Sys, ops: seq<Op>): (y': Sys)
    requires Wf(y.ring)
    ensures Wf(y'.ring) && y'.ring.size == y.ring.size
    decreases |ops|
  {
    if ops == [] then y else Run(Step(y, ops[0]), ops[1..])
  }

  /** Unread bytes plus the write in flight stay within the buffer. */
  predicate Fits(y: Sys) {
    |y.committed| + InFlight(y.ring.write) - |y.out| <= y.ring.size
  }

  /** The run never exceeds the buffer, and the reader copies before it ends a transaction. */
  predicate GoodRun(y: Sys, ops: seq<Op>)
    requires Wf(y.ring)
    decreases |ops|
  {
    ops != [] ==>
    && (ops[0] == EndR && y.ring.read.started ==> y.copied.Some?)
    && Fits(Step(y, ops[0]))
    && GoodRun(Step(y, ops[0]), ops[1..])
  }

  /** What every state of a good run satisfies. */
  ghost predicate Sound(y: Sys) {
    && Rep(y.ring, y.committed, |y.out|)
    && Fits(y)
    && y.out <= y.committed
    && (y.copied.Some? ==> y.ring.read.started && y.copied.value == Unfinished(y))
  }

  /** The committed bytes the reader's transaction stands for. */
  ghost function Unfinished(y: Sys): seq<Byte>
    requires Rep(y.ring, y.committed, |y.out|)
  {
    y.committed[|y.out|..|y.out| + InFlight(y.ring.read)]
  }

  lemma WriterStepSound(y: Sys, op: Op)
    requires Sound(y) && (op.PrepareW? || op.Fill? || op.EndW? || op.Write?)
    requires Fits(Step(y, op))
    ensures Sound(Step(y, op))
  {
    var s, r := y.ring, |y.out|;
    match op
    case PrepareW(n) => PrepareWriteRep(s, y.committed, r, n);
    case Fill(off, data) =>
      if s.write.started && off + |data| <= s.write.asyncSize {
        StoreRep(s, y.committed, r, off, data);
      }
    case EndW =>
      if s.write.started {
        EndWriteRep(s, y.committed, r);
      }
    case Write(all) =>
      if !s.write.started {
        WriteAllRep(s, y.committed, r, all);
      }
  }

  lemma ReadSound(y: Sys, n: nat)
    requires Sound(y)
    ensures Sound(Step(y, Read(n)))
  {
    hide ReadAll, Rep, InFlight;
    var s, h, r := y.ring, y.committed, |y.out|;
    RepWf(s, h, r);
    if !s.read.started {
      if n > |h| - r {
        ReadPastEnd(s, h, r, n);
      } else {
        var s' := ReadAllInOrder(s, h, r, n);
        assert y.out + h[r..r + n] == h[..r + n];
      }
    }
  }

  lemma PrepareReadSound(y: Sys, n: nat)
    requires Sound(y)
    ensures Sound(Step(y, PrepareR(n)))
  {
    if !y.ring.read.started {
      SizeExact(y.ring, y.committed, |y.out|);
      PrepareReadRep(y.ring, y.committed, |y.out|, n);
    }
  }

  lemma CopySound(y: Sys)
    requires Sound(y)
    ensures Sound(Step(y, Copy))
  {
    RegionsDisjoint(y.ring, y.committed, |y.out|);
  }

  lemma EndReadSound(y: Sys)
    requires Sound(y)
    requires y.ring.read.started ==> y.copied.Some?
    ensures Sound(Step(y, EndR))
  {
    if y.ring.read.started {
      EndReadRep(y.ring, y.committed, |y.out|);
      assert y.out + Unfinished(y) == y.committed[..|y.out| + y.ring.read.asyncSize];
    }
  }

  lemma StepSound(y: Sys, op: Op)
    requires Sound(y) && Wf(y.ring) && Fits(Step(y, op))
    requires op == EndR && y.ring.read.started ==> y.copied.Some?
    ensures Sound(Step(y, op))
  {
    hide *;
    match op
    case PrepareR(n) => PrepareReadSound(y, n);
    case Copy => CopySound(y);
    case EndR => EndReadSound(y);
    case Read(n) => ReadSound(y, n);
    case _ => WriterStepSound(y, op);
  }

  lemma {:induction false} RunSound(y: Sys, ops: seq<Op>)
    requires Sound(y) && Wf(y.ring) && GoodRun(y, ops)
    ensures Sound(Run(y, ops))
    decreases ops
  {
    hide Step, Wf, Sound, Fits;
    if ops != [] {
      StepSound(y, ops[0]);
      RunSound(Step(y, ops[0]), ops[1..]);
    }
  }

  /**
    In every good run from an empty ring of any size, of any length (so also when the lap
    counters wrap): the reader has received the committed stream byte for byte in order,
    cb_size is the exact unread count, the regions of a read and a write in progress share
    no index, and what the reader is about to copy is completed data.
   */
  lemma RunDelivers(size: nat, ops: seq<Op>)
    requires 0 < size < U32 && GoodRun(Start(size), ops)
    ensures var y := Run(Start(size), ops);
            && y.out <= y.committed
            && SizeOf(y.ring) == (Success, |y.committed| - |y.out|)
            && Apart(y.ring.read.idx, InFlight(y.ring.read), y.ring.write.idx, InFlight(y.ring.write))
            && (y.ring.read.started ==>
                 && |y.out| + y.ring.read.asyncSize <= |y.committed|
                 && Region(y.ring, y.ring.read) == y.committed[|y.out|..|y.out| + y.ring.read.asyncSize])
  {
    hide Step, Run, SizeOf, GoodRun;
    InitRep(size);
    RunSound(Start(size), ops);
    var y := Run(Start(size), ops);
    SizeExact(y.ring, y.committed, |y.out|);
    RegionsDisjoint(y.ring, y.committed, |y.out|);
  }
}
