/**
  The circular buffer descriptor as the C code has it: one object whose pointers and
  byte memory are updated in place.  The ghost fields record the stream of committed
  bytes and the reader's position in it.
 */
module CircularBufferObject {
  import opened Machine
  import opened CircularBuffer
  import opened CircularBufferMissed

  class Buffer {
    const size: nat
    const buff: array<Byte>
    var write: Ptr
    var read: Ptr

    ghost var stream: seq<Byte>
    ghost var taken: nat

    ghost function State(): Ring
      reads this, buff
    {
      Ring(size, buff[..], write, read)
    }

    ghost predicate Valid()
      reads this, buff
    {
      Rep(State(), stream, taken)
    }

    constructor (n: nat)
      requires 0 < n < U32
      ensures Valid() && fresh(buff)
      ensures State() == Init(n) && stream == [] && taken == 0
    {
      size := n;
      buff := new Byte[n](_ => 0);
      write := Ptr(0, 0, false, 0);
      read := Ptr(0, 0, false, 0);
      stream, taken := [], 0;
      new;
      assert buff[..] == seq(n, _ => 0);
      InitRep(n);
    }

    /** cb_init refuses a buffer of no bytes. */
    static method Create(n: nat) returns (status: Status, b: Buffer?)
      requires n < U32
      ensures n == 0 ==> status == Invalid && b == null
      ensures n > 0 ==> status == Success && b != null && fresh(b) && fresh(b.buff)
                        && b.Valid() && b.State() == Init(n) && b.stream == [] && b.taken == 0
    {
      if n == 0 {
        return Invalid, null;
      }
      b := new Buffer(n);
      status := Success;
    }

    /** cb_size. */
    method Size() returns (status: Status, n: nat)
      requires Valid()
      ensures (status, n) == SizeOf(State())
      ensures |stream| - taken <= size ==> status == Success && n == |stream| - taken
    {
      var nbSpins: nat;
      if write.spin > read.spin {
        nbSpins := write.spin - read.spin;
      } else {
        nbSpins := Wrap32(U32 - 1 - read.spin + write.spin + 1);
      }
      if nbSpins > 0 {
        n := Wrap32(size + write.idx - read.idx);
      } else {
        n := Wrap32(write.idx - read.idx);
      }
      status := Success;
      if n > size {
        n, status := size, Overrun;
      }
      if |stream| - taken <= size {
        SizeExact(State(), stream, taken);
      }
    }

    /** cb_prepare_async_write. */
    method PrepareAsyncWrite(requested: nat) returns (status: Status, start: nat, len: nat)
      requires Valid()
      modifies this`write
      ensures PrepareWrite(old(State()), requested) == Prepared(State(), status, start, len)
      ensures Valid()
    {
      PrepareWriteRep(State(), stream, taken, requested);
      if write.started {
        return Busy, 0, 0;
      }
      len := Min(requested, size - write.idx);
      write := write.(started := true, asyncSize := len);
      start := write.idx;
      status := Success;
    }

    /** cb_prepare_async_read; an overrun moves the reader to the oldest surviving byte. */
    method PrepareAsyncRead(requested: nat) returns (status: Status, start: nat, len: nat)
      requires Valid()
      modifies this`read, this`taken
      ensures PrepareRead(old(State()), requested) == Prepared(State(), status, start, len)
      ensures Valid()
      ensures taken == if !old(read.started) && SizeOf(old(State())).0 == Overrun
                       then |stream| - size else old(taken)
    {
      if read.started {
        return Busy, 0, 0;
      }
      PrepareReadRep(State(), stream, taken, requested);
      var available: nat;
      status, available := Size();
      if status == Overrun {
        read := read.(spin := Wrap32(write.spin - 1), idx := write.idx);
        taken := |stream| - size;
      }
      var wanted := Min(requested, available);
      if wanted == 0 {
        return Again, 0, 0;
      }
      len := Min(wanted, size - read.idx);
      read := read.(started := true, asyncSize := len);
      start := read.idx;
    }

    /** cb_end_async_write commits what the region holds. */
    method EndAsyncWrite() returns (status: Status)
      requires Valid()
      modifies this`write, this`stream
      ensures EndWrite(old(State())) == (State(), status)
      ensures stream == old(stream + if write.started then buff[write.idx..write.idx + write.asyncSize] else [])
      ensures Valid()
    {
      if !write.started {
        return Failure;
      }
      EndWriteRep(State(), stream, taken);
      stream := stream + buff[write.idx..write.idx + write.asyncSize];
      write := Ended(write);
      status := Success;
    }

    /** cb_end_async_read. */
    method EndAsyncRead() returns (status: Status)
      requires Valid()
      modifies this`read, this`taken
      ensures EndRead(old(State())) == (State(), status)
      ensures taken == old(taken + InFlight(read))
      ensures Valid()
    {
      if !read.started {
        return Failure;
      }
      EndReadRep(State(), stream, taken);
      taken := taken + read.asyncSize;
      read := Ended(read);
      status := Success;
    }

    /** The pointer update of cb_end_async_operation. */
    method Ended(p: Ptr) returns (q: Ptr)
      requires size > 0
      ensures q == EndPtr(p, size)
    {
      var newVal := Wrap32(p.idx + p.asyncSize);
      q := p;
      if newVal >= size {
        q := q.(spin := Wrap32(p.spin + 1));
        newVal := newVal % size;
      }
      q := q.(idx := newVal, asyncSize := 0, started := false);
    }

    /** A raw copy into the region of the write in progress, by memcpy or DMA. */
    method Fill(off: nat, data: seq<Byte>)
      requires Valid() && write.started && off + |data| <= write.asyncSize
      modifies buff
      ensures State() == Store(old(State()), write.idx + off, data)
      ensures Valid()
    {
      hide Rep, Wf;
      RepWf(State(), stream, taken);
      StoreRep(State(), stream, taken, off, data);
      RegionInside(State());
      CopyIn(buff, write.idx + off, data);
    }

    /** One turn of the loop of cb_operation on the write side. */
    method WriteChunk(data: seq<Byte>) returns (n: nat)
      requires Valid() && !write.started && data != []
      modifies this`write, this`stream, buff
      ensures Valid() && Wf(State()) && !write.started && 0 < n <= |data|
      ensures WriteAll(State(), data[n..]) == WriteAll(old(State()), data)
      ensures stream == old(stream) + data[..n]
    {
      var _, start, len := PrepareAsyncWrite(|data|);
      n := len;
      Fill(0, data[..n]);
      assert buff[start..start + n] == data[..n];
      var _ := EndAsyncWrite();
    }

    /** cb_write: every byte of `data` is appended to the stream, also past the buffer's size. */
    method Write(data: seq<Byte>) returns (status: Status)
      requires Valid() && Wf(State()) && !write.started
      modifies this`write, this`stream, buff
      ensures Valid() && Wf(State()) && !write.started
      ensures status == if data == [] then Invalid else Success
      ensures State() == WriteAll(old(State()), data)
      ensures stream == old(stream) + data
    {
      hide Rep, Wf, WriteAll;
      WriteAllNothing(State());
      if data == [] {
        return Invalid;
      }
      var i := 0;
      while i < |data|
        invariant 0 <= i <= |data| && Valid() && Wf(State()) && !write.started
        invariant WriteAll(State(), data[i..]) == WriteAll(old(State()), data)
        invariant stream == old(stream) + data[..i]
      {
        var rest := data[i..];
        var available := WriteChunk(rest);
        assert rest[available..] == data[i + available..] && data[..i] + rest[..available] == data[..i + available];
        i := i + available;
      }
      WriteAllNothing(State());
      status := Success;
    }

    /** One turn of the loop of cb_operation on the read side. */
    method ReadChunk(n: nat) returns (status: Status, data: seq<Byte>)
      requires Valid() && Wf(State()) && !read.started
      requires n > 0 && PrepareRead(State(), n).status != Again
      modifies this`read, this`taken
      ensures Valid() && Wf(State()) && !read.started && 0 < |data| <= n
      ensures var p := PrepareRead(old(State()), n);
              && status == p.status && data == p.ring.buff[p.start..p.start + p.len]
              && |data| == p.len && State() == EndRead(p.ring).0
      ensures stream == old(stream)
    {
      var start, len;
      status, start, len := PrepareAsyncRead(n);
      data := buff[start..start + len];
      var _ := EndAsyncRead();
    }

    /**
      cb_read, where it returns without waiting for a writer.  Unread data comes back in
      order; after a reported overrun it is the most recent `size` bytes, oldest first; and in
      every case each byte is the newest one of its place in the ring, or lies in the region of a
      write in progress.
     */
    method Read(n: nat) returns (status: Status, data: seq<Byte>)
      requires Valid() && Wf(State()) && !read.started
      requires ReadAll(State(), n).status != Again
      modifies this`read, this`taken
      ensures Valid() && Wf(State()) && !read.started && stream == old(stream)
      ensures n == 0 ==> status == Invalid && State() == old(State())
      ensures n > 0 ==> ReadAll(old(State()), n) == ReadResult(State(), status, data)
      ensures n > 0 && |stream| + InFlight(write) - old(taken) <= size ==>
                && status == Success && taken == old(taken) + n <= |stream|
                && data == stream[old(taken)..][..n]
      ensures n > 0 && !write.started && SizeOf(old(State())).0 == Overrun && n <= size ==>
                && status == Overrun && size <= |stream| && taken == |stream| - size + n
                && data == stream[|stream| - size..][..n]
      ensures n > 0 ==>
                && size > 0 && buff.Length == size
                && AllNewest(data, Taken(old(State()), |stream|, old(taken), n), stream, old(State()))
    {
      hide ReadAll, SizeOf, Rep, Wf, Taken, TakenEnd, AllNewest, InFlight;
      RingLengths(State());
      if n == 0 {
        return Invalid, [];
      }
      status, data := ReadLoop(n);
      ReadContent(old(State()), stream, old(taken), n);
      RepWf(State(), stream, taken);
      ReadAllNewest(old(State()), stream, old(taken), n);
      if |stream| + InFlight(write) - old(taken) <= size {
        taken := old(taken) + n;
      } else if !write.started && SizeOf(old(State())).0 == Overrun && n <= size {
        taken := |stream| - size + n;
      }
    }

    method ReadLoop(n: nat) returns (status: Status, data: seq<Byte>)
      requires Valid() && Wf(State()) && !read.started
      requires ReadAll(State(), n).status != Again
      modifies this`read, this`taken
      ensures Valid() && Wf(State()) && !read.started && stream == old(stream)
      ensures ReadAll(old(State()), n) == ReadResult(State(), status, data)
    {
      hide ReadAll, Rep, Wf, PrepareRead, EndRead;
      var stickyOverrun := false;
      data := [];
      ghost var whole := ReadAll(State(), n);
      while |data| < n
        invariant Valid() && Wf(State()) && !read.started && stream == old(stream)
        invariant |data| <= n
        invariant var rest := ReadAll(State(), n - |data|);
                  && rest.status != Again
                  && whole == ReadResult(rest.ring, if stickyOverrun then Overrun else rest.status, data + rest.data)
      {
        ReadAllTurn(State(), n - |data|);
        var st, chunk := ReadChunk(n - |data|);
        if st == Overrun {
          stickyOverrun := true;
        }
        ghost var rest := ReadAll(State(), n - |data| - |chunk|);
        assert data + (chunk + rest.data) == data + chunk + rest.data;
        data := data + chunk;
      }
      ReadAllNothing(State());
      status := if stickyOverrun then Overrun else Success;
    }
  }

  lemma RegionInside(s: Ring)
    requires Wf(s)
    ensures s.write.idx + InFlight(s.write) <= |s.buff|
  {
  }

  /** memcpy into the buffer memory. */
  method CopyIn(buff: array<Byte>, at: nat, data: seq<Byte>)
    requires at + |data| <= buff.Length
    modifies buff
    ensures buff[..] == old(buff[..])[..at] + data + old(buff[..])[at + |data|..]
  {
    for i := 0 to |data|
      invariant forall j :: 0 <= j < buff.Length ==> buff[j] == if at <= j < at + i then data[j - at] else old(buff[j])
    {
      buff[at + i] := data[i];
    }
  }

  lemma WriteAllNothing(s: Ring)
    requires Wf(s) && !s.write.started
    ensures WriteAll(s, []) == s
  {
  }

  lemma RingLengths(s: Ring)
    requires Wf(s)
    ensures |s.buff| == s.size > 0
  {
  }

  lemma ReadContent(s: Ring, h: seq<Byte>, r: nat, n: nat)
    requires Rep(s, h, r) && !s.read.started && n > 0
    requires Wf(s) && ReadAll(s, n).status != Again
    ensures |h| + InFlight(s.write) - r <= s.size ==>
              && r + n <= |h| && ReadAll(s, n).status == Success && ReadAll(s, n).data == h[r..][..n]
              && Rep(ReadAll(s, n).ring, h, r + n)
    ensures |h| + InFlight(s.write) - r <= s.size ==> SizeOf(s).0 != Overrun
    ensures !s.write.started && SizeOf(s).0 == Overrun && n <= s.size ==>
              && s.size <= |h| && ReadAll(s, n).status == Overrun && ReadAll(s, n).data == h[|h| - s.size..][..n]
              && Rep(ReadAll(s, n).ring, h, |h| - s.size + n)
  {
    hide ReadAll, Rep, SizeOf, Wf, InFlight;
    RepWf(s, h, r);
    if |h| + InFlight(s.write) - r <= s.size {
      SizeExact(s, h, r);
      if n <= |h| - r {
        var _ := ReadAllInOrder(s, h, r, n);
        SliceSplit(h, r, r, r + n);
      } else {
        ReadPastEnd(s, h, r, n);
      }
    } else if !s.write.started && SizeOf(s).0 == Overrun && n <= s.size {
      var _ := ReadAllAfterOverrun(s, h, r, n);
    }
  }
}
