/** sd_read and sd_write of drivers/sd-card/sd.c, driving the abstract card. */
module SdDriver {
  import opened Machine
  import opened SdCard

  datatype Status = Success | Failure

  /** What goes over the wire, failed transfers not included. */
  datatype Op =
    | ReadSingle(block: nat) | ReadMulti(block: nat) | StopRead | BlockRead      // CMD17, CMD18, CMD12
    | WriteSingle(block: nat) | WriteMulti(block: nat) | StopWrite               // CMD24, CMD25, stop token
    | BlockWritten(single: bool)                                                 // start token FE or FC

  function Times(op: Op, n: nat): seq<Op> {
    seq(n, _ => op)
  }

  class Card {
    var mem: seq<Byte>
    var pos: nat
    var count: nat
    const faulty: nat -> bool
    ghost var log: seq<Op>

    constructor (mem: seq<Byte>, faulty: nat -> bool)
      ensures this.mem == mem && this.faulty == faulty && count == 0 && log == []
    {
      this.mem, this.pos, this.count, this.faulty, this.log := mem, 0, 0, faulty, [];
    }

    /** A command, with the block it addresses if it starts a transfer. */
    method Command(op: Op, block: nat) returns (ok: bool)
      modifies this
      ensures mem == old(mem) && count == old(count) + 1 && ok == !faulty(old(count))
      ensures ok ==> pos == block && log == old(log) + [op]
    {
      ok := !faulty(count);
      count := count + 1;
      if ok {
        pos, log := block, log + [op];
      }
    }

    method ReadBlock() returns (ok: bool, data: seq<Byte>)
      requires pos * 512 + 512 <= |mem|
      modifies this
      ensures mem == old(mem) && count == old(count) + 1 && ok == !faulty(old(count))
      ensures ok ==> data == mem[old(pos) * 512..][..512] && pos == old(pos) + 1 && log == old(log) + [BlockRead]
    {
      ok, data := !faulty(count), [];
      count := count + 1;
      if ok {
        data := mem[pos * 512..][..512];
        pos, log := pos + 1, log + [BlockRead];
      }
    }

    method WriteBlock(data: seq<Byte>, nbOfBlocks: nat) returns (ok: bool)
      requires |data| == 512 && pos * 512 + 512 <= |mem|
      modifies this
      ensures count == old(count) + 1 && ok == !faulty(old(count))
      ensures ok ==> mem == Spliced(old(mem), old(pos) * 512, data) && pos == old(pos) + 1
                     && log == old(log) + [BlockWritten(nbOfBlocks == 1)]
      ensures !ok ==> mem == old(mem)
    {
      ok := !faulty(count);
      count := count + 1;
      if ok {
        mem := Spliced(mem, pos * 512, data);
        pos, log := pos + 1, log + [BlockWritten(nbOfBlocks == 1)];
      }
    }
  }

  ghost predicate NoFault(c: Card, a: nat, b: nat) {
    forall k :: a <= k < b ==> !c.faulty(k)
  }

  method MemCpy(dest: array<Byte>, at: nat, src: seq<Byte>)
    requires at + |src| <= dest.Length
    modifies dest
    ensures dest[..] == Spliced(old(dest[..]), at, src)
  {
    for i := 0 to |src|
      invariant forall j :: 0 <= j < dest.Length ==> dest[j] == if at <= j < at + i then src[j - at] else old(dest[j])
    {
      dest[at + i] := src[i];
    }
  }

  /** struct sd_desc, with the card behind its SPI descriptor. */
  class SdDesc {
    const card: Card
    const memorySize: nat

    constructor (card: Card)
      ensures this.card == card && memorySize == |card.mem|
    {
      this.card, memorySize := card, |card.mem|;
    }

    ghost predicate Valid()
      reads card
    {
      memorySize == |card.mem| && InCard(0, 0, memorySize)
    }

    /** One turn of the loop of read_multiple_blocks. */
    method ReadTurn(data: array<Byte>, address: nat, len: nat, i: nat, dataIdx: nat, ghost d0: seq<Byte>)
      returns (ok: bool, copyLen: nat)
      requires Valid() && InCard(address, len, memorySize) && len <= data.Length
      requires i < NbBlocks(address, len) && card.pos == address / 512 + i && dataIdx == Done(address, len, i) <= len
      requires ReadSoFar(d0, data[..], card.mem, address, dataIdx)
      modifies card, data
      ensures Valid() && card.mem == old(card.mem) && card.count == old(card.count) + 1
      ensures ok == !card.faulty(old(card.count))
      ensures ok ==> card.pos == old(card.pos) + 1 && card.log == old(card.log) + [BlockRead]
                     && dataIdx + copyLen == Done(address, len, i + 1) <= len
                     && ReadSoFar(d0, data[..], card.mem, address, dataIdx + copyLen)
    {
      hide NbBlocks, LastByte, Done, ReadSoFar, Spliced;
      ghost var mem := card.mem;
      NbBlocksExact(address, len, memorySize);
      Chunks(address, len, memorySize, i);
      var buffFirstIdx := ChunkStart(address, i);
      copyLen := ChunkLen(address, len, i);
      var block;
      ok, block := card.ReadBlock();
      if !ok {
        return;
      }
      ghost var chunk := block[buffFirstIdx..buffFirstIdx + copyLen];
      ChunkOfBlock(mem, address / 512 + i, buffFirstIdx, copyLen);
      ReadMore(d0, data[..], mem, address, dataIdx, copyLen, chunk);
      if buffFirstIdx == 0 && copyLen == 512 {
        assert block == chunk;
        MemCpy(data, dataIdx, block);
      } else {
        var buff := block;
        MemCpy(data, dataIdx, buff[buffFirstIdx..buffFirstIdx + copyLen]);
      }
    }

    /** read_multiple_blocks, with the card positioned on the first block. */
    method ReadMultipleBlocks(data: array<Byte>, address: nat, len: nat) returns (status: Status)
      requires Valid() && InCard(address, len, memorySize) && len <= data.Length && card.pos == address / 512
      modifies card, data
      ensures Valid() && card.mem == old(card.mem) && card.count >= old(card.count)
      ensures status == Success ==> data[..] == Spliced(old(data[..]), 0, card.mem[address..address + len])
      ensures status == Success ==> card.log == old(card.log) + Times(BlockRead, NbBlocks(address, len))
      ensures NoFault(card, old(card.count), card.count) ==> status == Success
    {
      hide NbBlocks, Done, ReadSoFar, Times, InCard;
      ghost var d0 := data[..];
      ghost var mem := card.mem;
      var i, dataIdx := 0, 0;
      DoneEnds(address, len, memorySize);
      ReadNothing(d0, mem, address, len);
      TimesNext(BlockRead, 0);
      while i < NbBlocks(address, len)
        invariant 0 <= i <= NbBlocks(address, len)
        invariant Valid() && card.mem == mem && card.pos == address / 512 + i && card.count >= old(card.count)
        invariant dataIdx == Done(address, len, i) && 0 <= dataIdx <= len
        invariant ReadSoFar(d0, data[..], mem, address, dataIdx)
        invariant card.log == old(card.log) + Times(BlockRead, i)
      {
        TimesNext(BlockRead, i);
        var ok, copyLen := ReadTurn(data, address, len, i, dataIdx, d0);
        if !ok {
          return Failure;
        }
        dataIdx := dataIdx + copyLen;
        i := i + 1;
      }
      ReadDone(d0, data[..], mem, address, len);
      status := Success;
    }

    /** The block that turn i of write_multiple_blocks sends, assembled as the C code does. */
    method AssembleBlock(data: seq<Byte>, address: nat, i: nat, dataIdx: nat, first: array<Byte>, last: array<Byte>,
                         ghost m0: seq<Byte>, ghost f0: seq<Byte>, ghost l0: seq<Byte>)
      returns (block: seq<Byte>, copyLen: nat)
      requires InCard(address, |data|, |m0|) && first != last && first.Length == last.Length == 512
      requires |f0| == |l0| == 512 && (i == 0 ==> first[..] == f0) && last[..] == l0
      requires i < NbBlocks(address, |data|) && dataIdx == Done(address, |data|, i) <= |data|
      modifies first, last
      ensures dataIdx + copyLen == Done(address, |data|, i + 1) <= |data|
      ensures i + 1 < NbBlocks(address, |data|) ==> last[..] == l0
      ensures |block| == 512 && (address / 512 + i) * 512 + 512 <= |m0|
      ensures block == Target(m0, address, data, f0, l0)[(address / 512 + i) * 512..][..512]
    {
      hide Target, Base, LastByte, NbBlocks, Done, Spliced;
      NbBlocksExact(address, |data|, |m0|);
      Chunks(address, |data|, |m0|, i);
      TargetSlice(m0, address, data, f0, l0, i);
      var buffFirstIdx := ChunkStart(address, i);
      copyLen := ChunkLen(address, |data|, i);
      var chunk := data[dataIdx..dataIdx + copyLen];
      if buffFirstIdx == 0 && copyLen == 512 {
        block := chunk;
      } else if i == 0 {
        MemCpy(first, buffFirstIdx, chunk);
        block := first[..];
      } else {
        MemCpy(last, 0, chunk);
        block := last[..];
      }
    }

    /** write_multiple_blocks, with the card positioned on the first block. */
    method WriteMultipleBlocks(data: seq<Byte>, address: nat, first: array<Byte>, last: array<Byte>)
      returns (status: Status)
      requires Valid() && InCard(address, |data|, memorySize) && card.pos == address / 512
      requires first != last && first.Length == last.Length == 512
      modifies card, first, last
      ensures |card.mem| == |old(card.mem)| && card.count >= old(card.count)
      ensures status == Success ==>
                card.mem == Target(old(card.mem), address, data, old(first[..]), old(last[..]))
      ensures status == Success ==>
                var n := NbBlocks(address, |data|);
                card.log == old(card.log) + Times(BlockWritten(n == 1), n)
      ensures NoFault(card, old(card.count), card.count) ==> status == Success
    {
      hide Target, NbBlocks, Done, Times, InCard, WrittenTo;
      ghost var m0, f0, l0 := card.mem, first[..], last[..];
      ghost var target := Target(m0, address, data, f0, l0);
      var nbOfBlocks := NbBlocks(address, |data|);
      var i, dataIdx := 0, 0;
      DoneEnds(address, |data|, memorySize);
      WriteStarts(m0, address, data, f0, l0);
      TimesNext(BlockWritten(nbOfBlocks == 1), 0);
      while i < nbOfBlocks
        invariant 0 <= i <= nbOfBlocks && |card.mem| == |m0| && card.count >= old(card.count)
        invariant card.pos == address / 512 + i && dataIdx == Done(address, |data|, i) <= |data|
        invariant (i == 0 ==> first[..] == f0) && (i < nbOfBlocks ==> last[..] == l0)
        invariant WrittenTo(m0, target, card.mem, (address / 512 + i) * 512)
        invariant card.log == old(card.log) + Times(BlockWritten(nbOfBlocks == 1), i)
      {
        TimesNext(BlockWritten(nbOfBlocks == 1), i);
        var block, copyLen := AssembleBlock(data, address, i, dataIdx, first, last, m0, f0, l0);
        BlockExtends(m0, target, card.mem, address / 512 + i, block);
        var ok := card.WriteBlock(block, nbOfBlocks);
        if !ok {
          return Failure;
        }
        dataIdx := dataIdx + copyLen;
        i := i + 1;
      }
      WriteEnds(m0, address, data, f0, l0, card.mem);
      status := Success;
    }

    /** sd_read. */
    method SdRead(data: array<Byte>, address: nat, len: nat) returns (status: Status)
      requires Valid() && len <= data.Length
      modifies card, data
      ensures Valid() && card.mem == old(card.mem) && card.count >= old(card.count)
      ensures address + len > memorySize ==> status == Failure && card.log == old(card.log)
      ensures status == Success ==>
                && InCard(address, len, memorySize)
                && data[..] == Spliced(old(data[..]), 0, card.mem[address..address + len])
                && card.log == old(card.log) + ReadLog(address, len)
      ensures address + len <= memorySize && NoFault(card, old(card.count), card.count) ==> status == Success
      ensures address + len <= memorySize ==> card.count > old(card.count)
      ensures address + len <= memorySize && card.faulty(old(card.count)) ==>
                status == Failure && card.count == old(card.count) + 1 && data[..] == old(data[..])
    {
      hide NbBlocks, Spliced, Times;
      if address > memorySize || len > memorySize || address + len > memorySize {
        return Failure;
      }
      var nb := NbBlocks(address, len);
      var block := address / 512;
      var ok := card.Command(if nb == 1 then ReadSingle(block) else ReadMulti(block), block);
      if !ok {
        return Failure;
      }
      var st := ReadMultipleBlocks(data, address, len);
      if st != Success {
        return Failure;
      }
      if nb != 1 {
        ok := card.Command(StopRead, 0);
        if !ok {
          return Failure;
        }
      }
      status := Success;
    }

    /** Reads the whole block b, if the card has it; a failed command leaves the buffer as it is. */
    method FetchBlock(buff: array<Byte>, b: nat)
      requires Valid() && buff.Length == 512
      modifies card, buff
      ensures Valid() && card.mem == old(card.mem) && card.count >= old(card.count)
      ensures b * 512 + 512 <= memorySize && NoFault(card, old(card.count), card.count) ==>
                buff[..] == card.mem[b * 512..][..512] && card.log == old(card.log) + ReadLog(b * 512, 512)
      ensures b * 512 + 512 <= memorySize ==> card.count > old(card.count)
      ensures b * 512 + 512 <= memorySize && card.faulty(old(card.count)) ==>
                buff[..] == old(buff[..]) && card.count == old(card.count) + 1
      ensures b * 512 + 512 > memorySize ==> card.log == old(card.log)
    {
      var status := SdRead(buff, b * 512, 512);
    }

    /** The two prefetch reads of sd_write, whose results the C code does not look at. */
    method Prefetch(first: array<Byte>, last: array<Byte>, address: nat, len: nat)
      requires Valid() && InCard(address, len, memorySize)
      requires first != last && first.Length == last.Length == 512
      modifies card, first, last
      ensures Valid() && card.mem == old(card.mem) && card.count >= old(card.count)
      ensures NoFault(card, old(card.count), card.count) ==>
                && (FirstPartial(address, len) ==>
                     (address / 512) * 512 + 512 <= memorySize && first[..] == card.mem[(address / 512) * 512..][..512])
                && (LastPartial(address, len) ==>
                     var e := (LastByte(address, len) / 512) * 512;
                     e + 512 <= memorySize && last[..] == card.mem[e..][..512])
                && card.log == old(card.log) + PrefetchLog(address, len, memorySize)
      ensures FirstPartial(address, len) || LastPartial(address, len) ==> card.count > old(card.count)
      ensures FirstPartial(address, len) && card.faulty(old(card.count)) ==> first[..] == old(first[..])
      ensures !FirstPartial(address, len) && LastPartial(address, len) && card.faulty(old(card.count)) ==>
                last[..] == old(last[..])
    {
      hide ReadLog, FirstPartial, LastPartial, LastByte, NbBlocks, NeedFirst, NeedLast;
      PrefetchExact(address, len, memorySize);
      PartialBlocks(address, len);
      NbBlocksExact(address, len, memorySize);
      if NeedFirst(address, len) {
        FetchBlock(first, address / 512);
      }
      ghost var c1 := card.count;
      assert NoFault(card, old(card.count), card.count) ==>
               card.log == old(card.log) + FirstLog(address, len, memorySize);
      if NeedLast(address, len) {
        FetchBlock(last, LastByte(address, len) / 512);
      }
    }

    /** The write command, the blocks, and the stop token. */
    method SendBlocks(data: seq<Byte>, address: nat, first: array<Byte>, last: array<Byte>) returns (status: Status)
      requires Valid() && InCard(address, |data|, memorySize)
      requires first != last && first.Length == last.Length == 512
      modifies card, first, last
      ensures Valid() && card.count >= old(card.count)
      ensures status == Success ==>
                && card.mem == Target(old(card.mem), address, data, old(first[..]), old(last[..]))
                && card.log == old(card.log) + WriteLog(address, |data|)
      ensures NoFault(card, old(card.count), card.count) ==> status == Success
    {
      hide NbBlocks, Times, Target;
      var nb := NbBlocks(address, |data|);
      var block := address / 512;
      var ok := card.Command(if nb == 1 then WriteSingle(block) else WriteMulti(block), block);
      if !ok {
        return Failure;
      }
      var st := WriteMultipleBlocks(data, address, first, last);
      if st != Success {
        return Failure;
      }
      if nb != 1 {
        ok := card.Command(StopWrite, 0);
        if !ok {
          return Failure;
        }
      }
      status := Success;
    }

    /**
      sd_write.  `firstBlock` and `lastBlock` are what its two block buffers happen to hold at the
      start; `sent` is the number of commands and transfers before the write command, `f` and `l`
      are the buffers at that moment.

      Nothing that fails before `sent` is noticed.  The buffers then hold what they held, and go
      to the card around the data.  Without faults exactly the addressed bytes are replaced.
     */
    method SdWrite(data: seq<Byte>, address: nat, firstBlock: seq<Byte>, lastBlock: seq<Byte>)
      returns (status: Status, ghost sent: nat, ghost f: seq<Byte>, ghost l: seq<Byte>)
      requires Valid() && |firstBlock| == |lastBlock| == 512
      modifies card
      ensures Valid() && old(card.count) <= sent <= card.count && |f| == |l| == 512
      ensures address + |data| > memorySize ==>
                status == Failure && card.mem == old(card.mem) && card.log == old(card.log)
      ensures address + |data| <= memorySize && NoFault(card, sent, card.count) ==> status == Success
      ensures status == Success ==>
                && InCard(address, |data|, memorySize)
                && card.mem == Target(old(card.mem), address, data, f, l)
                && (card.mem == Spliced(old(card.mem), address, data) <==>
                    BuffersRight(old(card.mem), address, |data|, f, l))
      ensures status == Success && !FirstPartial(address, |data|) && !LastPartial(address, |data|) ==>
                card.mem == Spliced(old(card.mem), address, data)
      ensures address + |data| <= memorySize && FirstPartial(address, |data|) ==>
                sent > old(card.count) && (card.faulty(old(card.count)) ==> f == firstBlock)
      ensures address + |data| <= memorySize && !FirstPartial(address, |data|) && LastPartial(address, |data|) ==>
                sent > old(card.count) && (card.faulty(old(card.count)) ==> l == lastBlock)
      ensures status == Success && NoFault(card, old(card.count), sent) ==>
                card.mem == Spliced(old(card.mem), address, data)
      ensures address + |data| <= memorySize && NoFault(card, old(card.count), card.count) ==>
                card.log == old(card.log) + PrefetchLog(address, |data|, memorySize) + WriteLog(address, |data|)
    {
      hide NbBlocks, Spliced, Times, Target, FirstPartial, LastPartial, LastByte, PrefetchLog, WriteLog, BuffersRight;
      var len := |data|;
      var first := new Byte[512](i requires 0 <= i < 512 => firstBlock[i]);
      var last := new Byte[512](i requires 0 <= i < 512 => lastBlock[i]);
      assert first[..] == firstBlock && last[..] == lastBlock;
      sent, f, l := card.count, firstBlock, lastBlock;
      if address > memorySize || len > memorySize || address + len > memorySize {
        return Failure, sent, f, l;
      }
      Prefetch(first, last, address, len);
      sent, f, l := card.count, first[..], last[..];
      status := SendBlocks(data, address, first, last);
      TargetExactIff(old(card.mem), address, data, f, l);
      if NoFault(card, old(card.count), sent) {
        TargetExact(old(card.mem), address, data, f, l);
      }
      if !FirstPartial(address, len) && !LastPartial(address, len) {
        TargetExact(old(card.mem), address, data, f, l);
      }
    }

    /** sd_write and then sd_read of the same range: without faults the written bytes come back. */
    method WriteThenRead(data: seq<Byte>, address: nat, buff: array<Byte>, firstBlock: seq<Byte>, lastBlock: seq<Byte>)
      returns (wrote: Status, read: Status)
      requires Valid() && |firstBlock| == |lastBlock| == 512
      requires |data| <= buff.Length && address + |data| <= memorySize
      modifies card, buff
      ensures Valid()
      ensures NoFault(card, old(card.count), card.count) ==>
                && wrote == read == Success
                && card.mem == Spliced(old(card.mem), address, data)
                && buff[..|data|] == data && buff[|data|..] == old(buff[|data|..])
    {
      hide Spliced, PrefetchLog, WriteLog, ReadLog, Target, BuffersRight;
      ghost var m0, b0 := card.mem, buff[..];
      ghost var sent, f, l;
      wrote, sent, f, l := SdWrite(data, address, firstBlock, lastBlock);
      read := SdRead(buff, address, |data|);
      if NoFault(card, old(card.count), card.count) {
        ReadAfterWrite(m0, address, data, 0, 0);
        BufferFilled(b0, data);
      }
    }
  }

  /**
    A card of one block of zeros whose first command fails: writing one byte to it succeeds, and
    the rest of the block is what the block buffer happened to hold.
   */
  method FailedPrefetchUnnoticed(x: Byte, firstBlock: seq<Byte>) returns (status: Status, mem: seq<Byte>)
    requires |firstBlock| == 512
    ensures status == Success && mem == [x] + firstBlock[1..]
  {
    hide Spliced, Target, BuffersRight, FirstPartial, LastPartial, NbBlocks, PrefetchLog, WriteLog, Times;
    var zeros: seq<Byte> := seq(512, _ => 0);
    var card := new Card(zeros, k => k == 0);
    var sd := new SdDesc(card);
    OneByteOfBlock();
    ghost var sent, f, l;
    status, sent, f, l := sd.SdWrite([x], 0, firstBlock, firstBlock);
    mem := card.mem;
    StaleBlockWritten(zeros, firstBlock, l, x);
  }

  lemma BufferFilled(b0: seq<Byte>, data: seq<Byte>)
    requires |data| <= |b0|
    ensures Spliced(b0, 0, data)[..|data|] == data && Spliced(b0, 0, data)[|data|..] == b0[|data|..]
  {
  }

  /** The first k bytes of the buffer are the card's bytes from `address` on, the rest is as it was. */
  ghost predicate ReadSoFar(d0: seq<Byte>, d: seq<Byte>, mem: seq<Byte>, address: nat, k: nat) {
    address + k <= |mem| && k <= |d0| && d == Spliced(d0, 0, mem[address..address + k])
  }

  lemma ReadNothing(d0: seq<Byte>, mem: seq<Byte>, address: nat, len: nat)
    requires InCard(address, len, |mem|)
    ensures ReadSoFar(d0, d0, mem, address, 0)
  {
  }

  lemma ReadDone(d0: seq<Byte>, d: seq<Byte>, mem: seq<Byte>, address: nat, len: nat)
    requires ReadSoFar(d0, d, mem, address, len)
    ensures address + len <= |mem| && len <= |d0| && d == Spliced(d0, 0, mem[address..address + len])
  {
  }

  lemma TimesNext(op: Op, n: nat)
    ensures Times(op, 0) == [] && Times(op, n + 1) == Times(op, n) + [op]
  {
  }

  lemma DoneEnds(address: nat, len: nat, size: nat)
    requires InCard(address, len, size)
    ensures Done(address, len, 0) == 0
    ensures Done(address, len, NbBlocks(address, len)) == len
  {
    NbBlocksExact(address, len, size);
  }

  lemma ChunkOfBlock(mem: seq<Byte>, b: nat, first: nat, n: nat)
    requires b * 512 + 512 <= |mem| && first + n <= 512
    ensures mem[b * 512..][..512][first..first + n] == mem[b * 512 + first..b * 512 + first + n]
  {
  }

  lemma ReadMore(d0: seq<Byte>, d: seq<Byte>, mem: seq<Byte>, address: nat, k: nat, n: nat, chunk: seq<Byte>)
    requires ReadSoFar(d0, d, mem, address, k) && address + k + n <= |mem| && k + n <= |d|
    requires chunk == mem[address + k..address + k + n]
    ensures |d| == |d0| && ReadSoFar(d0, Spliced(d, k, chunk), mem, address, k + n)
  {
  }

  /** The card up to `cut` is final, the rest still as it was. */
  ghost predicate WrittenTo(m0: seq<Byte>, t: seq<Byte>, mem: seq<Byte>, cut: nat) {
    |t| == |m0| == |mem| && cut <= |m0| && mem == t[..cut] + m0[cut..]
  }

  lemma WriteStarts(m0: seq<Byte>, address: nat, data: seq<Byte>, f0: seq<Byte>, l0: seq<Byte>)
    requires InCard(address, |data|, |m0|) && |f0| == |l0| == 512
    ensures WrittenTo(m0, Target(m0, address, data, f0, l0), m0, (address / 512) * 512)
  {
    hide Target, NbBlocks;
    var t, cut := Target(m0, address, data, f0, l0), (address / 512) * 512;
    forall j | 0 <= j < cut
      ensures t[j] == m0[j]
    {
      TargetElsewhere(m0, address, data, f0, l0, j);
    }
    assert m0 == t[..cut] + m0[cut..];
  }

  lemma BlockExtends(m0: seq<Byte>, t: seq<Byte>, mem: seq<Byte>, b: nat, block: seq<Byte>)
    requires WrittenTo(m0, t, mem, b * 512) && b * 512 + 512 <= |m0| && block == t[b * 512..][..512]
    ensures |mem| == |m0| && |block| == 512 && WrittenTo(m0, t, Spliced(mem, b * 512, block), (b + 1) * 512)
  {
  }

  lemma WriteEnds(m0: seq<Byte>, address: nat, data: seq<Byte>, f0: seq<Byte>, l0: seq<Byte>, mem: seq<Byte>)
    requires InCard(address, |data|, |m0|) && |f0| == |l0| == 512
    requires WrittenTo(m0, Target(m0, address, data, f0, l0), mem, (address / 512 + NbBlocks(address, |data|)) * 512)
    ensures mem == Target(m0, address, data, f0, l0)
  {
    hide Target, NbBlocks;
    var t, cut := Target(m0, address, data, f0, l0), (address / 512 + NbBlocks(address, |data|)) * 512;
    forall j | 0 <= j < |m0|
      ensures mem[j] == t[j]
    {
      if cut <= j {
        TargetElsewhere(m0, address, data, f0, l0, j);
      }
    }
  }

  /** The command, one transfer per block, and a stop exactly when the number of blocks is not one. */
  function ReadLog(address: nat, len: nat): seq<Op> {
    var n, block := NbBlocks(address, len), address / 512;
    [if n == 1 then ReadSingle(block) else ReadMulti(block)] + Times(BlockRead, n) + (if n != 1 then [StopRead] else [])
  }

  function WriteLog(address: nat, len: nat): seq<Op> {
    var n, block := NbBlocks(address, len), address / 512;
    [if n == 1 then WriteSingle(block) else WriteMulti(block)] + Times(BlockWritten(n == 1), n)
    + (if n != 1 then [StopWrite] else [])
  }

  function FirstLog(address: nat, len: nat, size: nat): seq<Op> {
    if NeedFirst(address, len) && (address / 512) * 512 + 512 <= size then ReadLog((address / 512) * 512, 512) else []
  }

  function PrefetchLog(address: nat, len: nat, size: nat): seq<Op> {
    FirstLog(address, len, size)
    + (if NeedLast(address, len) then ReadLog((LastByte(address, len) / 512) * 512, 512) else [])
  }

  /** One start command, one transfer per block, and a stop if and only if the number of blocks is not one. */
  lemma LogShape(address: nat, len: nat)
    ensures var n, b := NbBlocks(address, len), address / 512;
            && (n == 1 ==> ReadLog(address, len) == [ReadSingle(b), BlockRead])
            && (n == 1 ==> WriteLog(address, len) == [WriteSingle(b), BlockWritten(true)])
            && (n != 1 ==> ReadLog(address, len) == [ReadMulti(b)] + seq(n, _ => BlockRead) + [StopRead])
            && (n != 1 ==> WriteLog(address, len) == [WriteMulti(b)] + seq(n, _ => BlockWritten(false)) + [StopWrite])
  {
    hide NbBlocks;
    var n := NbBlocks(address, len);
    if n == 1 {
      assert Times(BlockRead, 1) == [BlockRead] && Times(BlockWritten(true), 1) == [BlockWritten(true)];
    }
  }
}
