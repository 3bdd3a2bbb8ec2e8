/**
  The byte-addressed SD card layer of drivers/sd-card/sd.c over a card of 512-byte blocks.

  The card executes commands and block transfers one after the other; transfer number k
  fails exactly when `faulty(k)`, and a failed transfer changes nothing on the card.
 */
module SdCard {
  import opened Machine

  const U64: int := 0x1_0000_0000_0000_0000

  // ----- Block arithmetic -----

  /** Address of the last byte, in uint64_t arithmetic. */
  function LastByte(address: nat, len: nat): nat {
    (address + len - 1) % U64
  }

  /** get_nb_of_blocks, returned as uint32_t. */
  function NbBlocks(address: nat, len: nat): nat {
    Wrap32(LastByte(address, len) / 512 - address / 512 + 1)
  }

  /** The chunk of block i: where it starts inside the block and how many bytes it has. */
  function ChunkStart(address: nat, i: nat): nat {
    if i == 0 then address % 512 else 0
  }

  function ChunkLen(address: nat, len: nat, i: nat): int {
    if i == NbBlocks(address, len) - 1 then LastByte(address, len) % 512 - ChunkStart(address, i) + 1
    else 512 - ChunkStart(address, i)
  }

  /** Bytes handled before block i. */
  function Done(address: nat, len: nat, i: nat): int {
    if i == 0 then 0
    else if i >= NbBlocks(address, len) then len
    else (address / 512 + i) * 512 - address
  }

  /** An address range that fits a card of at most 2^40 bytes. */
  predicate InCard(address: nat, len: nat, size: nat) {
    size <= 0x100_0000_0000 && size % 512 == 0 && address + len <= size
  }

  /** How many blocks a transfer has, spelled out: those that hold at least one of its bytes. */
  lemma NbBlocksExact(address: nat, len: nat, size: nat)
    requires InCard(address, len, size)
    ensures len > 0 ==> NbBlocks(address, len) == (address + len - 1) / 512 - address / 512 + 1 >= 1
    ensures len == 0 ==> NbBlocks(address, len) == (if address % 512 == 0 then 0 else 1)
    ensures (address / 512 + NbBlocks(address, len)) * 512 <= size
  {
    hide NbBlocks, LastByte;
    if len > 0 {
      var last := address + len - 1;
      LastByteIs(address, len, size);
      Span(address, len, size, address / 512, address % 512, last / 512, last % 512, size / 512);
      NbBlocksIs(address, len, address / 512, last / 512);
    } else if address > 0 {
      LastByteIs(address, 0, size);
      EmptySpan(address, size, address / 512, address % 512, (address - 1) / 512, (address - 1) % 512, size / 512);
      NbBlocksIs(address, 0, address / 512, (address - 1) / 512);
    } else {
      NoBlocks();
    }
  }

  lemma NbBlocksIs(address: nat, len: nat, q: nat, q2: nat)
    requires address / 512 == q && LastByte(address, len) / 512 == q2 && 0 <= q2 - q + 1 < U32
    ensures NbBlocks(address, len) == q2 - q + 1
  {
    hide LastByte, Wrap32;
  }

  lemma NoBlocks()
    ensures NbBlocks(0, 0) == 0
  {
  }

  /** Block q and offset o of the first byte, q2 and o2 of the last, in a card of k blocks. */
  lemma Span(address: nat, len: nat, size: nat, q: nat, o: nat, q2: nat, o2: nat, k: nat)
    requires InCard(address, len, size) && len > 0
    requires address == 512 * q + o && address + len - 1 == 512 * q2 + o2 && o < 512 && o2 < 512 && size == 512 * k
    ensures q <= q2 && q2 - q + 1 < U32 && (q2 + 1) * 512 <= size
  {
  }

  lemma EmptySpan(address: nat, size: nat, q: nat, o: nat, q2: nat, o2: nat, k: nat)
    requires InCard(address, 0, size) && address > 0
    requires address == 512 * q + o && address - 1 == 512 * q2 + o2 && o < 512 && o2 < 512 && size == 512 * k
    ensures q2 == (if o == 0 then q - 1 else q) && (o > 0 ==> o2 == o - 1 && (q + 1) * 512 <= size) && q * 512 <= size
  {
  }

  /** Every chunk has 1 to 512 bytes, lies inside its block, and the chunks add up to the length. */
  lemma Chunks(address: nat, len: nat, size: nat, i: nat)
    requires InCard(address, len, size) && i < NbBlocks(address, len)
    ensures 0 <= ChunkLen(address, len, i) && ChunkStart(address, i) + ChunkLen(address, len, i) <= 512
    ensures len > 0 ==> ChunkLen(address, len, i) >= 1
    ensures Done(address, len, i + 1) == Done(address, len, i) + ChunkLen(address, len, i)
    ensures 0 <= Done(address, len, i) <= Done(address, len, i + 1) <= len
    ensures address + Done(address, len, i) == (address / 512 + i) * 512 + ChunkStart(address, i)
    ensures Done(address, len, NbBlocks(address, len)) == len
  {
    hide NbBlocks, LastByte;
    NbBlocksExact(address, len, size);
    if len > 0 {
      LastByteIs(address, len, size);
      var last := address + len - 1;
      ChunkFacts(address, len, address / 512, address % 512, last / 512, last % 512, i);
    } else {
      EmptyChunk(address, size);
    }
  }

  lemma LastByteIs(address: nat, len: nat, size: nat)
    requires InCard(address, len, size) && (len > 0 || address > 0)
    ensures LastByte(address, len) == address + len - 1
  {
  }

  lemma EmptyChunk(address: nat, size: nat)
    requires InCard(address, 0, size) && address % 512 != 0
    ensures LastByte(address, 0) % 512 == address % 512 - 1
  {
    LastByteIs(address, 0, size);
  }

  /** The same facts for block q and offset o of the first byte, q2 and o2 of the last. */
  lemma ChunkFacts(address: nat, len: nat, q: nat, o: nat, q2: nat, o2: nat, i: nat)
    requires len > 0 && address == 512 * q + o && address + len - 1 == 512 * q2 + o2 && o < 512 && o2 < 512
    requires i <= q2 - q
    ensures var start := if i == 0 then o else 0;
            var n := if i == q2 - q then o2 - start + 1 else 512 - start;
            var done := if i == 0 then 0 else (q + i) * 512 - address;
            && 1 <= n && start + n <= 512
            && (if i == q2 - q then len else (q + i + 1) * 512 - address) == done + n
            && 0 <= done && done + n <= len && address + done == (q + i) * 512 + start
  {
  }

  // ----- Contents -----

  /** `m` with the bytes from `at` on replaced by `d`. */
  function Spliced(m: seq<Byte>, at: nat, d: seq<Byte>): (r: seq<Byte>)
    requires at + |d| <= |m|
    ensures |r| == |m|
  {
    m[..at] + d + m[at + |d|..]
  }

  /** Reading back the replaced range gives the bytes written; any other disjoint range is as before. */
  lemma ReadAfterWrite(m: seq<Byte>, at: nat, d: seq<Byte>, other: nat, n: nat)
    requires at + |d| <= |m| && other + n <= |m| && (other + n <= at || at + |d| <= other || n == 0)
    ensures Spliced(m, at, d)[at..at + |d|] == d
    ensures Spliced(m, at, d)[other..other + n] == m[other..other + n]
  {
  }

  /** The first block is written from the `first` buffer, in part. */
  predicate FirstPartial(address: nat, len: nat) {
    NbBlocks(address, len) > 0 && !(ChunkStart(address, 0) == 0 && ChunkLen(address, len, 0) == 512)
  }

  /** The last block is another one and is written from the `last` buffer, in part. */
  predicate LastPartial(address: nat, len: nat) {
    NbBlocks(address, len) > 1 && ChunkLen(address, len, NbBlocks(address, len) - 1) != 512
  }

  /** The prefetch conditions of sd_write. */
  predicate NeedFirst(address: nat, len: nat) {
    address % 512 != 0 || (address % 512 == 0 && len < 512)
  }

  predicate NeedLast(address: nat, len: nat) {
    LastByte(address, len) / 512 != address / 512 && LastByte(address, len) % 512 != 511
  }

  /** The two prefetch conditions hold exactly when a block is written in part. */
  lemma PrefetchExact(address: nat, len: nat, size: nat)
    requires InCard(address, len, size)
    ensures FirstPartial(address, len) ==> NeedFirst(address, len)
    ensures len > 0 ==> (NeedFirst(address, len) <==> FirstPartial(address, len))
    ensures NeedLast(address, len) <==> LastPartial(address, len)
    ensures FirstPartial(address, len) ==> (address / 512) * 512 + 512 <= size
    ensures LastPartial(address, len) ==> (LastByte(address, len) / 512) * 512 + 512 <= size
  {
    hide NbBlocks, LastByte;
    NbBlocksExact(address, len, size);
    if len > 0 {
      var last := address + len - 1;
      LastByteIs(address, len, size);
      Span(address, len, size, address / 512, address % 512, last / 512, last % 512, size / 512);
    } else if address > 0 {
      LastByteIs(address, 0, size);
      EmptySpan(address, size, address / 512, address % 512, (address - 1) / 512, (address - 1) % 512, size / 512);
    } else {
      LastOfNothing();
    }
  }

  lemma LastOfNothing()
    ensures LastByte(0, 0) / 512 != 0 && LastByte(0, 0) % 512 == 511
  {
  }

  /** What the card would hold if only the two block buffers were written back. */
  function Base(m: seq<Byte>, address: nat, len: nat, first: seq<Byte>, last: seq<Byte>): (r: seq<Byte>)
    requires InCard(address, len, |m|) && |first| == |last| == 512
    ensures |r| == |m|
  {
    NbBlocksExact(address, len, |m|);
    var b, n := address / 512, NbBlocks(address, len);
    var m1 := if FirstPartial(address, len) then Spliced(m, b * 512, first) else m;
    if LastPartial(address, len) then Spliced(m1, (b + n - 1) * 512, last) else m1
  }

  /** The card after write_multiple_blocks: the data over the two block buffers over the old contents. */
  function Target(m: seq<Byte>, address: nat, d: seq<Byte>, first: seq<Byte>, last: seq<Byte>): (r: seq<Byte>)
    requires InCard(address, |d|, |m|) && |first| == |last| == 512
    ensures |r| == |m|
  {
    Spliced(Base(m, address, |d|, first, last), address, d)
  }

  lemma SplicedAt(m: seq<Byte>, at: nat, d: seq<Byte>, j: nat)
    requires at + |d| <= |m| && j < |m|
    ensures Spliced(m, at, d)[j] == if at <= j < at + |d| then d[j - at] else m[j]
  {
  }

  lemma TargetAt(m: seq<Byte>, address: nat, d: seq<Byte>, first: seq<Byte>, last: seq<Byte>, j: nat)
    requires InCard(address, |d|, |m|) && |first| == |last| == 512 && j < |m|
    ensures var b := (address / 512) * 512;
            var e := (address / 512 + NbBlocks(address, |d|) - 1) * 512;
            Target(m, address, d, first, last)[j] ==
            if address <= j < address + |d| then d[j - address]
            else if LastPartial(address, |d|) && e <= j < e + 512 then last[j - e]
            else if FirstPartial(address, |d|) && b <= j < b + 512 then first[j - b]
            else m[j]
  {
    hide Spliced, FirstPartial, LastPartial, NbBlocks;
    NbBlocksExact(address, |d|, |m|);
    SplicedAt(Base(m, address, |d|, first, last), address, d, j);
    var b, n := address / 512, NbBlocks(address, |d|);
    PartialBlocks(address, |d|);
    var m1 := if FirstPartial(address, |d|) then Spliced(m, b * 512, first) else m;
    if FirstPartial(address, |d|) {
      SplicedAt(m, b * 512, first, j);
    }
    if LastPartial(address, |d|) {
      SplicedAt(m1, (b + n - 1) * 512, last, j);
    }
  }

  lemma PartialBlocks(address: nat, len: nat)
    ensures FirstPartial(address, len) ==> NbBlocks(address, len) >= 1
    ensures LastPartial(address, len) ==> NbBlocks(address, len) >= 2
  {
  }

  /** The i-th block of the target is what the loop assembles for block i. */
  lemma TargetBlock(m: seq<Byte>, address: nat, d: seq<Byte>, first: seq<Byte>, last: seq<Byte>, i: nat, j: nat)
    requires InCard(address, |d|, |m|) && |first| == |last| == 512 && i < NbBlocks(address, |d|) && j < 512
    requires (address / 512 + i) * 512 + j < |m|
    ensures var cs, cl, done := ChunkStart(address, i), ChunkLen(address, |d|, i), Done(address, |d|, i);
            var t := Target(m, address, d, first, last)[(address / 512 + i) * 512 + j];
            && 0 <= cl && (cs <= j < cs + cl ==> 0 <= done + (j - cs) < |d|)
            && (cs <= j < cs + cl ==> t == d[done + (j - cs)])
            && (!(cs <= j < cs + cl) ==> cl != 512 && t == (if i == 0 then first else last)[j])
  {
    hide Target, Base, LastByte;
    NbBlocksExact(address, |d|, |m|);
    Chunks(address, |d|, |m|, i);
    TargetAt(m, address, d, first, last, (address / 512 + i) * 512 + j);
  }

  /** So it is the chunk itself, or the chunk put into one of the two block buffers. */
  lemma TargetSlice(m: seq<Byte>, address: nat, d: seq<Byte>, first: seq<Byte>, last: seq<Byte>, i: nat)
    requires InCard(address, |d|, |m|) && |first| == |last| == 512 && i < NbBlocks(address, |d|)
    ensures (address / 512 + i) * 512 + 512 <= |m|
    ensures var cs, cl, done := ChunkStart(address, i), ChunkLen(address, |d|, i), Done(address, |d|, i);
            && 0 <= done && 0 <= cl && done + cl <= |d| && cs + cl <= 512
            && Target(m, address, d, first, last)[(address / 512 + i) * 512..][..512] ==
               if cs == 0 && cl == 512 then d[done..done + cl]
               else Spliced(if i == 0 then first else last, cs, d[done..done + cl])
  {
    hide Target, LastByte, NbBlocks, ChunkStart, ChunkLen, Done, Spliced;
    NbBlocksExact(address, |d|, |m|);
    Chunks(address, |d|, |m|, i);
    var cs, cl, done := ChunkStart(address, i), ChunkLen(address, |d|, i), Done(address, |d|, i);
    var b := (address / 512 + i) * 512;
    var t := Target(m, address, d, first, last);
    var buff := if i == 0 then first else last;
    var chunk := d[done..done + cl];
    forall j | 0 <= j < 512
      ensures t[b..][..512][j] == if cs == 0 && cl == 512 then chunk[j] else Spliced(buff, cs, chunk)[j]
    {
      TargetBlock(m, address, d, first, last, i, j);
      SplicedAt(buff, cs, chunk, j);
    }
  }

  /** Outside the blocks of the transfer the target is the old card. */
  lemma TargetElsewhere(m: seq<Byte>, address: nat, d: seq<Byte>, first: seq<Byte>, last: seq<Byte>, j: nat)
    requires InCard(address, |d|, |m|) && |first| == |last| == 512 && j < |m|
    requires j < (address / 512) * 512 || (address / 512 + NbBlocks(address, |d|)) * 512 <= j
    ensures Target(m, address, d, first, last)[j] == m[j]
  {
    hide Target, Base, LastByte, FirstPartial, LastPartial, NbBlocks;
    NbBlocksExact(address, |d|, |m|);
    PartialBlocks(address, |d|);
    TargetAt(m, address, d, first, last, j);
  }

  /** The block at b with every byte changed. */
  function OtherBlock(m: seq<Byte>, b: nat): (r: seq<Byte>)
    ensures |r| == 512
    ensures forall j :: 0 <= j < 512 && b * 512 + j < |m| ==> r[j] != m[b * 512 + j]
  {
    seq(512, j requires 0 <= j < 512 => if b * 512 + j < |m| && m[b * 512 + j] == 0 then 1 else 0)
  }

  /** A block written in part has a byte that the data does not cover. */
  lemma UncoveredByte(address: nat, len: nat, size: nat, i: nat) returns (j: nat)
    requires InCard(address, len, size) && i < NbBlocks(address, len)
    requires !(ChunkStart(address, i) == 0 && ChunkLen(address, len, i) == 512)
    ensures j < 512 && (address / 512 + i) * 512 + j < size
    ensures var at := (address / 512 + i) * 512 + j;
            !(address <= at < address + len) &&
            !(ChunkStart(address, i) <= j < ChunkStart(address, i) + ChunkLen(address, len, i))
  {
    NbBlocksExact(address, len, size);
    Chunks(address, len, size, i);
    j := if ChunkStart(address, i) > 0 then 0 else 511;
  }

  /**
    What the block buffers held before does not matter exactly when no block is written in
    part; otherwise the result of sd_write depends on the prefetch having succeeded.
   */
  lemma BuffersIrrelevantIff(m: seq<Byte>, address: nat, d: seq<Byte>)
    requires InCard(address, |d|, |m|)
    ensures (forall f, l :: |f| == |l| == 512 ==> Target(m, address, d, f, l) == Spliced(m, address, d))
            <==> !FirstPartial(address, |d|) && !LastPartial(address, |d|)
  {
    hide LastByte;
    NbBlocksExact(address, |d|, |m|);
    var n := NbBlocks(address, |d|);
    if FirstPartial(address, |d|) || LastPartial(address, |d|) {
      var i := if FirstPartial(address, |d|) then 0 else n - 1;
      var f := OtherBlock(m, address / 512 + i);
      var j := UncoveredByte(address, |d|, |m|, i);
      var at := (address / 512 + i) * 512 + j;
      TargetBlock(m, address, d, f, f, i, j);
      SplicedAt(m, address, d, at);
      assert Target(m, address, d, f, f)[at] != Spliced(m, address, d)[at];
    }
  }

  lemma OneByteOfBlock()
    ensures InCard(0, 1, 512) && FirstPartial(0, 1) && !LastPartial(0, 1)
  {
    NbBlocksExact(0, 1, 512);
  }

  /** One byte written to the first block of a one-block card takes the rest of the buffer along. */
  lemma StaleBlockWritten(m: seq<Byte>, f: seq<Byte>, l: seq<Byte>, x: Byte)
    requires |m| == |f| == |l| == 512
    ensures InCard(0, 1, |m|) && Target(m, 0, [x], f, l) == [x] + f[1..]
  {
    hide Target, FirstPartial, LastPartial, NbBlocks;
    OneByteOfBlock();
    var t := Target(m, 0, [x], f, l);
    forall j | 0 <= j < 512
      ensures t[j] == ([x] + f[1..])[j]
    {
      TargetAt(m, 0, [x], f, l, j);
    }
  }

  // ----- When the buffers matter -----

  /** A block buffer agrees with the card on the bytes of block b that the data does not cover. */
  ghost predicate BufferRight(m: seq<Byte>, address: nat, len: nat, b: nat, buff: seq<Byte>)
    requires |buff| == 512
  {
    forall j :: 0 <= j < 512 && b * 512 + j < |m| && !(address <= b * 512 + j < address + len) ==>
      buff[j] == m[b * 512 + j]
  }

  /** Each of the two buffers that is written agrees with the card outside the data. */
  ghost predicate BuffersRight(m: seq<Byte>, address: nat, len: nat, f: seq<Byte>, l: seq<Byte>)
    requires |f| == |l| == 512
  {
    && (FirstPartial(address, len) ==> BufferRight(m, address, len, address / 512, f))
    && (LastPartial(address, len) ==> BufferRight(m, address, len, address / 512 + NbBlocks(address, len) - 1, l))
  }

  /** Only the addressed bytes change if and only if the written buffers agree with the card elsewhere. */
  lemma TargetExactIff(m: seq<Byte>, address: nat, d: seq<Byte>, f: seq<Byte>, l: seq<Byte>)
    requires InCard(address, |d|, |m|) && |f| == |l| == 512
    ensures Target(m, address, d, f, l) == Spliced(m, address, d) <==> BuffersRight(m, address, |d|, f, l)
  {
    hide Target, Spliced, FirstPartial, LastPartial, NbBlocks;
    PartialBlocks(address, |d|);
    var t, s := Target(m, address, d, f, l), Spliced(m, address, d);
    forall j | 0 <= j < |m|
      ensures BuffersRight(m, address, |d|, f, l) ==> t[j] == s[j]
    {
      TargetAt(m, address, d, f, l, j);
      SplicedAt(m, address, d, j);
    }
    if t == s {
      WrittenBuffers(m, address, d, f, l);
      if FirstPartial(address, |d|) {
        SplicedRight(m, address, d, address / 512, f);
      }
      if LastPartial(address, |d|) {
        SplicedRight(m, address, d, address / 512 + NbBlocks(address, |d|) - 1, l);
      }
    }
  }

  lemma SplicedRight(m: seq<Byte>, address: nat, d: seq<Byte>, b: nat, buff: seq<Byte>)
    requires address + |d| <= |m| && |buff| == 512 && BufferRight(Spliced(m, address, d), address, |d|, b, buff)
    ensures BufferRight(m, address, |d|, b, buff)
  {
    hide Spliced;
    forall j | 0 <= j < 512 && b * 512 + j < |m| && !(address <= b * 512 + j < address + |d|)
      ensures buff[j] == m[b * 512 + j]
    {
      SplicedAt(m, address, d, b * 512 + j);
    }
  }

  /** The written buffers, where the data does not cover them, are on the card afterwards. */
  lemma WrittenBuffers(m: seq<Byte>, address: nat, d: seq<Byte>, f: seq<Byte>, l: seq<Byte>)
    requires InCard(address, |d|, |m|) && |f| == |l| == 512
    ensures FirstPartial(address, |d|) ==> BufferRight(Target(m, address, d, f, l), address, |d|, address / 512, f)
    ensures LastPartial(address, |d|) ==>
              BufferRight(Target(m, address, d, f, l), address, |d|, address / 512 + NbBlocks(address, |d|) - 1, l)
  {
    hide Target, FirstPartial, LastPartial, NbBlocks;
    PartialBlocks(address, |d|);
    var t, n := Target(m, address, d, f, l), NbBlocks(address, |d|);
    if FirstPartial(address, |d|) {
      forall j | 0 <= j < 512 && address / 512 * 512 + j < |t|
        ensures !(address <= address / 512 * 512 + j < address + |d|) ==> f[j] == t[address / 512 * 512 + j]
      {
        TargetAt(m, address, d, f, l, address / 512 * 512 + j);
      }
    }
    if LastPartial(address, |d|) {
      var e := address / 512 + n - 1;
      forall j | 0 <= j < 512 && e * 512 + j < |t|
        ensures !(address <= e * 512 + j < address + |d|) ==> l[j] == t[e * 512 + j]
      {
        TargetAt(m, address, d, f, l, e * 512 + j);
      }
    }
  }

  /** With both buffers holding the card's own blocks, only the addressed bytes change. */
  lemma TargetExact(m: seq<Byte>, address: nat, d: seq<Byte>, first: seq<Byte>, last: seq<Byte>)
    requires InCard(address, |d|, |m|) && |first| == |last| == 512
    requires FirstPartial(address, |d|) ==>
               (address / 512) * 512 + 512 <= |m| && first == m[(address / 512) * 512..][..512]
    requires LastPartial(address, |d|) ==>
               var e := (LastByte(address, |d|) / 512) * 512;
               e + 512 <= |m| && last == m[e..][..512]
    ensures Target(m, address, d, first, last) == Spliced(m, address, d)
  {
    hide Target, Spliced, FirstPartial, LastPartial, NbBlocks, LastByte, BufferRight;
    TargetExactIff(m, address, d, first, last);
    if FirstPartial(address, |d|) {
      OwnBlock(m, address, |d|, address / 512, first);
    }
    if LastPartial(address, |d|) {
      LastBlock(address, |d|, |m|);
      OwnBlock(m, address, |d|, LastByte(address, |d|) / 512, last);
    }
  }

  lemma OwnBlock(m: seq<Byte>, address: nat, len: nat, b: nat, buff: seq<Byte>)
    requires b * 512 + 512 <= |m| && buff == m[b * 512..][..512]
    ensures BufferRight(m, address, len, b, buff)
  {
  }

  lemma LastBlock(address: nat, len: nat, size: nat)
    requires InCard(address, len, size) && LastPartial(address, len)
    ensures LastByte(address, len) / 512 == address / 512 + NbBlocks(address, len) - 1
  {
    hide LastByte, NbBlocks;
    PartialBlocks(address, len);
    NbBlocksExact(address, len, size);
    LastByteIs(address, len, size);
  }
}
