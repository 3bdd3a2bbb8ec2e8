/**
  The divider fields of the MMCM registers: clkgen_set_rate, clkgen_get_rate and the masked
  writes of legacy/adum7701_fmc/clkgen_core.c over a bank of 16-bit registers.
 */
module ClockRegisters {
  import opened Machine
  import opened ClockGenerator
  import opened ClockTables

  const CLKOUT0_1: nat := 0x08
  const CLKOUT0_2: nat := 0x09
  const CLKOUT1_1: nat := 0x0A
  const CLKOUT1_2: nat := 0x0B
  const CLK_FB1: nat := 0x14
  const CLK_FB2: nat := 0x15
  const CLK_DIV: nat := 0x16
  const LOCK1: nat := 0x18
  const LOCK2: nat := 0x19
  const LOCK3: nat := 0x1a
  const FILTER1: nat := 0x4e
  const FILTER2: nat := 0x4f

  /** A number below 256 as a uint32_t. */
  function Word(n: nat): bv32
    requires n < 256
  {
    if n == 0 then 0 else Word(n - 1) + 1
  }

  lemma {:induction false} WordBack(n: nat)
    requires n < 256
    ensures Word(n) as nat == n && Word(n) < 256
  {
    if n > 0 {
      WordBack(n - 1);
      WordOrder(255, Word(n - 1));
      Increment(Word(n - 1));
    }
  }

  lemma Increment(x: bv32)
    requires x < 255
    ensures (x + 1) as nat == x as nat + 1
  {
  }

  lemma WordOrder(x: bv32, y: bv32)
    requires x < 256 && y < 256
    ensures x <= y <==> x as nat <= y as nat
  {
  }

  /** Words compare as the numbers they stand for. */
  lemma WordAtMost(n: nat, x: bv32)
    requires n < 256 && x < 256
    ensures Word(n) <= x <==> n <= x as nat
    ensures x <= Word(n) <==> x as nat <= n
  {
    hide Word;
    WordBack(n);
    WordOrder(Word(n), x);
    WordOrder(x, Word(n));
  }

  /** The divider of the second output. */
  function Fourfold(n: nat): bv32
    requires n < 256
  {
    Word(n) * 4
  }

  /** clkgen_calc_clk_params. */
  function High(divider: bv32): bv32 { divider / 2 }
  function Edge(divider: bv32): bv32 { divider % 2 }
  function Low(divider: bv32): bv32 { divider - High(divider) }
  function NoCount(divider: bv32): bv32 { if divider == 1 then 1 else 0 }

  function HighLow(divider: bv32): bv32 {
    (High(divider) << 6) | Low(divider)
  }

  function EdgeCount(divider: bv32): bv32 {
    (Edge(divider) << 7) | (NoCount(divider) << 6)
  }

  /** The word for the input divider: flags, high and low time. */
  function InputValue(divider: bv32): bv32 {
    (Edge(divider) << 13) | (NoCount(divider) << 12) | HighLow(divider)
  }

  /** The word clkgen_mmcm_write sends, of which the register keeps the low 16 bits. */
  function Written(was: bv32, val: bv32, mask: bv32, reg: bv32): bv32 {
    ((if mask != 0xffff then was & !mask else 0) | 0x2000_0000 | (reg << 16) | (val & mask)) & 0xffff
  }

  /** The divider clkgen_get_rate reads back. */
  function Decode(reg: bv32): bv32 {
    (reg & 0x3f) + ((reg >> 6) & 0x3f)
  }

  /** A masked write sets the bits of the mask, keeps the others, and nothing of the command stays. */
  lemma WrittenExact(was: bv32, val: bv32, mask: bv32, reg: bv32)
    ensures Written(was, val, mask, reg) & mask == val & mask & 0xffff
    ensures Written(was, val, mask, reg) & !mask == was & !mask & 0xffff
  {
  }

  /** The counter of a divider: high and low time that add up to it, the low one longer by one if it is odd. */
  predicate Counts(reg: bv32, divider: bv32) {
    var high, low := (reg >> 6) & 0x3f, reg & 0x3f;
    high + low == divider && (low == high || low == high + 1)
  }

  /** Bit 7 marks an odd divider, bit 6 the divider one, and the bits below are clear. */
  predicate Flags(reg: bv32, divider: bv32) {
    && (reg & 0x80 != 0 <==> divider & 1 == 1)
    && (reg & 0x40 != 0 <==> divider == 1)
    && reg & 0x3f == 0
  }

  /** The input divider has counter and flags, at bits 13 and 12, in one register. */
  predicate CountsWithFlags(reg: bv32, divider: bv32) {
    && Counts(reg, divider)
    && (reg & 0x2000 != 0 <==> divider & 1 == 1)
    && (reg & 0x1000 != 0 <==> divider == 1)
  }

  lemma CountsWritten(divider: bv32, was: bv32, reg: bv32)
    requires 1 <= divider <= 126
    ensures Counts(Written(was, HighLow(divider), 0xefff, reg), divider)
  {
  }

  lemma FlagsWritten(divider: bv32, was: bv32, reg: bv32)
    ensures Flags(Written(was, EdgeCount(divider), 0x03ff, reg), divider)
  {
  }

  lemma InWritten(divider: bv32, was: bv32, reg: bv32)
    requires 1 <= divider <= 80
    ensures CountsWithFlags(Written(was, InputValue(divider), 0x3fff, reg), divider)
  {
  }

  /** The second output gets four times the divider, which its counter holds exactly up to 31. */
  lemma FourfoldIff(divider: bv32, was: bv32, reg: bv32)
    requires 1 <= divider <= 128
    ensures Counts(Written(was, HighLow(divider * 4), 0xefff, reg), divider * 4) <==> divider <= 31
  {
  }

  /** Both halves of the divider survive the packing up to 126; 127 and 128 come back as 63 and 1. */
  lemma DecodeHighLow(divider: bv32, was: bv32, reg: bv32)
    requires 1 <= divider <= 128
    ensures Decode(Written(was, HighLow(divider), 0xefff, reg)) ==
            if divider <= 126 then divider else if divider == 127 then 63 else 1
  {
  }

  /** The same for the input divider, which shares its register with edge and nocount. */
  lemma DecodeClkDiv(divider: bv32, was: bv32, reg: bv32)
    requires 1 <= divider <= 80
    ensures Decode(Written(was, InputValue(divider), 0x3fff, reg)) == divider
  {
  }

  /** The output divider that is read back. */
  function ReadBack(dout: nat): nat {
    if dout <= 126 then dout else if dout == 127 then 63 else 1
  }

  /** What clkgen_get_rate computes from the dividers, capped at the uint32_t maximum. */
  function Rate(parent: nat, d: nat, m: nat, dout: nat): nat {
    if d == 0 || dout == 0 then 0
    else Min(DivNat(DivNat(parent, d) * m, dout), U32 - 1)
  }

  /** The rate is floor(floor(parent / d) * m / dout), 0 for a zero divider, and at most 2^32 - 1. */
  lemma RateExact(parent: nat, d: nat, m: nat, dout: nat)
    ensures d == 0 || dout == 0 ==> Rate(parent, d, m, dout) == 0
    ensures d > 0 && dout > 0 ==>
              var q := DivNat(parent, d);
              q * d <= parent < (q + 1) * d && RateFrom(q * m, dout, Rate(parent, d, m, dout))
  {
    hide DivNat;
    if d > 0 && dout > 0 {
      DivNatExact(parent, d);
      var x := DivNat(parent, d) * m;
      DivNatExact(x, dout);
      RateFromQuotient(x, dout, DivNat(x, dout));
    }
  }

  lemma DivNatExact(x: nat, d: nat)
    requires d > 0
    ensures DivNat(x, d) * d <= x < (DivNat(x, d) + 1) * d
  {
    DivModSplit(x, d);
  }

  lemma RateFromQuotient(x: nat, dout: nat, q: nat)
    requires dout > 0 && q * dout <= x < (q + 1) * dout
    ensures RateFrom(x, dout, Min(q, U32 - 1))
  {
    if q >= U32 - 1 {
      MulAtMost(U32 - 1, q, dout);
    }
  }

  predicate RateFrom(x: nat, dout: nat, rate: nat) {
    if rate == 0xffff_ffff then x >= 0xffff_ffff * dout else rate < 0xffff_ffff && rate * dout <= x < (rate + 1) * dout
  }

  /** Only the registers of the set have changed. */
  ghost predicate Elsewhere(before: seq<bv32>, after: seq<bv32>, regs: set<nat>) {
    |before| == |after| && forall r: nat :: r < |before| && r !in regs ==> after[r] == before[r]
  }

  class Clkgen {
    var drp: seq<bv32>

    ghost predicate Valid()
      reads this
    {
      |drp| == 128
    }

    ghost function Reads(d: nat, m: nat, dout: nat): bool
      requires Valid() && d < 256 && m < 256 && dout < 256
      reads this
    {
      && Decode(drp[CLKOUT0_1]) == Word(dout)
      && Decode(drp[CLK_DIV]) == Word(d)
      && Decode(drp[CLK_FB1]) == Word(m)
    }

    /** clkgen_mmcm_write. */
    method MmcmWrite(reg: nat, val: bv32, mask: bv32)
      requires Valid() && reg < 128
      modifies this
      ensures Valid() && drp == old(drp)[reg := Written(old(drp)[reg], val, mask, Word(reg))]
    {
      var regVal: bv32;
      if mask != 0xffff {
        regVal := drp[reg] & !mask;
      } else {
        regVal := 0;
      }
      regVal := regVal | 0x2000_0000 | (Word(reg) << 16) | (val & mask);
      drp := drp[reg := regVal & 0xffff];
    }

    /** The divider writes of clkgen_set_rate; nothing is written when no parameters are found. */
    method SetRate(rate: nat, parentRate: nat) returns (p: Params)
      requires Valid() && rate < U32 && parentRate < U32
      requires rate != 0 && parentRate != 0 ==> rate >= 1000 && parentRate >= 1000
      modifies this
      ensures Valid()
      ensures rate == 0 || parentRate == 0 ==> p == NOTHING
      ensures rate != 0 && parentRate != 0 ==> IsBest(parentRate / 1000, rate / 1000, p)
      ensures p == NOTHING ==> drp == old(drp)
      ensures p != NOTHING ==> InRange(p) && Reads(p.d, p.m, ReadBack(p.dout))
      ensures p != NOTHING ==> Fields(drp, p)
      ensures p != NOTHING ==> LockAndFilter(drp, LookupLock(p.m - 1), LookupFilter(p.m - 1))
      ensures Elsewhere(old(drp), drp, {CLKOUT0_1, CLKOUT0_2, CLKOUT1_1, CLKOUT1_2, CLK_DIV, CLK_FB1, CLK_FB2,
                                        LOCK1, LOCK2, LOCK3, FILTER1, FILTER2})
    {
      hide IsBest, Word, Fourfold, Decode, Elsewhere, Fields, LockAndFilter, LookupLock, LookupFilter;
      SameEverywhere(drp);
      p := NOTHING;
      if parentRate == 0 || rate == 0 {
        return;
      }
      p := CalcParams(parentRate, rate);
      if p == NOTHING {
        return;
      }
      ghost var d0 := drp;
      WriteDividers(p);
      ghost var d1 := drp;
      WriteLockAndFilter(LookupLock(p.m - 1), LookupFilter(p.m - 1));
      LateWrites(d0, d1, drp, p);
    }

    /** The divider writes. */
    method WriteDividers(p: Params)
      requires Valid() && InRange(p)
      modifies this
      ensures Valid() && Reads(p.d, p.m, ReadBack(p.dout)) && Fields(drp, p)
      ensures Elsewhere(old(drp), drp, {CLKOUT0_1, CLKOUT0_2, CLKOUT1_1, CLKOUT1_2, CLK_DIV, CLK_FB1, CLK_FB2})
    {
      hide IsBest, Word, Fourfold, Decode, Counts, Flags, CountsWithFlags, Elsewhere, Fields;
      ghost var d0 := drp;
      WriteOutputs(p.dout);
      ghost var d1 := drp;
      WriteInput(p.d);
      ghost var d2 := drp;
      WriteFeedback(p.m);
      AllWritten(d0, d1, d2, drp, p);
      NothingElse(d0, d1, d2, drp);
    }

    /** The lock and filter writes. */
    method WriteLockAndFilter(lock: bv32, filter: bv32)
      requires Valid()
      modifies this
      ensures Valid() && LockAndFilter(drp, lock, filter)
      ensures Elsewhere(old(drp), drp, {LOCK1, LOCK2, LOCK3, FILTER1, FILTER2})
    {
      hide LockAndFilter, Elsewhere;
      ghost var d0 := drp;
      WriteLock(lock);
      ghost var d1 := drp;
      WriteFilter(filter);
      BothWritten(d0, d1, drp, lock, filter);
    }

    method WriteLock(lock: bv32)
      requires Valid()
      modifies this
      ensures Valid() && LockWritten(drp, lock) && Elsewhere(old(drp), drp, {LOCK1, LOCK2, LOCK3})
    {
      hide Written, Word;
      LockWords(lock, drp[LOCK1], drp[LOCK2], drp[LOCK3]);
      MmcmWrite(LOCK1, lock & 0x3ff, 0x3ff);
      MmcmWrite(LOCK2, (((lock >> 16) & 0x1f) << 10) | 0x1, 0x7fff);
      MmcmWrite(LOCK3, (((lock >> 24) & 0x1f) << 10) | 0x3e9, 0x7fff);
    }

    method WriteFilter(filter: bv32)
      requires Valid()
      modifies this
      ensures Valid() && FilterWritten(drp, filter) && Elsewhere(old(drp), drp, {FILTER1, FILTER2})
    {
      hide Written, Word;
      FilterWords(filter, drp[FILTER1], drp[FILTER2]);
      MmcmWrite(FILTER1, filter >> 16, 0x9900);
      MmcmWrite(FILTER2, filter, 0x9900);
    }

    /** The registers of the two outputs. */
    method WriteOutputs(n: nat)
      requires Valid() && 1 <= n <= 128
      modifies this
      ensures Valid() && Decode(drp[CLKOUT0_1]) == Word(ReadBack(n))
      ensures (n <= 126 ==> Counts(drp[CLKOUT0_1], Word(n))) && Flags(drp[CLKOUT0_2], Word(n))
      ensures (Counts(drp[CLKOUT1_1], Fourfold(n)) <==> n <= 31) && Flags(drp[CLKOUT1_2], Fourfold(n))
      ensures Elsewhere(old(drp), drp, {CLKOUT0_1, CLKOUT0_2, CLKOUT1_1, CLKOUT1_2})
    {
      hide Word, Fourfold, Decode, Written, HighLow, EdgeCount, Counts, Flags;
      WriteOutput(n);
      WriteSecond(n);
    }

    method WriteOutput(n: nat)
      requires Valid() && 1 <= n <= 128
      modifies this
      ensures Valid() && Decode(drp[CLKOUT0_1]) == Word(ReadBack(n))
      ensures (n <= 126 ==> Counts(drp[CLKOUT0_1], Word(n))) && Flags(drp[CLKOUT0_2], Word(n))
      ensures Elsewhere(old(drp), drp, {CLKOUT0_1, CLKOUT0_2})
    {
      hide Word, Decode, Written, HighLow, EdgeCount, Counts, Flags;
      var dout := Word(n);
      OutWords(n, drp[CLKOUT0_1], drp[CLKOUT0_2]);
      MmcmWrite(CLKOUT0_1, HighLow(dout), 0xefff);
      MmcmWrite(CLKOUT0_2, EdgeCount(dout), 0x03ff);
    }

    method WriteSecond(n: nat)
      requires Valid() && 1 <= n <= 128
      modifies this
      ensures Valid()
      ensures (Counts(drp[CLKOUT1_1], Fourfold(n)) <==> n <= 31) && Flags(drp[CLKOUT1_2], Fourfold(n))
      ensures Elsewhere(old(drp), drp, {CLKOUT1_1, CLKOUT1_2})
    {
      hide Word, Written, HighLow, EdgeCount, Counts, Flags;
      var dout := Word(n) * 4;
      SecondWords(n, drp[CLKOUT1_1], drp[CLKOUT1_2]);
      MmcmWrite(CLKOUT1_1, HighLow(dout), 0xefff);
      MmcmWrite(CLKOUT1_2, EdgeCount(dout), 0x03ff);
    }

    /** The register of the input divider. */
    method WriteInput(n: nat)
      requires Valid() && 1 <= n <= 80
      modifies this
      ensures Valid() && Decode(drp[CLK_DIV]) == Word(n) && CountsWithFlags(drp[CLK_DIV], Word(n))
      ensures Elsewhere(old(drp), drp, {CLK_DIV})
    {
      hide Word, Decode, Written, InputValue, CountsWithFlags;
      var d := Word(n);
      InWord(n, drp[CLK_DIV]);
      MmcmWrite(CLK_DIV, InputValue(d), 0x3fff);
    }

    /** The registers of the multiplier. */
    method WriteFeedback(n: nat)
      requires Valid() && 1 <= n <= 64
      modifies this
      ensures Valid() && Decode(drp[CLK_FB1]) == Word(n)
      ensures Counts(drp[CLK_FB1], Word(n)) && Flags(drp[CLK_FB2], Word(n))
      ensures Elsewhere(old(drp), drp, {CLK_FB1, CLK_FB2})
    {
      hide Word, Decode, Written, HighLow, EdgeCount, Counts, Flags;
      var m := Word(n);
      FeedbackWords(n, drp[CLK_FB1], drp[CLK_FB2]);
      MmcmWrite(CLK_FB1, HighLow(m), 0xefff);
      MmcmWrite(CLK_FB2, EdgeCount(m), 0x03ff);
    }

    /** clkgen_get_rate. */
    method GetRate(parentRate: nat) returns (rate: nat)
      requires Valid()
      ensures var d, m := Decode(drp[CLK_DIV]) as nat, Decode(drp[CLK_FB1]) as nat;
              rate == Rate(parentRate, d, m, Decode(drp[CLKOUT0_1]) as nat)
    {
      hide Decode;
      var dout := Decode(drp[CLKOUT0_1]) as nat;
      var d := Decode(drp[CLK_DIV]) as nat;
      var m := Decode(drp[CLK_FB1]) as nat;
      if d == 0 || dout == 0 {
        return 0;
      }
      var tmp := DivNat(parentRate, d) * m;
      tmp := DivNat(tmp, dout);
      if tmp > 0xffff_ffff {
        return 0xffff_ffff;
      }
      rate := tmp;
    }

    /** Setting a rate and reading it back. */
    method SetThenGet(rate: nat, parentRate: nat) returns (p: Params, actual: nat)
      requires Valid() && 1000 <= rate < U32 && 1000 <= parentRate < U32
      modifies this
      ensures Valid() && IsBest(parentRate / 1000, rate / 1000, p)
      ensures p != NOTHING ==> p.d > 0 && actual == Rate(parentRate, p.d, p.m, ReadBack(p.dout))
      ensures p != NOTHING ==> (actual == Rate(parentRate, p.d, p.m, p.dout) <==> p.dout <= 126)
      ensures p != NOTHING ==> InRange(p) && Fields(drp, p)
    {
      hide Word, Decode, IsBest, Rate, Freq, Fields, Counts, Flags, CountsWithFlags;
      p := SetRate(rate, parentRate);
      actual := GetRate(parentRate);
      BestLegal(parentRate / 1000, rate / 1000, p);
      if p != NOTHING {
        WordBack(p.d);
        WordBack(p.m);
        WordBack(ReadBack(p.dout));
        if p.dout > 126 {
          RateDiffers(parentRate, p.d, p.m, p.dout);
        }
      }
    }
  }

  /** The first output: counter and flags, and the divider that reads back. */
  lemma OutWords(n: nat, was1: bv32, was2: bv32)
    requires 1 <= n <= 128
    ensures var w := Word(n);
            && Decode(Written(was1, HighLow(w), 0xefff, Word(CLKOUT0_1))) == Word(ReadBack(n))
            && (n <= 126 ==> Counts(Written(was1, HighLow(w), 0xefff, Word(CLKOUT0_1)), w))
            && Flags(Written(was2, EdgeCount(w), 0x03ff, Word(CLKOUT0_2)), w)
  {
    hide Word, Written, HighLow, EdgeCount, Counts, Flags, Decode;
    WordAtMost(n, 1);
    WordAtMost(n, 126);
    OutDivider(n, was1, Word(CLKOUT0_1));
    if n <= 126 {
      CountsWritten(Word(n), was1, Word(CLKOUT0_1));
    }
    FlagsWritten(Word(n), was2, Word(CLKOUT0_2));
  }

  /** The second output, at four times the divider. */
  lemma SecondWords(n: nat, was1: bv32, was2: bv32)
    requires 1 <= n <= 128
    ensures var w := Fourfold(n);
            && (Counts(Written(was1, HighLow(w), 0xefff, Word(CLKOUT1_1)), w) <==> n <= 31)
            && Flags(Written(was2, EdgeCount(w), 0x03ff, Word(CLKOUT1_2)), w)
  {
    hide Word, Written, HighLow, EdgeCount, Counts, Flags;
    WordAtMost(n, 1);
    WordAtMost(n, 31);
    WordAtMost(n, 128);
    FourfoldIff(Word(n), was1, Word(CLKOUT1_1));
    FlagsWritten(Fourfold(n), was2, Word(CLKOUT1_2));
  }

  lemma InWord(n: nat, was: bv32)
    requires 1 <= n <= 80
    ensures var w := Word(n);
            var reg := Written(was, InputValue(w), 0x3fff, Word(CLK_DIV));
            Decode(reg) == w && CountsWithFlags(reg, w)
  {
    hide Word, Written, InputValue, CountsWithFlags, Decode;
    WordAtMost(n, 1);
    WordAtMost(n, 80);
    InDivider(n, was, Word(CLK_DIV));
    InWritten(Word(n), was, Word(CLK_DIV));
  }

  lemma FeedbackWords(n: nat, was1: bv32, was2: bv32)
    requires 1 <= n <= 64
    ensures var w := Word(n);
            && Decode(Written(was1, HighLow(w), 0xefff, Word(CLK_FB1))) == w
            && Counts(Written(was1, HighLow(w), 0xefff, Word(CLK_FB1)), w)
            && Flags(Written(was2, EdgeCount(w), 0x03ff, Word(CLK_FB2)), w)
  {
    hide Word, Written, HighLow, EdgeCount, Counts, Flags, Decode;
    WordAtMost(n, 1);
    WordAtMost(n, 126);
    OutDivider(n, was1, Word(CLK_FB1));
    CountsWritten(Word(n), was1, Word(CLK_FB1));
    FlagsWritten(Word(n), was2, Word(CLK_FB2));
  }

  predicate InRange(p: Params) {
    1 <= p.d <= 80 && 1 <= p.m <= 64 && 1 <= p.dout <= 128
  }

  /** What the registers hold for the dividers of p. */
  predicate Fields(drp: seq<bv32>, p: Params)
    requires |drp| == 128 && InRange(p)
  {
    && (p.dout <= 126 ==> Counts(drp[CLKOUT0_1], Word(p.dout))) && Flags(drp[CLKOUT0_2], Word(p.dout))
    && (Counts(drp[CLKOUT1_1], Fourfold(p.dout)) <==> p.dout <= 31) && Flags(drp[CLKOUT1_2], Fourfold(p.dout))
    && CountsWithFlags(drp[CLK_DIV], Word(p.d))
    && Counts(drp[CLK_FB1], Word(p.m)) && Flags(drp[CLK_FB2], Word(p.m))
  }

  /** The lock count, and the two lock delays with the constants beside them. */
  predicate LockWritten(drp: seq<bv32>, lock: bv32)
    requires |drp| == 128
  {
    && drp[LOCK1] & 0x3ff == lock & 0x3ff
    && (drp[LOCK2] >> 10) & 0x1f == (lock >> 16) & 0x1f && drp[LOCK2] & 0x3ff == 1
    && (drp[LOCK3] >> 10) & 0x1f == (lock >> 24) & 0x1f && drp[LOCK3] & 0x3ff == 0x3e9
  }

  /** The filter bits, of the upper and of the lower half of the setting. */
  predicate FilterWritten(drp: seq<bv32>, filter: bv32)
    requires |drp| == 128
  {
    drp[FILTER1] & 0x9900 == (filter >> 16) & 0x9900 && drp[FILTER2] & 0x9900 == filter & 0x9900
  }

  predicate LockAndFilter(drp: seq<bv32>, lock: bv32, filter: bv32)
    requires |drp| == 128
  {
    LockWritten(drp, lock) && FilterWritten(drp, filter)
  }

  lemma LockWords(lock: bv32, was1: bv32, was2: bv32, was3: bv32)
    ensures Written(was1, lock & 0x3ff, 0x3ff, Word(LOCK1)) & 0x3ff == lock & 0x3ff
    ensures var r := Written(was2, (((lock >> 16) & 0x1f) << 10) | 0x1, 0x7fff, Word(LOCK2));
            (r >> 10) & 0x1f == (lock >> 16) & 0x1f && r & 0x3ff == 1
    ensures var r := Written(was3, (((lock >> 24) & 0x1f) << 10) | 0x3e9, 0x7fff, Word(LOCK3));
            (r >> 10) & 0x1f == (lock >> 24) & 0x1f && r & 0x3ff == 0x3e9
  {
    hide Word;
  }

  lemma FilterWords(filter: bv32, was1: bv32, was2: bv32)
    ensures Written(was1, filter >> 16, 0x9900, Word(FILTER1)) & 0x9900 == (filter >> 16) & 0x9900
    ensures Written(was2, filter, 0x9900, Word(FILTER2)) & 0x9900 == filter & 0x9900
  {
    hide Word;
  }

  lemma BothWritten(d0: seq<bv32>, d1: seq<bv32>, d2: seq<bv32>, lock: bv32, filter: bv32)
    requires |d0| == |d1| == |d2| == 128 && LockWritten(d1, lock) && FilterWritten(d2, filter)
    requires Elsewhere(d0, d1, {LOCK1, LOCK2, LOCK3}) && Elsewhere(d1, d2, {FILTER1, FILTER2})
    ensures LockAndFilter(d2, lock, filter) && Elsewhere(d0, d2, {LOCK1, LOCK2, LOCK3, FILTER1, FILTER2})
  {
    hide FilterWritten;
    assert d2[LOCK1] == d1[LOCK1] && d2[LOCK2] == d1[LOCK2] && d2[LOCK3] == d1[LOCK3];
  }

  /** The lock and filter writes leave the dividers alone. */
  lemma LateWrites(d0: seq<bv32>, d1: seq<bv32>, d2: seq<bv32>, p: Params)
    requires |d0| == |d1| == |d2| == 128 && InRange(p) && Fields(d1, p)
    requires Elsewhere(d0, d1, {CLKOUT0_1, CLKOUT0_2, CLKOUT1_1, CLKOUT1_2, CLK_DIV, CLK_FB1, CLK_FB2})
    requires Elsewhere(d1, d2, {LOCK1, LOCK2, LOCK3, FILTER1, FILTER2})
    ensures Fields(d2, p)
    ensures d2[CLKOUT0_1] == d1[CLKOUT0_1] && d2[CLK_DIV] == d1[CLK_DIV] && d2[CLK_FB1] == d1[CLK_FB1]
    ensures Elsewhere(d0, d2, {CLKOUT0_1, CLKOUT0_2, CLKOUT1_1, CLKOUT1_2, CLK_DIV, CLK_FB1, CLK_FB2,
                               LOCK1, LOCK2, LOCK3, FILTER1, FILTER2})
  {
    hide Word, Fourfold, Counts, Flags, CountsWithFlags;
  }

  lemma SameEverywhere(drp: seq<bv32>)
    ensures Elsewhere(drp, drp, {CLKOUT0_1, CLKOUT0_2, CLKOUT1_1, CLKOUT1_2, CLK_DIV, CLK_FB1, CLK_FB2,
                                 LOCK1, LOCK2, LOCK3, FILTER1, FILTER2})
  {
  }

  /** Outputs, input and multiplier, written one after the other. */
  lemma AllWritten(d0: seq<bv32>, d1: seq<bv32>, d2: seq<bv32>, d3: seq<bv32>, p: Params)
    requires |d0| == |d1| == |d2| == |d3| == 128 && InRange(p)
    requires Elsewhere(d0, d1, {CLKOUT0_1, CLKOUT0_2, CLKOUT1_1, CLKOUT1_2})
    requires Elsewhere(d1, d2, {CLK_DIV}) && Elsewhere(d2, d3, {CLK_FB1, CLK_FB2})
    requires (p.dout <= 126 ==> Counts(d1[CLKOUT0_1], Word(p.dout))) && Flags(d1[CLKOUT0_2], Word(p.dout))
    requires (Counts(d1[CLKOUT1_1], Fourfold(p.dout)) <==> p.dout <= 31) && Flags(d1[CLKOUT1_2], Fourfold(p.dout))
    requires CountsWithFlags(d2[CLK_DIV], Word(p.d))
    requires Counts(d3[CLK_FB1], Word(p.m)) && Flags(d3[CLK_FB2], Word(p.m))
    ensures Fields(d3, p) && d3[CLKOUT0_1] == d1[CLKOUT0_1] && d3[CLK_DIV] == d2[CLK_DIV]
  {
    hide Word, Fourfold, Counts, Flags, CountsWithFlags, Elsewhere;
    Unchanged(d1, d2, d3, CLKOUT0_1);
    Unchanged(d1, d2, d3, CLKOUT0_2);
    Unchanged(d1, d2, d3, CLKOUT1_1);
    Unchanged(d1, d2, d3, CLKOUT1_2);
    Kept(d2, d3, CLK_DIV);
  }

  lemma Kept(d2: seq<bv32>, d3: seq<bv32>, r: nat)
    requires |d2| == |d3| == 128 && r < 128 && r != CLK_FB1 && r != CLK_FB2
    requires Elsewhere(d2, d3, {CLK_FB1, CLK_FB2})
    ensures d3[r] == d2[r]
  {
  }

  lemma NothingElse(d0: seq<bv32>, d1: seq<bv32>, d2: seq<bv32>, d3: seq<bv32>)
    requires Elsewhere(d0, d1, {CLKOUT0_1, CLKOUT0_2, CLKOUT1_1, CLKOUT1_2})
    requires Elsewhere(d1, d2, {CLK_DIV}) && Elsewhere(d2, d3, {CLK_FB1, CLK_FB2})
    ensures Elsewhere(d0, d3, {CLKOUT0_1, CLKOUT0_2, CLKOUT1_1, CLKOUT1_2, CLK_DIV, CLK_FB1, CLK_FB2})
  {
  }

  lemma Unchanged(d1: seq<bv32>, d2: seq<bv32>, d3: seq<bv32>, r: nat)
    requires |d1| == |d2| == |d3| == 128 && r < CLK_FB1
    requires Elsewhere(d1, d2, {CLK_DIV}) && Elsewhere(d2, d3, {CLK_FB1, CLK_FB2})
    ensures d3[r] == d1[r]
  {
  }

  lemma OutDivider(n: nat, was: bv32, reg: bv32)
    requires 1 <= n <= 128
    ensures Decode(Written(was, HighLow(Word(n)), 0xefff, reg)) == Word(ReadBack(n))
  {
    hide Decode, Written, HighLow, Word;
    WordAtMost(n, 1);
    WordAtMost(n, 126);
    WordAtMost(n, 127);
    WordAtMost(n, 128);
    WordAtMost(1, 1);
    WordAtMost(63, 63);
    DecodeHighLow(Word(n), was, reg);
  }

  lemma InDivider(n: nat, was: bv32, reg: bv32)
    requires 1 <= n <= 80
    ensures var w := Word(n);
            Decode(Written(was, InputValue(w), 0x3fff, reg)) == w
  {
    hide Decode, Written, InputValue, Word;
    WordAtMost(n, 1);
    WordAtMost(n, 80);
    DecodeClkDiv(Word(n), was, reg);
  }

  /** The output divider survives its register exactly up to 126. */
  lemma ReadBackExact(divider: bv32, was: bv32, reg: bv32)
    requires 1 <= divider <= 128
    ensures Decode(Written(was, HighLow(divider), 0xefff, reg)) == divider <==> divider <= 126
  {
    hide Decode, Written, HighLow;
    DecodeHighLow(divider, was, reg);
  }

  /** 10 MHz in and 4.7 MHz out set about 4.77 MHz, and read back as 610 MHz. */
  lemma WrongRateRead(p: Params)
    requires IsBest(10_000_000 / 1000, 4_700_000 / 1000, p)
    ensures p == Params(1, 61, 128)
    ensures Rate(10_000_000, p.d, p.m, p.dout) == 4_765_625
    ensures Rate(10_000_000, p.d, p.m, ReadBack(p.dout)) == 610_000_000
  {
    hide IsBest;
    LargestDivider(p);
  }

  /** The registers themselves, set to 4.7 MHz at 10 MHz in. */
  method ReadsBackWrong(c: Clkgen) returns (actual: nat)
    requires c.Valid()
    modifies c
    ensures actual == 610_000_000
    ensures c.Valid() && !Counts(c.drp[CLKOUT1_1], Fourfold(128))
  {
    hide IsBest, Rate, Counts, Flags, CountsWithFlags, Word, Fourfold;
    var p;
    p, actual := c.SetThenGet(4_700_000, 10_000_000);
    WrongRateRead(p);
  }

  /** Within the limits of the oscillator a smaller divider gives a higher rate, and none is capped. */
  lemma RateDiffers(parent: nat, d: nat, m: nat, dout: nat)
    requires d > 0 && 1 <= m <= 64 && (dout == 127 || dout == 128)
    requires FVCO_MIN * d <= parent / 1000 * m <= FVCO_MAX * d
    ensures Rate(parent, d, m, ReadBack(dout)) > Rate(parent, d, m, dout)
  {
    hide DivNat;
    var x := DivNat(parent, d) * m;
    VcoBound(parent, d, m);
    QuotientDiffers(x);
  }

  lemma QuotientDiffers(x: nat)
    requires 599_999_936 < x <= 1_200_064_000
    ensures Min(DivNat(x, 63), U32 - 1) > Min(DivNat(x, 127), U32 - 1)
    ensures Min(DivNat(x, 1), U32 - 1) > Min(DivNat(x, 128), U32 - 1)
  {
  }

  lemma VcoBound(parent: nat, d: nat, m: nat)
    requires d > 0 && 1 <= m <= 64
    requires FVCO_MIN * d <= parent / 1000 * m <= FVCO_MAX * d
    ensures 599_999_936 < DivNat(parent, d) * m <= 1_200_064_000
  {
    DivModSplit(parent, d);
    DivModSplit(parent, 1000);
    var q, k := parent / d, parent / 1000;
    LowerBound(parent, q, d, m, k);
    UpperBound(parent, q, d, m, k);
    assert (q + 1) * m == q * m + m;
  }

  lemma LowerBound(parent: nat, q: nat, d: nat, m: nat, k: nat)
    requires d > 0 && m >= 1 && parent < (q + 1) * d && k * 1000 <= parent && FVCO_MIN * d <= k * m
    ensures (q + 1) * m > 600_000_000
  {
    MulLess(parent, (q + 1) * d, m);
    MulAtMost(k * 1000, parent, m);
    assert k * 1000 * m == 1000 * (k * m);
    assert (q + 1) * d * m == (q + 1) * m * d;
    CancelLess(600_000_000, (q + 1) * m, d);
  }

  lemma UpperBound(parent: nat, q: nat, d: nat, m: nat, k: nat)
    requires d > 0 && m <= 64 && q * d <= parent < (k + 1) * 1000 && k * m <= FVCO_MAX * d
    ensures q * m <= 1_200_064_000
  {
    MulAtMost(q * d, (k + 1) * 1000, m);
    assert (k + 1) * 1000 * m == 1000 * (k * m) + 1000 * m;
    assert q * d * m == q * m * d;
    if q * m > 1_200_064_000 {
      MulLess(1_200_064_000, q * m, d);
    }
  }

  lemma MulAtMost(a: nat, b: nat, k: nat)
    requires a <= b
    ensures a * k <= b * k
  {
  }

  lemma MulLess(a: nat, b: nat, k: nat)
    requires a < b && k > 0
    ensures a * k < b * k
  {
  }

  lemma CancelLess(a: nat, b: nat, k: nat)
    requires a * k < b * k
    ensures a < b
  {
    if b <= a {
      MulAtMost(b, a, k);
    }
  }
}
