/**
  The lookup-table CRCs of util/crc8.c, util/crc16.c and util/crc24.c, and the bit-serial
  CRC-8 of legacy/ad5758-sdz/ad5758.c, for every polynomial.
 */
module Crc {
  import opened Gf2
  import opened CrcMessage

  // ----- Numbers as bit strings -----

  function Pow2(k: nat): nat {
    if k == 0 then 1 else 2 * Pow2(k - 1)
  }

  /** The value of an unsigned word. */
  function Value(b: Bits): (v: nat)
    ensures v < Pow2(|b|)
  {
    if b == [] then 0
    else
      var k := |b| - 1;
      2 * Value(b[..k]) + (if b[k] then 1 else 0)
  }

  /** The k-bit word of a number. */
  function BitsOf(n: nat, k: nat): (b: Bits)
    ensures |b| == k
  {
    if k == 0 then [] else BitsOf(n / 2, k - 1) + [n % 2 == 1]
  }

  lemma {:induction false} BitsOfValue(b: Bits)
    ensures BitsOf(Value(b), |b|) == b
    decreases |b|
  {
    if b != [] {
      var k := |b| - 1;
      BitsOfValue(b[..k]);
      assert Value(b) / 2 == Value(b[..k]);
      assert b == b[..k] + [b[k]];
    }
  }

  function Bit(b: bool): nat {
    if b then 1 else 0
  }

  /** The value of the first k bits. */
  function Leading(b: Bits, k: nat): nat
    requires k <= |b|
  {
    Value(b[..k])
  }

  lemma LeadingNext(b: Bits, k: nat)
    requires k < |b|
    ensures Leading(b, k + 1) == 2 * Leading(b, k) + Bit(b[k])
    ensures Leading(b, 0) == 0 && Leading(b, |b|) == Value(b)
  {
    assert b[..k + 1][..k] == b[..k];
    assert b[..|b|] == b;
  }

  /** The value of a byte, most significant bit first. */
  lemma OctetValue(b: Octet)
    ensures Value(b) == 128 * Bit(b[0]) + 64 * Bit(b[1]) + 32 * Bit(b[2]) + 16 * Bit(b[3])
                        + 8 * Bit(b[4]) + 4 * Bit(b[5]) + 2 * Bit(b[6]) + Bit(b[7])
  {
    hide Value, Bit, Leading;
    LeadingNext(b, 0);
    LeadingNext(b, 1);
    LeadingNext(b, 2);
    LeadingNext(b, 3);
    LeadingNext(b, 4);
    LeadingNext(b, 5);
    LeadingNext(b, 6);
    LeadingNext(b, 7);
  }

  // ----- One byte through the table -----

  /** Clocking zero bits through the register k times. */
  function Clock(x: Bits, poly: Bits, k: nat): Bits
    requires |x| == |poly| > 0
  {
    Process(x, Zeros(k), poly)
  }

  lemma ClockNext(x: Bits, poly: Bits, k: nat)
    requires |x| == |poly| > 0
    ensures Clock(x, poly, 0) == x
    ensures Clock(x, poly, k + 1) == BitStep(Clock(x, poly, k), false, poly)
  {
    hide BitStep;
    assert Zeros(k + 1) == Zeros(k) + [false];
    ProcessCascade(x, Zeros(k), [false], poly);
    assert Process(Clock(x, poly, k), [false], poly) == BitStep(Clock(x, poly, k), false, poly);
  }

  /** The table entry of byte n for a register of |poly| bits. */
  function Entry(n: nat, poly: Bits): (e: Bits)
    requires |poly| >= 8
    ensures |e| == |poly|
  {
    Clock(BitsOf(n, 8) + Zeros(|poly| - 8), poly, 8)
  }

  ghost predicate IsTable(table: seq<Bits>, poly: Bits) {
    |poly| >= 8 && |table| == 256 && forall n :: 0 <= n < 256 ==> table[n] == Entry(n, poly)
  }

  /** While no set bit leaves the register, clocking only shifts. */
  lemma {:induction false} ClockLow(low: Bits, k: nat, j: nat, g: Bits)
    requires |g| == k + |low| + j > 0
    ensures Process(Zeros(k) + low + Zeros(j), Zeros(k), g) == low + Zeros(j + k)
    decreases k
  {
    if k == 0 {
      assert Zeros(0) + low + Zeros(j) == low + Zeros(j);
    } else {
      var x := Zeros(k) + low + Zeros(j);
      assert Zeros(k)[1..] == Zeros(k - 1);
      assert BitStep(x, false, g) == Zeros(k - 1) + low + Zeros(j + 1);
      ClockLow(low, k - 1, j + 1, g);
    }
  }

  /** A table lookup and a shift by one byte equal eight steps of the shift register. */
  lemma TableStep(crc: Bits, b: Octet, poly: Bits)
    requires |crc| == |poly| >= 8
    ensures Value(Xor(crc[..8], b)) < 256
    ensures Xor(Entry(Value(Xor(crc[..8], b)), poly), crc[8..] + Zeros(8)) == Process(crc, b, poly)
  {
    hide Process, Value, BitsOf;
    var n := |poly|;
    var z, low := Xor(crc[..8], b), crc[8..];
    assert Pow2(8) == 256;
    BitsOfValue(z);
    var hi, lo := z + Zeros(n - 8), Zeros(8) + low;
    ClockLow(low, 8, 0, poly);
    assert Zeros(8) + low + Zeros(0) == lo;
    ProcessLinear(hi, lo, 8, poly);
    ProcessFold(crc, b, poly);
    assert Xor(hi, lo) == z + low == Xor(crc, b + Zeros(n - 8));
  }

  /** One more byte of the message, looked up. */
  lemma CrcNext(table: seq<Bits>, poly: Bits, init: Bits, data: seq<Octet>, i: nat, crc: Bits)
    requires IsTable(table, poly) && |init| == |poly| && i < |data|
    requires crc == Process(init, MsgBits(data[..i]), poly)
    ensures Value(Xor(crc[..8], data[i])) < 256
    ensures var e := table[Value(Xor(crc[..8], data[i]))];
            |e| == |poly| && Xor(e, crc[8..] + Zeros(8)) == Process(init, MsgBits(data[..i + 1]), poly)
  {
    hide Process, MsgBits, Value, Entry;
    TableStep(crc, data[i], poly);
    NextByte(init, data[..i], data[i], poly);
    assert data[..i + 1] == data[..i] + [data[i]];
  }

  // ----- CRC-8 and CRC-16 -----

  /** The inner loop of crc8_populate_msb. */
  method Crc8Entry(n: nat, poly: Bits) returns (currByte: Bits)
    requires |poly| == 8
    ensures currByte == Entry(n, poly)
  {
    hide Process;
    currByte := BitsOf(n, 8);
    ghost var start := BitsOf(n, 8) + Zeros(0);
    assert start == currByte;
    ClockNext(start, poly, 0);
    for bit := 0 to 8
      invariant |currByte| == 8 && currByte == Clock(start, poly, bit)
    {
      ClockNext(start, poly, bit);
      var shifted := currByte[1..] + [false];
      assert Xor(shifted, Zeros(8)) == shifted;
      if currByte[0] {
        currByte := shifted;
        currByte := Xor(currByte, poly);
      } else {
        currByte := shifted;
      }
    }
  }

  /** crc8_populate_msb. */
  method Crc8PopulateMsb(table: array<Bits>, poly: Bits)
    requires table.Length == 256 && |poly| == 8
    modifies table
    ensures IsTable(table[..], poly)
  {
    for n := 0 to 256
      invariant forall i :: 0 <= i < n ==> table[i] == Entry(i, poly)
    {
      var currByte := Crc8Entry(n, poly);
      table[n] := currByte;
    }
  }

  /** crc8: the remainder of the message, starting from `init`. */
  method Crc8(table: array<Bits>, data: seq<Octet>, init: Bits, ghost poly: Bits) returns (crc: Bits)
    requires IsTable(table[..], poly) && |poly| == |init| == 8
    ensures IsRemainder(poly, init, data, crc)
  {
    hide Process, MsgBits, Value, Entry, IsRemainder;
    crc := init;
    NoBytes(init, poly);
    for i := 0 to |data|
      invariant |crc| == 8 && crc == Process(init, MsgBits(data[..i]), poly)
    {
      CrcNext(table[..], poly, init, data, i, crc);
      assert crc[..8] == crc && crc[8..] + Zeros(8) == Zeros(8);
      var idx := Value(Xor(crc, data[i]));
      assert Xor(table[idx], Zeros(8)) == table[idx];
      crc := table[idx];
    }
    assert data[..|data|] == data;
    RegisterIsRemainder(poly, init, data, crc);
  }

  /** The inner loop of crc16_populate_msb. */
  method Crc16Entry(n: nat, poly: Bits) returns (currByte: Bits)
    requires |poly| == 16
    ensures currByte == Entry(n, poly)
  {
    hide Process;
    currByte := BitsOf(n, 8) + Zeros(8);
    ghost var start := currByte;
    ClockNext(start, poly, 0);
    for bit := 0 to 8
      invariant |currByte| == 16 && currByte == Clock(start, poly, bit)
    {
      ClockNext(start, poly, bit);
      var shifted := currByte[1..] + [false];
      assert Xor(shifted, Zeros(16)) == shifted;
      if currByte[0] {
        currByte := shifted;
        currByte := Xor(currByte, poly);
      } else {
        currByte := shifted;
      }
    }
  }

  /** crc16_populate_msb. */
  method Crc16PopulateMsb(table: array<Bits>, poly: Bits)
    requires table.Length == 256 && |poly| == 16
    modifies table
    ensures IsTable(table[..], poly)
  {
    for n := 0 to 256
      invariant forall i :: 0 <= i < n ==> table[i] == Entry(i, poly)
    {
      var currByte := Crc16Entry(n, poly);
      table[n] := currByte;
    }
  }

  /** crc16: the remainder of the message, starting from `init`. */
  method Crc16(table: array<Bits>, data: seq<Octet>, init: Bits, ghost poly: Bits) returns (crc: Bits)
    requires IsTable(table[..], poly) && |poly| == |init| == 16
    ensures IsRemainder(poly, init, data, crc)
  {
    hide Process, MsgBits, Value, Entry, IsRemainder;
    crc := init;
    NoBytes(init, poly);
    for i := 0 to |data|
      invariant |crc| == 16 && crc == Process(init, MsgBits(data[..i]), poly)
    {
      CrcNext(table[..], poly, init, data, i, crc);
      var idx := Value(Xor(crc[..8], data[i]));
      crc := Xor(table[idx], crc[8..] + Zeros(8));
    }
    assert data[..|data|] == data;
    RegisterIsRemainder(poly, init, data, crc);
  }

  // ----- CRC-24, kept in 32-bit words -----

  /** The 24 bits that count of a 32-bit word. */
  function Low24(x: Bits): (y: Bits)
    requires |x| == 32
    ensures |y| == 24
  {
    x[8..]
  }

  ghost predicate IsTable24(table: seq<Bits>, poly: Bits) {
    && |poly| == 32 && |table| == 256
    && forall n :: 0 <= n < 256 ==> |table[n]| == 32 && Low24(table[n]) == Entry(n, Low24(poly))
  }

  /** The inner loop of crc24_populate_msb. */
  method Crc24Entry(n: nat, poly: Bits) returns (currByte: Bits)
    requires |poly| == 32
    ensures |currByte| == 32 && Low24(currByte) == Entry(n, Low24(poly))
  {
    hide Process;
    ghost var g := Low24(poly);
    currByte := Zeros(8) + (BitsOf(n, 8) + Zeros(16));
    ghost var start := BitsOf(n, 8) + Zeros(16);
    assert Low24(currByte) == start;
    ClockNext(start, g, 0);
    for bit := 0 to 8
      invariant |currByte| == 32 && Low24(currByte) == Clock(start, g, bit)
    {
      ClockNext(start, g, bit);
      Shift24(currByte, poly);
      if currByte[8] {
        currByte := Zeros(9) + currByte[9..];
        currByte := currByte[1..] + [false];
        currByte := Xor(currByte, poly);
      } else {
        currByte := currByte[1..] + [false];
      }
    }
  }

  /** crc24_populate_msb, for any 32-bit polynomial argument: only its low 24 bits matter. */
  method Crc24PopulateMsb(table: array<Bits>, poly: Bits)
    requires table.Length == 256 && |poly| == 32
    modifies table
    ensures IsTable24(table[..], poly)
  {
    for n := 0 to 256
      invariant forall i :: 0 <= i < n ==> |table[i]| == 32 && Low24(table[i]) == Entry(i, Low24(poly))
    {
      var currByte := Crc24Entry(n, poly);
      table[n] := currByte;
    }
  }

  lemma Shift24(x: Bits, poly: Bits)
    requires |x| == |poly| == 32
    ensures var g := Low24(poly);
            var masked := Zeros(9) + x[9..];
            BitStep(Low24(x), false, g) ==
            if x[8] then Low24(Xor(masked[1..] + [false], poly)) else Low24(x[1..] + [false])
  {
    var shifted := Low24(x)[1..] + [false];
    assert Xor(shifted, Zeros(24)) == shifted;
  }

  /** crc24: the high byte of the result is zero, the rest is the remainder. */
  method Crc24(table: array<Bits>, data: seq<Octet>, init: Bits, ghost poly: Bits) returns (crc: Bits)
    requires IsTable24(table[..], poly) && |poly| == |init| == 32
    ensures |crc| == 32 && crc[..8] == Zeros(8)
    ensures IsRemainder(Low24(poly), Low24(init), data, Low24(crc))
  {
    hide Process, MsgBits, Value, Entry, IsRemainder;
    ghost var g := Low24(poly);
    ghost var low := seq(256, n requires 0 <= n < 256 => Entry(n, g));
    crc := init;
    NoBytes(Low24(init), g);
    for i := 0 to |data|
      invariant |crc| == 32 && Low24(crc) == Process(Low24(init), MsgBits(data[..i]), g)
    {
      CrcNext(low, g, Low24(init), data, i, Low24(crc));
      assert Low24(crc)[..8] == crc[8..16] && Low24(crc)[8..] == crc[16..];
      var idx := Value(Xor(crc[8..16], data[i]));
      var next := Xor(table[idx], crc[8..] + Zeros(8));
      assert Low24(next) == Xor(Low24(table[idx]), crc[16..] + Zeros(8));
      crc := Zeros(8) + next[8..];
    }
    assert data[..|data|] == data;
    crc := Zeros(8) + crc[8..];
    RegisterIsRemainder(g, Low24(init), data, Low24(crc));
  }

  // ----- The bit-serial CRC-8 of the AD5758 -----

  /** x^8 + x^2 + x + 1. */
  const AD5758_CRC8_POLY: Octet := [false, false, false, false, false, true, true, true]

  lemma Ad5758Poly()
    ensures Value(AD5758_CRC8_POLY) == 0x07
  {
    OctetValue(AD5758_CRC8_POLY);
  }

  /** ad5758_compute_crc8: the same value as crc8 with polynomial 0x07 and initial value zero. */
  method Ad5758ComputeCrc8(data: seq<Octet>) returns (crc: Bits)
    ensures IsRemainder(AD5758_CRC8_POLY, Zeros(8), data, crc)
  {
    hide Process, MsgBits, IsRemainder;
    var g := AD5758_CRC8_POLY;
    crc := Zeros(8);
    NoBytes(crc, g);
    for k := 0 to |data|
      invariant |crc| == 8 && crc == Process(Zeros(8), MsgBits(data[..k]), g)
    {
      var b := data[k];
      ghost var before := crc;
      ProcessNone(before, g);
      for i := 0 to 8
        invariant |crc| == 8 && crc == Process(before, b[..i], g)
      {
        assert b[..i + 1] == b[..i] + [b[i]];
        ProcessNext(before, b[..i], b[i], g);
        var shifted := crc[1..] + [false];
        assert Xor(shifted, Zeros(8)) == shifted;
        if crc[0] != b[i] {
          crc := shifted;
          crc := Xor(crc, g);
        } else {
          crc := shifted;
        }
      }
      assert b[..8] == b;
      NextByte(Zeros(8), data[..k], b, g);
      assert data[..k + 1] == data[..k] + [b];
    }
    assert data[..|data|] == data;
    RegisterIsRemainder(g, Zeros(8), data, crc);
  }

  /** So crc8 with the table of that polynomial, from zero, returns the same value. */
  method BothCrc8(table: array<Bits>, data: seq<Octet>) returns (tableDriven: Bits, bitSerial: Bits)
    requires IsTable(table[..], AD5758_CRC8_POLY)
    ensures tableDriven == bitSerial
  {
    hide IsRemainder;
    tableDriven := Crc8(table, data, Zeros(8), AD5758_CRC8_POLY);
    bitSerial := Ad5758ComputeCrc8(data);
    RemainderIsUnique(AD5758_CRC8_POLY, Zeros(8), data, tableDriven, bitSerial);
  }

  lemma ProcessNone(reg: Bits, g: Bits)
    requires |reg| == |g| > 0
    ensures Process(reg, [], g) == reg
  {
  }

  lemma ProcessNext(reg: Bits, data: Bits, d: bool, g: Bits)
    requires |reg| == |g| > 0
    ensures Process(reg, data + [d], g) == BitStep(Process(reg, data, g), d, g)
  {
    hide BitStep;
    ProcessCascade(reg, data, [d], g);
    assert Process(Process(reg, data, g), [d], g) == BitStep(Process(reg, data, g), d, g);
  }
}
