/**
  Messages of bytes as bit strings, and what the CRC of a message is.

  Unsigned machine words are modelled as bit strings of their width, most significant
  bit first, so that shift, exclusive or and bit test are what they are in C.
 */
module CrcMessage {
  import opened Gf2

  /** One byte (uint8_t). */
  type Octet = b: Bits | |b| == 8 witness [false, false, false, false, false, false, false, false]

  function MsgBits(m: seq<Octet>): (bits: Bits)
    ensures |bits| == 8 * |m|
  {
    if m == [] then [] else m[0] + MsgBits(m[1..])
  }

  lemma {:induction false} MsgBitsAppend(a: seq<Octet>, b: seq<Octet>)
    ensures MsgBits(a + b) == MsgBits(a) + MsgBits(b)
  {
    if a == [] {
      assert a + b == b;
    } else {
      assert (a + b)[1..] == a[1..] + b;
      MsgBitsAppend(a[1..], b);
    }
  }

  lemma {:induction false} MsgBitsInjective(a: seq<Octet>, b: seq<Octet>)
    requires |a| == |b| && MsgBits(a) == MsgBits(b)
    ensures a == b
  {
    if a != [] {
      assert a[0] == MsgBits(a)[..8] && b[0] == MsgBits(b)[..8];
      assert MsgBits(a[1..]) == MsgBits(a)[8..] && MsgBits(b[1..]) == MsgBits(b)[8..];
      MsgBitsInjective(a[1..], b[1..]);
    }
  }

  /** A bit string cut into bytes, most significant byte first. */
  function ToMsg(x: Bits): (m: seq<Octet>)
    requires |x| % 8 == 0
    ensures |m| == |x| / 8
    decreases |x|
  {
    if x == [] then [] else [x[..8]] + ToMsg(x[8..])
  }

  lemma {:induction false} ToMsgBits(x: Bits)
    requires |x| % 8 == 0
    ensures MsgBits(ToMsg(x)) == x
    decreases |x|
  {
    if x != [] {
      ToMsgBits(x[8..]);
      assert ToMsg(x)[1..] == ToMsg(x[8..]);
      assert x[..8] + x[8..] == x;
    }
  }

  // ----- What a CRC is, for any width -----

  /** r is the remainder of init * x^(8|m|) + m * x^n divided by x^n + g. */
  ghost predicate IsRemainder(g: Bits, init: Bits, m: seq<Octet>, r: Bits) {
    |init| == |g| > 0 && exists q :: Divides(Dividend(init, MsgBits(m)), g, q, r)
  }

  /** The shift register computes the remainder and nothing else is one. */
  lemma RegisterIsRemainder(g: Bits, init: Bits, m: seq<Octet>, r: Bits)
    requires |init| == |g| > 0
    ensures IsRemainder(g, init, m, r) <==> r == Process(init, MsgBits(m), g)
  {
    hide Divides, Process, Dividend, Quotient;
    var p := Process(init, MsgBits(m), g);
    RegisterDivides(init, MsgBits(m), g);
    if IsRemainder(g, init, m, r) {
      var q :| Divides(Dividend(init, MsgBits(m)), g, q, r);
      RemainderUnique(Dividend(init, MsgBits(m)), g, q, r, Quotient(init, MsgBits(m), g), p);
    }
  }

  /** A message has one CRC, however it is computed. */
  lemma RemainderIsUnique(g: Bits, init: Bits, m: seq<Octet>, r: Bits, r': Bits)
    requires IsRemainder(g, init, m, r) && IsRemainder(g, init, m, r')
    ensures r == r'
  {
    hide Process;
    RegisterIsRemainder(g, init, m, r);
    RegisterIsRemainder(g, init, m, r');
  }

  lemma NoBytes(reg: Bits, g: Bits)
    requires |reg| == |g| > 0
    ensures Process(reg, MsgBits([]), g) == reg
  {
  }

  lemma NextByte(reg: Bits, m: seq<Octet>, b: Octet, g: Bits)
    requires |reg| == |g| > 0
    ensures Process(reg, MsgBits(m + [b]), g) == Process(Process(reg, MsgBits(m), g), b, g)
  {
    hide Process;
    MsgBitsAppend(m, [b]);
    assert [b][1..] == [];
    assert MsgBits([b]) == b;
    ProcessCascade(reg, MsgBits(m), b, g);
  }

  /** A CRC can be continued: its value is the initial value for the rest of the message. */
  lemma RemainderCascade(g: Bits, init: Bits, a: seq<Octet>, b: seq<Octet>, mid: Bits, r: Bits)
    requires IsRemainder(g, init, a, mid) && IsRemainder(g, mid, b, r)
    ensures IsRemainder(g, init, a + b, r)
  {
    hide IsRemainder, Process, MsgBits;
    RemainderLengths(g, init, a, mid);
    RegisterIsRemainder(g, init, a, mid);
    RegisterIsRemainder(g, mid, b, r);
    RegisterIsRemainder(g, init, a + b, r);
    MsgBitsAppend(a, b);
    ProcessCascade(init, MsgBits(a), MsgBits(b), g);
  }

  lemma RemainderLengths(g: Bits, init: Bits, m: seq<Octet>, r: Bits)
    requires IsRemainder(g, init, m, r)
    ensures |init| == |g| == |r| > 0
  {
  }

  /** A message followed by its own CRC, most significant byte first, leaves zero. */
  lemma RemainderResidue(g: Bits, init: Bits, m: seq<Octet>, r: Bits)
    requires IsRemainder(g, init, m, r) && |g| % 8 == 0 && |r| == |g|
    ensures IsRemainder(g, init, m + ToMsg(r), Zeros(|g|))
  {
    hide IsRemainder, Process, MsgBits;
    var own := ToMsg(r);
    ToMsgBits(r);
    RemainderLengths(g, init, m, r);
    ProcessOwnBits(r, g);
    RegisterIsRemainder(g, r, own, Zeros(|g|));
    RemainderCascade(g, init, m, own, r, Zeros(|g|));
  }

  /** Changing only w consecutive bytes always changes the remainder. */
  ghost predicate DetectsBursts(g: Bits, w: nat) {
    forall init: Bits, a: seq<Octet>, x: seq<Octet>, y: seq<Octet>, b: seq<Octet>, r: Bits ::
      |x| == |y| <= w && IsRemainder(g, init, a + x + b, r) && IsRemainder(g, init, a + y + b, r) ==> x == y
  }

  lemma OddDetects(g: Bits, w: nat, init: Bits, a: seq<Octet>, x: seq<Octet>, y: seq<Octet>, b: seq<Octet>, r: Bits)
    requires |g| == 8 * w && g != [] && g[|g| - 1] && |x| == |y| <= w
    requires IsRemainder(g, init, a + x + b, r) && IsRemainder(g, init, a + y + b, r)
    ensures x == y
  {
    hide IsRemainder, Process;
    RemainderLengths(g, init, a + x + b, r);
    RegisterIsRemainder(g, init, a + x + b, r);
    RegisterIsRemainder(g, init, a + y + b, r);
    MsgBitsAppend(a + x, b);
    MsgBitsAppend(a, x);
    MsgBitsAppend(a + y, b);
    MsgBitsAppend(a, y);
    BurstDetected(init, MsgBits(a), MsgBits(x), MsgBits(y), MsgBits(b), g);
    MsgBitsInjective(x, y);
  }

  /** With the constant coefficient zero two one-burst messages share a remainder. */
  lemma EvenMisses(g: Bits, w: nat)
    requires |g| == 8 * w && g != [] && !g[|g| - 1]
    ensures !DetectsBursts(g, w)
  {
    hide Process, MsgBits, IsRemainder;
    var n := |g|;
    var init := Zeros(n);
    EvenPolynomialMisses(init, g);
    var e := [true] + g[..n - 1];
    var x, y := ToMsg(e), ToMsg(Zeros(n));
    ToMsgBits(e);
    ToMsgBits(Zeros(n));
    var r := Process(init, e, g);
    RegisterIsRemainder(g, init, x, r);
    RegisterIsRemainder(g, init, y, r);
    assert [] + x + [] == x && [] + y + [] == y;
  }

  /** Detection of every burst of up to n bits, for every message, exactly for odd polynomials. */
  lemma DetectsBurstsIff(g: Bits, w: nat)
    requires |g| == 8 * w && g != []
    ensures DetectsBursts(g, w) <==> g[|g| - 1]
  {
    hide IsRemainder;
    if g[|g| - 1] {
      forall init: Bits, a: seq<Octet>, x: seq<Octet>, y: seq<Octet>, b: seq<Octet>, r: Bits
        | |x| == |y| <= w && IsRemainder(g, init, a + x + b, r) && IsRemainder(g, init, a + y + b, r)
        ensures x == y
      {
        OddDetects(g, w, init, a, x, y, b, r);
      }
    } else {
      EvenMisses(g, w);
    }
  }
}
