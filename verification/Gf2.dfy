/**
  Polynomials over GF(2) as bit strings, most significant coefficient first, and the
  shift register that divides by x^n + g.  Nothing here knows about bytes or tables.
 */
module Gf2 {

  type Bits = seq<bool>

  function Zeros(n: nat): Bits {
    seq(n, _ => false)
  }

  /** Addition of polynomials written with the same number of coefficients. */
  function Xor(a: Bits, b: Bits): Bits
    requires |a| == |b|
  {
    seq(|a|, i requires 0 <= i < |a| => a[i] != b[i])
  }

  function Scale(t: bool, g: Bits): Bits {
    if t then g else Zeros(|g|)
  }

  // ----- Multiplication and division with remainder -----

  /** The product of q and the divisor x^n + g, with |q| + n coefficients (Horner's rule). */
  function Mul(q: Bits, g: Bits): (m: Bits)
    ensures |m| == |q| + |g|
  {
    if q == [] then Zeros(|g|)
    else
      var k := |q| - 1;
      Xor(Mul(q[..k], g) + [false], Zeros(k) + Scale(q[k], [true] + g))
  }

  /** dividend = quotient * (x^n + g) + remainder, with a remainder of degree below n. */
  ghost predicate Divides(dividend: Bits, g: Bits, q: Bits, r: Bits) {
    && |r| == |g| && |dividend| == |q| + |g|
    && dividend == Xor(Mul(q, g), Zeros(|q|) + r)
  }

  /** The leading coefficients of a product determine the quotient. */
  lemma {:induction false} MulLeading(q: Bits, q': Bits, g: Bits)
    requires |q| == |q'| && Mul(q, g)[..|q|] == Mul(q', g)[..|q|]
    ensures q == q'
    decreases |q|
  {
    hide Mul;
    if q != [] {
      var k := |q| - 1;
      var m, m' := Mul(q, g), Mul(q', g);
      assert q == q[..k] + [q[k]] && q' == q'[..k] + [q'[k]];
      forall i | 0 <= i < k
        ensures Mul(q[..k], g)[i] == Mul(q'[..k], g)[i]
      {
        MulStep(q[..k], q[k], g, i);
        MulStep(q'[..k], q'[k], g, i);
        assert m[..k + 1][i] == m'[..k + 1][i];
      }
      MulLeading(q[..k], q'[..k], g);
      MulStep(q[..k], q[k], g, k);
      MulStep(q'[..k], q'[k], g, k);
      assert m[..k + 1][k] == m'[..k + 1][k];
    }
  }

  /** Quotient and remainder are unique. */
  lemma RemainderUnique(dividend: Bits, g: Bits, q: Bits, r: Bits, q': Bits, r': Bits)
    requires Divides(dividend, g, q, r) && Divides(dividend, g, q', r')
    ensures q == q' && r == r'
  {
    forall i | 0 <= i < |q|
      ensures Mul(q, g)[i] == dividend[i] && Mul(q', g)[i] == dividend[i]
    {
    }
    MulLeading(q, q', g);
    forall i | 0 <= i < |r|
      ensures r[i] == r'[i]
    {
      assert dividend[|q| + i] == (Mul(q, g)[|q| + i] != r[i]);
      assert dividend[|q| + i] == (Mul(q', g)[|q| + i] != r'[i]);
    }
  }

  // ----- The shift register -----

  /** One data bit: shift left, and add the polynomial when the outgoing bit and the data bit differ. */
  function BitStep(reg: Bits, d: bool, g: Bits): (reg': Bits)
    requires |reg| == |g| > 0
    ensures |reg'| == |g|
  {
    Xor(reg[1..] + [false], Scale(reg[0] != d, g))
  }

  /** The register after the data bits, first bit first. */
  function Process(reg: Bits, data: Bits, g: Bits): (reg': Bits)
    requires |reg| == |g| > 0
    ensures |reg'| == |g|
    decreases |data|
  {
    if data == [] then reg else Process(BitStep(reg, data[0], g), data[1..], g)
  }

  /** The register can be handed on: processing cascades over any split of the data. */
  lemma {:induction false} ProcessCascade(reg: Bits, a: Bits, b: Bits, g: Bits)
    requires |reg| == |g| > 0
    ensures Process(reg, a + b, g) == Process(Process(reg, a, g), b, g)
    decreases |a|
  {
    if a == [] {
      assert a + b == b;
    } else {
      assert (a + b)[1..] == a[1..] + b;
      ProcessCascade(BitStep(reg, a[0], g), a[1..], b, g);
    }
  }

  /** The data times x^n, plus the initial register in front: what the register divides. */
  function Dividend(init: Bits, data: Bits): Bits {
    Xor(data + Zeros(|init|), init + Zeros(|data|))
  }

  /** The feedback bits, which are the quotient. */
  function Quotient(init: Bits, data: Bits, g: Bits): (q: Bits)
    requires |init| == |g| > 0
    ensures |q| == |data|
  {
    if data == [] then []
    else
      var k := |data| - 1;
      Quotient(init, data[..k], g) + [Process(init, data[..k], g)[0] != data[k]]
  }

  lemma DividendStep(init: Bits, data: Bits, d: bool, i: nat)
    requires i < |data| + 1 + |init|
    ensures Dividend(init, data + [d])[i] ==
            ((if i < |data| + |init| then Dividend(init, data)[i] else false) != (i == |data| && d))
  {
  }

  lemma MulStep(q: Bits, t: bool, g: Bits, i: nat)
    requires i < |q| + 1 + |g|
    ensures Mul(q + [t], g)[i] ==
            ((if i < |q| + |g| then Mul(q, g)[i] else false)
             != (t && (i == |q| || (i > |q| && g[i - |q| - 1]))))
  {
    assert (q + [t])[..|q|] == q;
  }

  lemma BitStepAt(r: Bits, d: bool, g: Bits, j: nat)
    requires |r| == |g| > j
    ensures BitStep(r, d, g)[j] == ((j + 1 < |g| && r[j + 1]) != ((r[0] != d) && g[j]))
  {
  }

  lemma DividesAt(dividend: Bits, g: Bits, q: Bits, r: Bits, i: nat)
    requires Divides(dividend, g, q, r) && i < |dividend|
    ensures dividend[i] == (Mul(q, g)[i] != (i >= |q| && r[i - |q|]))
  {
  }

  /** The register holds the remainder, the feedback bits are the quotient. */
  lemma {:induction false} RegisterDivides(init: Bits, data: Bits, g: Bits)
    requires |init| == |g| > 0
    ensures Divides(Dividend(init, data), g, Quotient(init, data, g), Process(init, data, g))
    decreases |data|
  {
    if data == [] {
      assert Dividend(init, data) == init;
      assert Xor(Mul([], g), Zeros(0) + init) == init;
    } else {
      var k := |data| - 1;
      var before, d := data[..k], data[k];
      assert data == before + [d];
      RegisterDivides(init, before, g);
      RegisterDividesStep(init, before, d, g);
    }
  }

  lemma {:induction false} RegisterDividesStep(init: Bits, data: Bits, d: bool, g: Bits)
    requires |init| == |g| > 0
    requires Divides(Dividend(init, data), g, Quotient(init, data, g), Process(init, data, g))
    ensures Divides(Dividend(init, data + [d]), g, Quotient(init, data + [d], g), Process(init, data + [d], g))
  {
    hide Divides, Mul, Dividend, BitStep;
    var k := |data|;
    var q, r := Quotient(init, data, g), Process(init, data, g);
    var q', r' := q + [r[0] != d], BitStep(r, d, g);
    assert (data + [d])[..k] == data;
    ProcessCascade(init, data, [d], g);
    assert Process(r, [d], g) == r';
    RemainderStep(init, data, d, g, q, r);
  }

  lemma RemainderStep(init: Bits, data: Bits, d: bool, g: Bits, q: Bits, r: Bits)
    requires |init| == |g| == |r| > 0 && |q| == |data| && Divides(Dividend(init, data), g, q, r)
    ensures Divides(Dividend(init, data + [d]), g, q + [r[0] != d], BitStep(r, d, g))
  {
    hide Mul, BitStep, Dividend, Divides;
    var q', r' := q + [r[0] != d], BitStep(r, d, g);
    var lhs := Dividend(init, data + [d]);
    DividendLength(init, data);
    DividendLength(init, data + [d]);
    forall i | 0 <= i < |lhs|
      ensures lhs[i] == (Mul(q', g)[i] != (i >= |q'| && r'[i - |q'|]))
    {
      DividendStep(init, data, d, i);
      MulStep(q, r[0] != d, g, i);
      if i < |data| + |g| {
        DividesAt(Dividend(init, data), g, q, r, i);
      }
      if i >= |q'| {
        BitStepAt(r, d, g, i - |q'|);
      }
    }
    DividesByBits(lhs, g, q', r');
  }

  lemma DividendLength(init: Bits, data: Bits)
    ensures |Dividend(init, data)| == |init| + |data|
  {
  }

  lemma DividesByBits(dividend: Bits, g: Bits, q: Bits, r: Bits)
    requires |r| == |g| && |dividend| == |q| + |g|
    requires forall i :: 0 <= i < |dividend| ==> dividend[i] == (Mul(q, g)[i] != (i >= |q| && r[i - |q|]))
    ensures Divides(dividend, g, q, r)
  {
    hide Mul;
    assert dividend == Xor(Mul(q, g), Zeros(|q|) + r);
  }

  // ----- Data folded into the register -----

  lemma FoldStep(reg: Bits, data: Bits, g: Bits)
    requires |reg| == |g| > 0 && 0 < |data| <= |g|
    ensures BitStep(Xor(reg, data + Zeros(|g| - |data|)), false, g)
         == Xor(BitStep(reg, data[0], g), data[1..] + Zeros(|g| - |data| + 1))
  {
  }

  /** Up to n data bits have the effect of being added to the register first. */
  lemma {:induction false} ProcessFold(reg: Bits, data: Bits, g: Bits)
    requires |reg| == |g| > 0 && |data| <= |g|
    ensures Process(reg, data, g) == Process(Xor(reg, data + Zeros(|g| - |data|)), Zeros(|data|), g)
    decreases |data|
  {
    var n := |g|;
    if data == [] {
      assert Xor(reg, data + Zeros(n)) == reg;
    } else {
      var folded := Xor(reg, data + Zeros(n - |data|));
      var reg1 := BitStep(reg, data[0], g);
      var rest := data[1..];
      ProcessFold(reg1, rest, g);
      FoldStep(reg, data, g);
      assert Zeros(|data|)[1..] == Zeros(|rest|);
    }
  }

  /** Addition commutes with clocking zero bits through the register. */
  lemma {:induction false} ProcessLinear(a: Bits, b: Bits, k: nat, g: Bits)
    requires |a| == |b| == |g| > 0
    ensures Process(Xor(a, b), Zeros(k), g) == Xor(Process(a, Zeros(k), g), Process(b, Zeros(k), g))
    decreases k
  {
    if k > 0 {
      assert Zeros(k)[1..] == Zeros(k - 1);
      assert BitStep(Xor(a, b), false, g) == Xor(BitStep(a, false, g), BitStep(b, false, g));
      ProcessLinear(BitStep(a, false, g), BitStep(b, false, g), k - 1, g);
    }
  }

  /** Feeding a register its own bits clears it. */
  lemma ProcessOwnBits(reg: Bits, g: Bits)
    requires |reg| == |g| > 0
    ensures Process(reg, reg, g) == Zeros(|g|)
  {
    ProcessFold(reg, reg, g);
    assert reg + Zeros(0) == reg;
    assert Xor(reg, reg) == Zeros(|g|);
    ProcessZeros(|g|, g);
  }

  lemma {:induction false} ProcessZeros(k: nat, g: Bits)
    requires |g| > 0
    ensures Process(Zeros(|g|), Zeros(k), g) == Zeros(|g|)
  {
    if k > 0 {
      assert Zeros(k)[1..] == Zeros(k - 1);
      assert BitStep(Zeros(|g|), false, g) == Zeros(|g|);
      ProcessZeros(k - 1, g);
    }
  }

  // ----- Injectivity: what an odd polynomial detects -----

  lemma BitStepInjective(a: Bits, b: Bits, d: bool, g: Bits)
    requires |a| == |b| == |g| > 0 && g[|g| - 1] && BitStep(a, d, g) == BitStep(b, d, g)
    ensures a == b
  {
    var n := |g|;
    assert BitStep(a, d, g)[n - 1] == (a[0] != d) && BitStep(b, d, g)[n - 1] == (b[0] != d);
    forall i | 1 <= i < n
      ensures a[i] == b[i]
    {
      assert BitStep(a, d, g)[i - 1] == BitStep(b, d, g)[i - 1];
    }
  }

  lemma {:induction false} ProcessInjective(a: Bits, b: Bits, data: Bits, g: Bits)
    requires |a| == |b| == |g| > 0 && g[|g| - 1] && Process(a, data, g) == Process(b, data, g)
    ensures a == b
    decreases |data|
  {
    if data != [] {
      ProcessInjective(BitStep(a, data[0], g), BitStep(b, data[0], g), data[1..], g);
      BitStepInjective(a, b, data[0], g);
    }
  }

  lemma WindowInjective(r: Bits, x: Bits, y: Bits, g: Bits)
    requires |r| == |g| > 0 && g[|g| - 1] && |x| == |y| <= |g|
    requires Process(r, x, g) == Process(r, y, g)
    ensures x == y
  {
    hide Process;
    var n := |g|;
    var px, py := x + Zeros(n - |x|), y + Zeros(n - |y|);
    ProcessFold(r, x, g);
    ProcessFold(r, y, g);
    ProcessInjective(Xor(r, px), Xor(r, py), Zeros(|x|), g);
    forall i | 0 <= i < |x|
      ensures x[i] == y[i]
    {
      assert Xor(r, px)[i] == Xor(r, py)[i];
    }
  }

  /** Two messages that differ only inside a burst of at most n bits never share a remainder. */
  lemma BurstDetected(reg: Bits, a: Bits, x: Bits, y: Bits, b: Bits, g: Bits)
    requires |reg| == |g| > 0 && g[|g| - 1] && |x| == |y| <= |g|
    requires Process(reg, a + x + b, g) == Process(reg, a + y + b, g)
    ensures x == y
  {
    hide Process;
    var r := Process(reg, a, g);
    ProcessCascade(reg, a + x, b, g);
    ProcessCascade(reg, a, x, g);
    ProcessCascade(reg, a + y, b, g);
    ProcessCascade(reg, a, y, g);
    ProcessInjective(Process(r, x, g), Process(r, y, g), b, g);
    WindowInjective(r, x, y, g);
  }

  /** An even polynomial misses a burst: the divisor itself, shifted right by one. */
  lemma EvenPolynomialMisses(reg: Bits, g: Bits)
    requires |reg| == |g| > 0 && !g[|g| - 1]
    ensures var n := |g|;
            var e := [true] + g[..n - 1];
            |e| == n && e != Zeros(n) && Process(reg, e, g) == Process(reg, Zeros(n), g)
  {
    var n := |g|;
    var e := [true] + g[..n - 1];
    assert Zeros(n)[0] != e[0];
    ProcessFold(reg, e, g);
    assert e + Zeros(0) == e;
    ProcessLinear(reg, e, n, g);
    assert Zeros(n)[1..] == Zeros(n - 1);
    assert BitStep(e, false, g) == Zeros(n);
    ProcessZeros(n - 1, g);
    var p := Process(reg, Zeros(n), g);
    assert Xor(p, Zeros(n)) == p;
  }
}
