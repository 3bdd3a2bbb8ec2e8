/**
  The search of legacy/adum7701_fmc/clkgen_core.c against the limits of the hardware alone:
  which of the legal pairs of multiplier and divider the two loops visit, and what the output
  divider of a pair is.  Frequencies are in kHz.
 */
module ClockLimits {
  import opened Machine
  import opened ClockGenerator

  /** 10 to 300 MHz at the phase detector, 600 to 1200 MHz at the oscillator. */
  predicate Legal(fin: nat, m: nat, d: nat) {
    && 1 <= m <= 64 && 1 <= d <= 80
    && 10000 * d <= fin <= 300000 * d
    && 600000 * d <= fin * m <= 1200000 * d
  }

  /** m is at least the product of a multiplier and a divider that each suffice by themselves. */
  predicate Starts(fin: nat, m: nat, k: nat, e: nat) {
    k * fin >= 600000 && e >= 1 && e * 300000 >= fin && k * e <= m
  }

  lemma Apart(a: nat, b: nat, f: nat)
    ensures a < b ==> a * f + f <= b * f
    ensures b < a ==> b * f + f <= a * f
  {
    if a < b {
      MulGe(b - a, f);
      assert (b - a) * f == b * f - a * f;
    } else if b < a {
      MulGe(a - b, f);
      assert (a - b) * f == a * f - b * f;
    }
  }

  lemma CeilEnough(x: nat, y: nat)
    requires y > 0
    ensures DivRoundUp(x, y) * y >= x
  {
    DivModSplit(x + y - 1, y);
  }

  lemma CeilAtMost(x: nat, y: nat, k: nat)
    requires y > 0 && x <= k * y
    ensures DivRoundUp(x, y) <= k
  {
    DivModSplit(x + y - 1, y);
    Apart(k, (x + y - 1) / y, y);
  }

  lemma FloorAtLeast(x: nat, y: nat, k: nat)
    requires y > 0 && k * y <= x
    ensures k <= x / y
  {
    DivModSplit(x, y);
    Apart(x / y, k, y);
  }

  lemma ProductAtMost(a: nat, b: nat, c: nat, d: nat)
    requires a <= c && b <= d
    ensures a * b <= c * d
  {
    assert c * d == a * d + (c - a) * d;
    assert a * d == a * b + a * (d - b);
  }

  /** A pair is visited if and only if it is legal and not below such a product. */
  lemma ScannedIff(fin: nat, m: nat, d: nat)
    requires fin > 0
    ensures Scanned(fin, m, d) <==> Legal(fin, m, d) && exists k, e :: Starts(fin, m, k, e)
  {
    hide MMin, MMax, DLow, DHigh;
    if Scanned(fin, m, d) {
      ScannedLegal(fin, m, d);
      StartReached(fin, m);
    } else if Legal(fin, m, d) && exists k, e :: Starts(fin, m, k, e) {
      var k, e :| Starts(fin, m, k, e);
      StartFound(fin, m, k, e);
      LegalFound(fin, m, d);
    }
  }

  lemma StartReached(fin: nat, m: nat)
    requires fin > 0 && m >= MMin(fin)
    ensures Starts(fin, m, DivRoundUp(600000, fin), DMin(fin))
  {
    hide DivRoundUp;
    CeilEnough(600000, fin);
    CeilEnough(fin, 300000);
  }

  lemma StartFound(fin: nat, m: nat, k: nat, e: nat)
    requires fin > 0 && m >= 1 && Starts(fin, m, k, e)
    ensures MMin(fin) <= m
  {
    hide DivRoundUp;
    CeilAtMost(600000, fin, k);
    CeilAtMost(fin, 300000, e);
    ProductAtMost(DivRoundUp(600000, fin), DMin(fin), k, e);
  }

  lemma LegalFound(fin: nat, m: nat, d: nat)
    requires fin > 0 && Legal(fin, m, d)
    ensures m <= MMax(fin) && DLow(fin, m) <= d <= DHigh(fin, m)
  {
    hide DivRoundUp;
    CeilAtMost(fin, 300000, d);
    CeilAtMost(fin * m, 1200000, d);
    FloorAtLeast(fin, 10000, d);
    FloorAtLeast(fin * m, 600000, d);
    assert m * fin <= 1200000 * DMax(fin);
    FloorAtLeast(1200000 * DMax(fin), fin, m);
  }

  /** Not every legal pair is visited: at 450 MHz in the pair (3, 2) is not. */
  lemma LegalSkipped()
    ensures Legal(450000, 3, 2) && !Scanned(450000, 3, 2)
  {
  }

  // ----- What the choice is among all legal pairs -----

  ghost predicate LegalReach(fin: nat, fout: nat, m: nat, d: nat)
    requires fin > 0 && fout > 0
  {
    Legal(fin, m, d) && Freq(fin, fout, m, d) >= fout
  }

  /** Nothing legal comes closer from above. */
  ghost predicate BestOfLegal(fin: nat, fout: nat, p: Params)
    requires fin > 0 && fout > 0
  {
    forall m, d :: LegalReach(fin, fout, m, d) ==>
      p != NOTHING && p.d > 0 && Freq(fin, fout, p.m, p.d) <= Freq(fin, fout, m, d)
  }

  /** Every legal pair from fout up has a visited one at most as far up. */
  ghost predicate MatchedByVisited(fin: nat, fout: nat)
    requires fin > 0 && fout > 0
  {
    forall m, d :: LegalReach(fin, fout, m, d) ==>
      exists m', d' :: Reaches(fin, fout, m', d') && Freq(fin, fout, m', d') <= Freq(fin, fout, m, d)
  }

  /** The result is the best of all legal pairs exactly when the pairs left out do not matter. */
  lemma BestOfLegalIff(fin: nat, fout: nat, p: Params)
    requires fin > 0 && fout > 0 && IsBest(fin, fout, p)
    ensures BestOfLegal(fin, fout, p) <==> MatchedByVisited(fin, fout)
  {
    hide Legal, Scanned, Freq;
    assert p != NOTHING ==> Reaches(fin, fout, p.m, p.d);
  }

  /**
    At 4 GHz in they do: the legal pair (13, 47) gives 1106382 kHz exactly, is not visited, and no
    visited pair gives that frequency.
   */
  lemma LegalPassedOver(p: Params)
    requires IsBest(4000000, 1106382, p)
    ensures Legal(4000000, 13, 47) && Freq(4000000, 1106382, 13, 47) == 1106382
    ensures p == NOTHING || (p.d > 0 && Freq(4000000, 1106382, p.m, p.d) > 1106382)
  {
    hide Scanned, Freq, IsBest;
    HitAt(13, 47);
    if p != NOTHING {
      BestLegal(4000000, 1106382, p);
      BestReaches(4000000, 1106382, p);
      VisitedAbove14(p.m, p.d);
      NotHit(p.m, p.d);
    }
  }

  lemma BestReaches(fin: nat, fout: nat, p: Params)
    requires fin > 0 && fout > 0 && IsBest(fin, fout, p) && p != NOTHING
    ensures Scanned(fin, p.m, p.d) && p.d > 0 && Freq(fin, fout, p.m, p.d) >= fout
  {
  }

  lemma VisitedAbove14(m: nat, d: nat)
    requires Scanned(4000000, m, d)
    ensures 14 <= m <= 24 && 14 <= d <= 80 && 4000000 * m <= 1200000 * d
  {
    assert DMin(4000000) == 14;
  }

  lemma HitAt(m: nat, d: nat)
    requires m == 13 && d == 47
    ensures Freq(4000000, 1106382, m, d) == 1106382
  {
    assert Fvco(4000000, m, d) == 1106382;
    assert Dout(4000000, 1106382, m, d) == 1;
  }

  lemma NotHit(m: nat, d: nat)
    requires 14 <= m <= 24 && 14 <= d <= 80 && 4000000 * m <= 1200000 * d
    ensures Freq(4000000, 1106382, m, d) != 1106382
  {
    hide DivNat, DivRoundClosest;
    var v := Fvco(4000000, m, d);
    FvcoExact(4000000, m, d);
    DivAtMost(4000000 * m, d, 1200000);
    SingleDivider(v);
    FreqExact(4000000, 1106382, m, d);
    NoMultiple(m, d);
  }

  lemma SingleDivider(v: nat)
    requires v <= 1200000
    ensures Clamp(DivRoundClosest(v, 1106382), 1, 128) == 1
  {
  }

  lemma NoMultiple(m: nat, d: nat)
    requires 14 <= m <= 24
    ensures !(1106382 * d <= 4000000 * m < 1106383 * d)
  {
  }

  // ----- The numbers of a pair -----

  /** The oscillator frequency is fin * m / d, rounded down. */
  lemma FvcoExact(fin: nat, m: nat, d: nat)
    requires d > 0
    ensures Fvco(fin, m, d) * d <= fin * m < (Fvco(fin, m, d) + 1) * d
  {
    DivModSplit(fin * m, d);
  }

  /** The output frequency is the oscillator frequency over the output divider, rounded down. */
  lemma FreqExact(fin: nat, fout: nat, m: nat, d: nat)
    requires fout > 0 && d > 0
    ensures var f, v, n := Freq(fin, fout, m, d), Fvco(fin, m, d), Dout(fin, fout, m, d);
            f * n <= v < (f + 1) * n
  {
    hide Fvco, Dout;
    DivModSplit(Fvco(fin, m, d), Dout(fin, fout, m, d));
  }

  /** The output divider brings the oscillator nearest to fout, the larger one of two that are equally near. */
  lemma DoutNearest(fin: nat, fout: nat, m: nat, d: nat, r: nat)
    requires fout > 0 && d > 0 && 1 <= r <= 128
    ensures var v, n := Fvco(fin, m, d), Dout(fin, fout, m, d);
            && Distance(v, n * fout) <= Distance(v, r * fout)
            && (Distance(v, n * fout) == Distance(v, r * fout) ==> r <= n)
  {
    hide Fvco;
    var v := Fvco(fin, m, d);
    var q, e := RoundSplit(v, fout);
    NearestMultiple(v, fout, q, e, r);
  }

  lemma RoundSplit(v: nat, f: nat) returns (q: nat, e: nat)
    requires f > 0
    ensures q == DivRoundClosest(v, f) && 2 * v + f == q * (2 * f) + e && e < 2 * f
  {
    q, e := (2 * v + f) / (2 * f), (2 * v + f) % (2 * f);
    DivModSplit(2 * v + f, 2 * f);
  }

  lemma NearestMultiple(v: nat, f: nat, q: nat, e: nat, r: nat)
    requires f > 0 && 2 * v + f == q * (2 * f) + e && e < 2 * f && 1 <= r <= 128
    ensures var n := Clamp(q, 1, 128);
            && Distance(v, n * f) <= Distance(v, r * f)
            && (Distance(v, n * f) == Distance(v, r * f) ==> r <= n)
  {
    var n := Clamp(q, 1, 128);
    assert q * (2 * f) == 2 * (q * f);
    Apart(q, n, f);
    Apart(r, n, f);
    Apart(r, q, f);
  }
}
