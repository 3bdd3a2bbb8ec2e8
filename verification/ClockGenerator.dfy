/**
  The MMCM parameter search and the divider registers of
  legacy/adum7701_fmc/clkgen_core.c.  Frequencies inside the search are in kHz.
 */
module ClockGenerator {
  import opened Machine

  // ----- The search space of clkgen_calc_params -----

  const FPFD_MIN: nat := 10000
  const FPFD_MAX: nat := 300000
  const FVCO_MIN: nat := 600000
  const FVCO_MAX: nat := 1200000

  function Max(a: nat, b: nat): nat {
    if a > b then a else b
  }

  function DivRoundUp(x: nat, y: nat): nat
    requires y > 0
  {
    (x + y - 1) / y
  }

  /** (uint32_t)((double)x / y + 0.5), with exact division. */
  function DivRoundClosest(x: nat, y: nat): nat
    requires y > 0
  {
    (2 * x + y) / (2 * y)
  }

  function Clamp(v: nat, lo: nat, hi: nat): nat {
    if v < lo then lo else if v > hi then hi else v
  }

  function DMin(fin: nat): nat {
    Max(DivRoundUp(fin, 300000), 1)
  }

  function DMax(fin: nat): nat {
    Min(fin / 10000, 80)
  }

  function MMin(fin: nat): nat
    requires fin > 0
  {
    Max(DivRoundUp(600000, fin) * DMin(fin), 1)
  }

  function MMax(fin: nat): nat
    requires fin > 0
  {
    Min(1200000 * DMax(fin) / fin, 64)
  }

  function DLow(fin: nat, m: nat): nat {
    Max(DMin(fin), DivRoundUp(fin * m, 1200000))
  }

  function DHigh(fin: nat, m: nat): nat {
    Min(DMax(fin), fin * m / 600000)
  }

  /** The pairs (m, d) the two loops visit. */
  predicate Scanned(fin: nat, m: nat, d: nat)
    requires fin > 0
  {
    MMin(fin) <= m <= MMax(fin) && DLow(fin, m) <= d <= DHigh(fin, m)
  }

  /** The oscillator frequency of a pair. */
  function Fvco(fin: nat, m: nat, d: nat): nat
    requires d > 0
  {
    DivNat(fin * m, d)
  }

  /** Unsigned division. */
  function DivNat(x: nat, d: nat): nat
    requires d > 0
  {
    x / d
  }

  /** The output divider and the output frequency the code computes for a pair. */
  function Dout(fin: nat, fout: nat, m: nat, d: nat): (r: nat)
    requires fout > 0 && d > 0
    ensures 1 <= r <= 128
  {
    Clamp(DivRoundClosest(Fvco(fin, m, d), fout), 1, 128)
  }

  function Freq(fin: nat, fout: nat, m: nat, d: nat): (f: nat)
    requires fout > 0 && d > 0
  {
    DivNat(Fvco(fin, m, d), Dout(fin, fout, m, d))
  }

  /** Every visited pair respects the limits of the phase detector and of the oscillator. */
  lemma ScannedLegal(fin: nat, m: nat, d: nat)
    requires fin > 0 && Scanned(fin, m, d)
    ensures 1 <= m <= 64 && 1 <= d <= 80
    ensures FPFD_MIN * d <= fin <= FPFD_MAX * d
    ensures FVCO_MIN * d <= fin * m <= FVCO_MAX * d
  {
  }

  /** So the output frequency is at most the oscillator limit. */
  lemma FreqBound(fin: nat, fout: nat, m: nat, d: nat)
    requires fin > 0 && fout > 0 && Scanned(fin, m, d)
    ensures d > 0 && Freq(fin, fout, m, d) <= FVCO_MAX
  {
    hide DivNat, Dout, Scanned;
    ScannedLegal(fin, m, d);
    DivAtMost(fin * m, d, FVCO_MAX);
    DivShrinks(Fvco(fin, m, d), Dout(fin, fout, m, d));
  }

  lemma DivAtMost(x: nat, d: nat, k: nat)
    requires d > 0 && x <= k * d
    ensures DivNat(x, d) <= k
  {
  }

  lemma DivShrinks(x: nat, d: nat)
    requires d > 0
    ensures DivNat(x, d) <= x
  {
    MulGe(d, x);
    DivAtMost(x, d, x);
  }

  // ----- The result of the search -----

  datatype Params = Params(d: nat, m: nat, dout: nat)

  const NOTHING: Params := Params(0, 0, 0)

  /** The loops reach (m, d) before (m', d'). */
  predicate Earlier(m: nat, d: nat, m': nat, d': nat) {
    m < m' || (m == m' && d < d')
  }

  ghost predicate Reaches(fin: nat, fout: nat, m: nat, d: nat)
    requires fin > 0 && fout > 0
  {
    Scanned(fin, m, d) && d > 0 && Freq(fin, fout, m, d) >= fout
  }

  /**
    `p` is best among the pairs visited before (m, d): none at all when none of them reaches
    fout, and else the earliest of those with the least frequency not below fout.
   */
  ghost predicate BestBefore(fin: nat, fout: nat, m: nat, d: nat, p: Params)
    requires fin > 0 && fout > 0
  {
    if p == NOTHING then forall m', d' :: Reaches(fin, fout, m', d') ==> !Earlier(m', d', m, d)
    else
      && Reaches(fin, fout, p.m, p.d) && p.dout == Dout(fin, fout, p.m, p.d)
      && (forall m', d' :: Reaches(fin, fout, m', d') && Earlier(m', d', m, d) ==>
           && Freq(fin, fout, p.m, p.d) <= Freq(fin, fout, m', d')
           && (Earlier(m', d', p.m, p.d) ==> Freq(fin, fout, p.m, p.d) < Freq(fin, fout, m', d')))
  }

  /** What clkgen_calc_params promises about its whole scan. */
  ghost predicate IsBest(fin: nat, fout: nat, p: Params)
    requires fin > 0 && fout > 0
  {
    if p == NOTHING then forall m, d :: !Reaches(fin, fout, m, d)
    else
      && Reaches(fin, fout, p.m, p.d) && p.dout == Dout(fin, fout, p.m, p.d)
      && (forall m, d :: Reaches(fin, fout, m, d) ==>
           && Freq(fin, fout, p.m, p.d) <= Freq(fin, fout, m, d)
           && (Earlier(m, d, p.m, p.d) ==> Freq(fin, fout, p.m, p.d) < Freq(fin, fout, m, d)))
  }

  /** The distance test on unsigned numbers: a frequency below fout never wins. */
  predicate Wins(f: nat, bestF: nat, fout: nat) {
    Wrap32(f - fout) < Wrap32(bestF - fout)
  }

  lemma WinsExactly(f: nat, bestF: nat, fout: nat)
    requires f <= 0x7fff_ffff && fout <= bestF <= 0x7fff_ffff && fout <= 4294967
    ensures Wins(f, bestF, fout) <==> fout <= f < bestF
  {
  }

  lemma NextPair(fin: nat, fout: nat, m: nat, d: nat, p: Params, p': Params)
    requires fin > 0 && fout > 0 && BestBefore(fin, fout, m, d, p)
    requires Scanned(fin, m, d) && d > 0
    requires var f := Freq(fin, fout, m, d);
             if fout <= f && (p == NOTHING || (p.d > 0 && f < Freq(fin, fout, p.m, p.d)))
             then p' == Params(d, m, Dout(fin, fout, m, d)) else p' == p
    requires p != NOTHING ==> Earlier(p.m, p.d, m, d)
    ensures BestBefore(fin, fout, m, d + 1, p')
    ensures p' != NOTHING ==> Earlier(p'.m, p'.d, m, d + 1)
  {
    hide Scanned, Freq, Dout;
  }

  lemma EarlierStart(fin: nat, fout: nat)
    requires fin > 0 && fout > 0
    ensures BestBefore(fin, fout, MMin(fin), 0, NOTHING)
  {
  }

  /** A row is finished: nothing is scanned between its last divider and the next row. */
  lemma NextRow(fin: nat, fout: nat, m: nat, d: nat, p: Params, low: nat)
    requires fin > 0 && fout > 0 && BestBefore(fin, fout, m, d, p)
    requires d > DHigh(fin, m) && low <= DLow(fin, m + 1)
    ensures BestBefore(fin, fout, m + 1, low, p)
  {
    hide Freq, Dout, DLow, DHigh, MMin, MMax;
    assert forall m', d' :: Reaches(fin, fout, m', d') && Earlier(m', d', m + 1, low) ==> Earlier(m', d', m, d);
  }

  lemma LastRow(fin: nat, fout: nat, m: nat, p: Params)
    requires fin > 0 && fout > 0 && BestBefore(fin, fout, m, 0, p) && m > MMax(fin)
    ensures IsBest(fin, fout, p)
  {
    hide Freq, Dout, DLow, DHigh, MMin, MMax;
    assert forall m', d' :: Reaches(fin, fout, m', d') ==> Earlier(m', d', m, 0);
  }

  /** An exact hit ends the search early, and rightly. */
  lemma ExactHit(fin: nat, fout: nat, m: nat, d: nat, p: Params)
    requires fin > 0 && fout > 0 && BestBefore(fin, fout, m, d + 1, p)
    requires d > 0 && p == Params(d, m, Dout(fin, fout, m, d)) && Freq(fin, fout, m, d) == fout
    ensures IsBest(fin, fout, p)
  {
    hide Freq, Dout, Scanned;
  }

  /**
    clkgen_calc_params.  The C code divides by both rates in kHz, so it asks for at least
    one kHz of each.
   */
  method CalcParams(finHz: nat, foutHz: nat) returns (best: Params)
    requires 1000 <= finHz < U32 && 1000 <= foutHz < U32
    ensures IsBest(finHz / 1000, foutHz / 1000, best)
    ensures best != NOTHING ==>
              var fin, fout := finHz / 1000, foutHz / 1000;
              && 1 <= best.m <= 64 && 1 <= best.d <= 80 && 1 <= best.dout <= 128
              && FPFD_MIN * best.d <= fin <= FPFD_MAX * best.d
              && FVCO_MIN * best.d <= fin * best.m <= FVCO_MAX * best.d
              && Freq(fin, fout, best.m, best.d) >= fout
  {
    hide Freq, Dout, DLow, DHigh, MMin, MMax, Wins, BestBefore, IsBest;
    var fin, fout := finHz / 1000, foutHz / 1000;
    var bestF := 0x7fff_ffff;
    best := NOTHING;
    var m := MMin(fin);
    EarlierStart(fin, fout);
    while m <= MMax(fin)
      invariant BestBefore(fin, fout, m, 0, best) && BestSoFar(fin, fout, m, 0, best, bestF)
      decreases MMax(fin) - m
    {
      var d := DLow(fin, m);
      SkipToLow(fin, fout, m, d, best, bestF);
      while d <= DHigh(fin, m)
        invariant d >= DLow(fin, m)
        invariant BestBefore(fin, fout, m, d, best) && BestSoFar(fin, fout, m, d, best, bestF)
        decreases DHigh(fin, m) + 1 - d
      {
        FreqBound(fin, fout, m, d);
        var dout := Dout(fin, fout, m, d);
        var f := Freq(fin, fout, m, d);
        WinsExactly(f, bestF, fout);
        if Wins(f, bestF, fout) {
          NextPair(fin, fout, m, d, best, Params(d, m, dout));
          bestF := f;
          best := Params(d, m, dout);
          if bestF == fout {
            ExactHit(fin, fout, m, d, best);
            BestLegal(fin, fout, best);
            return;
          }
        } else {
          NextPair(fin, fout, m, d, best, best);
        }
        d := d + 1;
      }
      NextRow(fin, fout, m, d, best, 0);
      m := m + 1;
    }
    LastRow(fin, fout, m, best);
    BestLegal(fin, fout, best);
  }

  /** best_f belongs to the best pair, which lies behind the scan. */
  ghost predicate BestSoFar(fin: nat, fout: nat, m: nat, d: nat, p: Params, bestF: nat)
    requires fout > 0
  {
    if p == NOTHING then bestF == 0x7fff_ffff
    else p.d > 0 && bestF == Freq(fin, fout, p.m, p.d) && fout <= bestF <= FVCO_MAX && Earlier(p.m, p.d, m, d)
  }

  lemma SkipToLow(fin: nat, fout: nat, m: nat, d: nat, p: Params, bestF: nat)
    requires fin > 0 && fout > 0 && d == DLow(fin, m)
    requires BestBefore(fin, fout, m, 0, p) && BestSoFar(fin, fout, m, 0, p, bestF)
    ensures BestBefore(fin, fout, m, d, p) && BestSoFar(fin, fout, m, d, p, bestF)
  {
    hide Freq, Dout, DLow, DHigh, MMin, MMax;
    assert forall m', d' :: Reaches(fin, fout, m', d') && Earlier(m', d', m, d) ==> Earlier(m', d', m, 0);
  }

  lemma BestLegal(fin: nat, fout: nat, p: Params)
    requires fin > 0 && fout > 0 && IsBest(fin, fout, p)
    ensures p != NOTHING ==>
              && 1 <= p.m <= 64 && 1 <= p.d <= 80 && 1 <= p.dout <= 128
              && FPFD_MIN * p.d <= fin <= FPFD_MAX * p.d
              && FVCO_MIN * p.d <= fin * p.m <= FVCO_MAX * p.d
              && Freq(fin, fout, p.m, p.d) >= fout
  {
    hide Freq, Dout, DLow, DHigh, MMin, MMax;
    if p != NOTHING {
      ScannedLegal(fin, p.m, p.d);
    }
  }

  function Distance(f: nat, fout: nat): nat {
    if f < fout then fout - f else f - fout
  }

  /** No visited pair comes closer to fout. */
  ghost predicate IsNearest(fin: nat, fout: nat, p: Params)
    requires fin > 0 && fout > 0 && p.d > 0
  {
    forall m, d :: Scanned(fin, m, d) && d > 0 ==>
      Distance(Freq(fin, fout, p.m, p.d), fout) <= Distance(Freq(fin, fout, m, d), fout)
  }

  /** Every visited pair below fout has one at most as far above it. */
  ghost predicate MatchedAbove(fin: nat, fout: nat)
    requires fin > 0 && fout > 0
  {
    forall m, d :: Scanned(fin, m, d) && d > 0 && Freq(fin, fout, m, d) < fout ==>
      exists m', d' :: Reaches(fin, fout, m', d') && Freq(fin, fout, m', d') - fout <= fout - Freq(fin, fout, m, d)
  }

  /** The chosen pair is nearest exactly when nothing below fout is nearer than everything above. */
  lemma NearestIff(fin: nat, fout: nat, p: Params)
    requires fin > 0 && fout > 0 && IsBest(fin, fout, p) && p != NOTHING
    ensures p.d > 0 && (IsNearest(fin, fout, p) <==> MatchedAbove(fin, fout))
  {
    hide Scanned, Freq;
    assert Reaches(fin, fout, p.m, p.d);
  }

  /** Zeros are returned exactly when every visited pair, if there is any, stays below fout. */
  lemma NothingIff(fin: nat, fout: nat, p: Params)
    requires fin > 0 && fout > 0 && IsBest(fin, fout, p)
    ensures p == NOTHING <==> forall m, d :: Scanned(fin, m, d) && d > 0 ==> Freq(fin, fout, m, d) < fout
  {
    hide Scanned, Freq;
    assert forall m, d :: Scanned(fin, m, d) && d > 0 && Freq(fin, fout, m, d) >= fout ==> Reaches(fin, fout, m, d);
    assert p != NOTHING ==> Reaches(fin, fout, p.m, p.d);
  }

  // ----- 10 MHz in: five pairs -----

  lemma PairsAt10MHz(m: nat, d: nat)
    ensures Scanned(10000, m, d) <==> d == 1 && 60 <= m <= 64
  {
  }

  lemma FreqAt10MHz(fout: nat, m: nat)
    requires fout > 0 && 60 <= m <= 64
    ensures fout >= 600000 ==> Freq(10000, fout, m, 1) == 10000 * m && Dout(10000, fout, m, 1) == 1
    ensures fout == 4700 ==> Freq(10000, fout, m, 1) == 10000 * m / 128 && Dout(10000, fout, m, 1) == 128
  {
    hide DivRoundClosest, DivNat;
    var v := 10000 * m;
    DivByOne(v);
    DivByOne(10000 * m);
    if fout >= 600000 {
      RoundsToOne(v, fout);
    }
    RoundsAt128(v);
    DivBy128(v);
  }

  lemma DivByOne(x: nat)
    ensures DivNat(x, 1) == x
  {
  }

  lemma DivBy128(x: nat)
    ensures DivNat(x, 128) == x / 128
  {
  }

  lemma RoundsToOne(x: nat, y: nat)
    requires y >= 600000 && x <= 640000
    ensures DivRoundClosest(x, y) <= 1
  {
    var q := if 2 * x >= y then 1 else 0;
    DivModUnique(2 * x + y, 2 * y, q, 2 * x + y - q * (2 * y));
  }

  lemma RoundsAt128(x: nat)
    requires 600000 <= x <= 640000
    ensures DivRoundClosest(x, 4700) >= 128
  {
  }

  /** 700 MHz out gives zeros, although 640 MHz is visited. */
  lemma NothingThoughVisited(p: Params)
    requires IsBest(10000, 700000, p)
    ensures p == NOTHING
    ensures Scanned(10000, 64, 1) && Freq(10000, 700000, 64, 1) == 640000
  {
    hide Scanned, Freq, IsBest;
    forall m, d | Scanned(10000, m, d) && d > 0
      ensures Freq(10000, 700000, m, d) < 700000
    {
      PairsAt10MHz(m, d);
      FreqAt10MHz(700000, m);
    }
    NothingIff(10000, 700000, p);
    PairsAt10MHz(64, 1);
    FreqAt10MHz(700000, 64);
  }

  /**
    The distance is taken on unsigned numbers, so the nearest frequency can be passed over: at
    631 MHz out the pair (63, 1) gives 630 MHz, but 640 MHz is chosen.
   */
  lemma NearestPassedOver(p: Params)
    requires IsBest(10000, 631000, p)
    ensures Scanned(10000, 63, 1) && Freq(10000, 631000, 63, 1) == 630000
    ensures p == Params(1, 64, 1) && Freq(10000, 631000, p.m, p.d) == 640000
  {
    hide Scanned, Freq, Dout;
    PairsAt10MHz(63, 1);
    PairsAt10MHz(64, 1);
    PairsAt10MHz(p.m, p.d);
    FreqAt10MHz(631000, 63);
    FreqAt10MHz(631000, 64);
    assert Reaches(10000, 631000, 64, 1);
    FreqAt10MHz(631000, p.m);
  }

  /** 4.7 MHz out needs the output divider 128. */
  lemma LargestDivider(p: Params)
    requires IsBest(10000, 4700, p)
    ensures p == Params(1, 61, 128)
  {
    hide Scanned, Freq, Dout;
    PairsAt10MHz(61, 1);
    PairsAt10MHz(p.m, p.d);
    FreqAt10MHz(4700, 61);
    assert Reaches(10000, 4700, 61, 1);
    FreqAt10MHz(4700, p.m);
  }

  /** The search itself, at 10 MHz in and 631 MHz out. */
  method PassesOver() returns (p: Params)
    ensures p == Params(1, 64, 1)
  {
    hide IsBest;
    p := CalcParams(10_000_000, 631_000_000);
    NearestPassedOver(p);
  }
}
