/** Numbers as decimal text. */
module DecimalText {
  import opened Machine

  /** The digits of n, in ASCII, without leading zeros. */
  function Decimal(n: nat): (d: seq<Byte>)
    ensures |d| >= 1
    ensures forall i :: 0 <= i < |d| ==> 48 <= d[i] <= 57
  {
    if n < 10 then [48 + n] else Decimal(n / 10) + [48 + n % 10]
  }

  function Pow10(k: nat): nat {
    if k == 0 then 1 else 10 * Pow10(k - 1)
  }

  /** A number has at most k digits exactly when it is below 10^k. */
  lemma {:induction false} DecimalLength(n: nat, k: nat)
    requires k >= 1
    ensures |Decimal(n)| <= k <==> n < Pow10(k)
    decreases k
  {
    assert Pow10(k) >= 10 by { Pow10AtLeast(k); }
    if n >= 10 && k > 1 {
      DecimalLength(n / 10, k - 1);
    }
  }

  lemma {:induction false} Pow10AtLeast(k: nat)
    requires k >= 1
    ensures Pow10(k) >= 10
  {
    if k > 1 {
      Pow10AtLeast(k - 1);
    }
  }

  lemma DecimalShort(n: nat)
    requires n < U32
    ensures |Decimal(n)| <= 10
  {
    assert Pow10(10) == 10000000000;
    DecimalLength(n, 10);
  }

  predicate IsDigit(b: Byte) {
    48 <= b <= 57
  }

  /** Reads digits onto a value until something else, or the end, comes. */
  function ReadDigits(t: seq<Byte>, acc: nat): (nat, seq<Byte>)
    decreases |t|
  {
    if t == [] || !IsDigit(t[0]) then (acc, t) else ReadDigits(t[1..], acc * 10 + (t[0] - 48))
  }

  /** Reading the digits of n gives n and leaves what follows them. */
  lemma {:induction false} ReadDecimal(n: nat, rest: seq<Byte>)
    ensures ReadDigits(Decimal(n) + rest, 0) == ReadDigits(rest, n)
    decreases n
  {
    if n < 10 {
      assert (Decimal(n) + rest)[1..] == rest;
    } else {
      var d: Byte := 48 + n % 10;
      assert Decimal(n) + rest == Decimal(n / 10) + ([d] + rest);
      ReadDecimal(n / 10, [d] + rest);
      assert ([d] + rest)[1..] == rest;
    }
  }
}
