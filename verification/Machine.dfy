/**
  Machine-level basics shared by the models: bytes, 32-bit unsigned wrap-around,
  and the division facts the modular indices rest on.
 */
module Machine {

  /** One unsigned byte (uint8_t). */
  type Byte = x: int | 0 <= x < 256

  /** 2^32, the modulus of uint32_t arithmetic. */
  const U32: int := 0x1_0000_0000

  datatype Option<+T> = None | Some(value: T)

  /** The value a uint32_t keeps of a mathematical integer. */
  function Wrap32(x: int): (r: nat)
    ensures r < U32
    ensures 0 <= x < U32 ==> r == x
  {
    x % 0x1_0000_0000
  }

  function Min(a: nat, b: nat): nat {
    if a <= b then a else b
  }

  /** Division with remainder is unique. */
  lemma DivModUnique(n: int, d: nat, q: int, r: int)
    requires d > 0 && 0 <= r < d && n == q * d + r
    ensures n / d == q && n % d == r
  {
    var q', r' := n / d, n % d;
    assert n == q' * d + r';
    assert (q' - q) * d == r - r';
    if q' > q {
      MulGe(q' - q, d);
    } else if q' < q {
      MulGe(q - q', d);
    }
  }

  lemma MulGe(k: int, d: nat)
    requires k >= 1
    ensures k * d >= d
  {
  }

  lemma DivModSplit(n: nat, d: nat)
    requires d > 0
    ensures n == (n / d) * d + n % d && 0 <= n % d < d
  {
  }

  /** Advancing a position by at most the rest of its lap. */
  lemma Advance(n: nat, d: nat, a: nat)
    requires d > 0 && n % d + a <= d
    ensures n % d + a < d ==> (n + a) % d == n % d + a && (n + a) / d == n / d
    ensures n % d + a == d ==> (n + a) % d == 0 && (n + a) / d == n / d + 1
  {
    var q, r := n / d, n % d;
    assert n == q * d + r;
    if r + a < d {
      DivModUnique(n + a, d, q, r + a);
    } else {
      assert (q + 1) * d == q * d + d;
      DivModUnique(n + a, d, q + 1, 0);
    }
  }

  /** Stepping a position back by at most one lap. */
  lemma Back(n: nat, d: nat, k: nat)
    requires d > 0 && k <= d && k <= n
    ensures k <= n % d ==> (n - k) % d == n % d - k && (n - k) / d == n / d
    ensures k > n % d ==> n / d >= 1 && (n - k) % d == n % d + d - k && (n - k) / d == n / d - 1
  {
    var q, r := n / d, n % d;
    assert n == q * d + r;
    assert q == 0 ==> n == r;
    if k <= r {
      DivModUnique(n - k, d, q, r - k);
    } else {
      assert (q - 1) * d == q * d - d;
      DivModUnique(n - k, d, q - 1, r + d - k);
    }
  }
}
