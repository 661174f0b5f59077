/** Powers of two, division and multiplication. */
module Arith {
  function Pow2(k: nat): (r: nat)
    ensures r > 0
  {
    if k == 0 then 1 else 2 * Pow2(k - 1)
  }

  lemma MulStep(p: int, d: int)
    requires p > 0
    ensures d >= 1 ==> p * d >= p
    ensures d <= -1 ==> p * d <= -p
  {}

  lemma DivUnique(x: int, p: int, q: int, r: int)
    requires p > 0 && 0 <= r < p && x == p * q + r
    ensures x / p == q && x % p == r
  {
    var d := x / p - q;
    assert p * d == r - x % p;
    MulStep(p, d);
  }

  lemma QuotientRange(x: nat, p: nat, q: nat)
    requires p > 0
    ensures x / p == q <==> q * p <= x < q * p + p
  {
    if q * p <= x < q * p + p {
      DivUnique(x, p, q, x - q * p);
    }
  }

  lemma {:induction false} Pow2Add(a: nat, b: nat)
    ensures Pow2(a + b) == Pow2(a) * Pow2(b)
  {
    if a > 0 {
      Pow2Add(a - 1, b);
    }
  }

  lemma Pow2Of32()
    ensures Pow2(32) == 0x1_0000_0000
  {
    assert Pow2(8) == 0x100;
    assert Pow2(16) == 0x1_0000;
    assert Pow2(24) == 0x100_0000;
  }

  /** The floor of the binary logarithm. */
  function Log2(n: nat): nat
    requires n > 0
  {
    if n == 1 then 0 else 1 + Log2(n / 2)
  }

  /** Log2 is the exponent of the largest power of two up to n. */
  lemma {:induction false} Log2Bounds(n: nat)
    requires n > 0
    ensures Pow2(Log2(n)) <= n < Pow2(Log2(n) + 1)
  {
    if n > 1 {
      Log2Bounds(n / 2);
    }
  }

  lemma {:induction false} Pow2Mono(j: nat, k: nat)
    requires j <= k
    ensures Pow2(j) <= Pow2(k)
  {
    if j < k {
      Pow2Mono(j, k - 1);
    }
  }

  lemma Log2Of(k: nat, n: nat)
    requires Pow2(k) <= n
    ensures k <= Log2(n)
  {
    hide Pow2, Log2;
    Log2Bounds(n);
    if k > Log2(n) {
      Pow2Mono(Log2(n) + 1, k);
    }
  }

  lemma Log2Mono(m: nat, n: nat)
    requires 0 < m <= n
    ensures Log2(m) <= Log2(n)
  {
    hide Pow2, Log2;
    Log2Bounds(m);
    Log2Of(Log2(m), n);
  }
}
