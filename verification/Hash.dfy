/** Multiplicative hashing of 32-bit values. */
module Hash {
  import opened Arith
  import opened Bytes

  const GOLDEN_RATIO_PRIME_32: nat := 0x9e370001

  /** The inverse of the multiplier modulo 2^32. */
  const INVERSE: nat := 0x61c90001

  function Times(val: nat): (r: nat)
    ensures r < W32
  {
    val * GOLDEN_RATIO_PRIME_32 % W32
  }

  function Hash32(val: nat, bits: nat): nat
    requires 1 <= bits <= 32
  {
    hide Pow2, Times;
    Times(val) / Pow2(32 - bits)
  }

  function Back(x: nat): (r: nat)
    ensures r < W32
  {
    x * INVERSE % W32
  }

  lemma ModMulMod(a: int, b: int, m: int, q: int)
    requires m > 0
    ensures (a - m * q) * b == a * b + m * (-(q * b))
  {}

  /** Multiplying by the constant and then by its inverse, in 32-bit arithmetic, changes nothing. */
  lemma BackOfTimes(v: nat)
    requires v < W32
    ensures Back(Times(v)) == v
  {
    var g, c := GOLDEN_RATIO_PRIME_32, (GOLDEN_RATIO_PRIME_32 * INVERSE - 1) / W32;
    var q := v * g / W32;
    assert v * g * INVERSE == v + W32 * (v * c);
    ModMulMod(v * g, INVERSE, W32, q);
    DivUnique(Times(v) * INVERSE, W32, v * c - q * INVERSE, v);
  }

  lemma TimesOfBack(x: nat)
    requires x < W32
    ensures Times(Back(x)) == x
  {
    var g, c := GOLDEN_RATIO_PRIME_32, (GOLDEN_RATIO_PRIME_32 * INVERSE - 1) / W32;
    var q := x * INVERSE / W32;
    assert x * INVERSE * g == x + W32 * (x * c);
    ModMulMod(x * INVERSE, g, W32, q);
    DivUnique(Back(x) * g, W32, x * c - q * g, x);
  }

  /** The 32-bit values whose product lies in lo .. lo + n. */
  function Between(lo: nat, n: nat): set<nat> {
    set v: nat | v < W32 && lo <= Times(v) < lo + n
  }

  lemma {:induction false} BetweenSize(lo: nat, n: nat)
    requires lo + n <= W32
    ensures |Between(lo, n)| == n
  {
    hide Times, Back;
    if n == 0 {
      assert Between(lo, 0) == {};
    } else {
      BetweenSize(lo, n - 1);
      var x := Back(lo + n - 1);
      TimesOfBack(lo + n - 1);
      forall v | v in Between(lo, n)
        ensures v == x || v in Between(lo, n - 1)
      {
        BackOfTimes(v);
      }
      assert Between(lo, n) == Between(lo, n - 1) + {x};
      assert x !in Between(lo, n - 1);
    }
  }

  function Preimages(h: nat, bits: nat): set<nat>
    requires 1 <= bits <= 32
  {
    set v: nat | v < W32 && Hash32(v, bits) == h
  }

  /** The hash is the upper bits of the product with 0x9e370001 in 32-bit arithmetic. */
  lemma HashIs(v: nat, bits: nat)
    requires 1 <= bits <= 32
    ensures Hash32(v, 32) == v * 0x9e370001 % 0x1_0000_0000
    ensures Hash32(v, bits) == Hash32(v, 32) / Pow2(32 - bits)
  {
    hide Pow2;
    assert Pow2(0) == 1 by { Pow2Zero(); }
  }

  lemma Pow2Zero()
    ensures Pow2(0) == 1
  {}

  /** Every hash value of bits bits has exactly 2^(32 - bits) preimages among the 32-bit values, and no other value
      has any. */
  lemma HashBalanced(h: nat, bits: nat)
    requires 1 <= bits <= 32
    ensures |Preimages(h, bits)| == if h < Pow2(bits) then Pow2(32 - bits) else 0
  {
    hide Times, Pow2;
    var p := Pow2(32 - bits);
    Pow2Add(bits, 32 - bits);
    Pow2Of32();
    forall v: nat
      ensures Hash32(v, bits) == h <==> h * p <= Times(v) < h * p + p
    {
      QuotientRange(Times(v), p, h);
    }
    if h < Pow2(bits) {
      assert (h + 1) * p <= Pow2(bits) * p;
      assert Preimages(h, bits) == Between(h * p, p);
      BetweenSize(h * p, p);
    } else {
      assert h * p >= Pow2(bits) * p;
      assert Preimages(h, bits) == {};
    }
  }
}
