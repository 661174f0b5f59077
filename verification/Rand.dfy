/** The pseudo-random numbers of rand: the states are those of a 48-bit generator, the results their upper bits. */
module Rand {
  import opened Arith
  import Bytes
  import Lcg

  const RAND_MAX: nat := 2147483647

  /** The result for state s. The macro argument RAND_MAX + 1 is not parenthesised, so that one is added to the
      remainder and not to the divisor. */
  function Draw(s: nat): nat {
    s / 4096 % RAND_MAX + 1
  }

  lemma ModMod(x: int, p: int, m: int)
    requires p > 0 && m > 0
    ensures x % (p * m) % p == x % p
  {
    var y := x % (p * m);
    var q := x / (p * m);
    assert x == p * (m * q + y / p) + y % p by {
      assert p * m * q == p * (m * q);
    }
    DivUnique(x, p, m * q + y / p, y % p);
  }

  lemma Pow2Of48()
    ensures Pow2(48) == 0x1_0000_0000_0000
  {
    Pow2Of32();
    assert Pow2(8) == 0x100;
    assert Pow2(16) == 0x1_0000;
    Pow2Add(32, 16);
  }

  /** The n-th result from seed x. */
  function Result(n: nat, x: nat): nat {
    Draw(Lcg.State(48, n, x))
  }

  class Generator {
    var next: nat
    ghost var seed: nat
    ghost var drawn: nat

    ghost predicate Valid()
      reads this
    {
      next < Bytes.W64 && seed < Bytes.W64 && next == Lcg.State(48, drawn, seed)
    }

    constructor ()
      ensures Valid() && next == 1 && seed == 1 && drawn == 0
    {
      next, seed, drawn := 1, 1, 0;
    }

    /** The next state is that of the 48-bit generator, whatever 64-bit value the state had. */
    method Rand() returns (r: nat)
      requires Valid()
      modifies this
      ensures Valid() && seed == old(seed) && drawn == old(drawn) + 1
      ensures r == Result(drawn, seed) && 1 <= r <= 2147483647
      ensures next == (0x5DEECE66D * old(next) + 0xB) % 0x1_0000_0000_0000 && r == next / 0x1000 % 2147483647 + 1
    {
      hide Pow2;
      Pow2Of48();
      ModMod(Lcg.A * next + Lcg.C, 0x1_0000_0000_0000, 0x1_0000);
      next := (next * Lcg.A + Lcg.C) % Bytes.W64 % 0x1_0000_0000_0000;
      drawn := drawn + 1;
      var result := next / 4096;
      r := result % RAND_MAX + 1;
    }

    method Srand(s: nat)
      requires s < Bytes.W32
      modifies this
      ensures Valid() && next == s && seed == s && drawn == 0
    {
      next, seed, drawn := s, s, 0;
    }
  }

  // ---- how often each result occurs ----

  ghost function Interval(lo: nat, n: nat): (s: set<nat>)
    ensures |s| == n && forall i: nat :: i in s <==> lo <= i < lo + n
  {
    if n == 0 then {} else Interval(lo, n - 1) + {lo + n - 1}
  }

  function Row(s: nat): nat {
    s / 4096 / RAND_MAX
  }

  ghost function Block(v: nat, j: nat): set<nat>
    requires v >= 1
  {
    Interval((j * RAND_MAX + v - 1) * 4096, 4096)
  }

  /** The states that give v are those of the blocks of 4096 states that start at (j * RAND_MAX + v - 1) * 4096. */
  lemma BlockIs(s: nat, v: nat, j: nat)
    requires 1 <= v <= RAND_MAX
    ensures s in Block(v, j) <==> Draw(s) == v && Row(s) == j
  {
    QuotientRange(s, 4096, j * RAND_MAX + v - 1);
    if s in Block(v, j) {
      DivUnique(s / 4096, RAND_MAX, j, v - 1);
    }
  }

  ghost function Blocks(v: nat, n: nat): (s: set<nat>)
    requires v >= 1
  {
    if n == 0 then {} else Blocks(v, n - 1) + Block(v, n - 1)
  }

  lemma {:induction false} BlocksAre(v: nat, n: nat)
    requires 1 <= v <= RAND_MAX
    ensures |Blocks(v, n)| == 4096 * n
    ensures forall s: nat :: s in Blocks(v, n) <==> Draw(s) == v && Row(s) < n
  {
    hide Draw, Row, Block;
    if n > 0 {
      BlocksAre(v, n - 1);
      BlockSize(v, n - 1);
      forall s: nat
        ensures s in Block(v, n - 1) <==> Draw(s) == v && Row(s) == n - 1
      {
        BlockIs(s, v, n - 1);
      }
      assert Blocks(v, n - 1) !! Block(v, n - 1);
    }
  }

  lemma BlockSize(v: nat, j: nat)
    requires v >= 1
    ensures |Block(v, j)| == 4096
  {}

  /** How many of the 2^48 states give v: 2^36 = 32 * RAND_MAX + 32. */
  function Frequency(v: nat): nat {
    if 1 <= v <= 32 then 33 * 4096 else if 32 < v <= RAND_MAX then 32 * 4096 else 0
  }

  lemma DrawRow(s: nat)
    ensures s < 0x1_0000_0000_0000 <==> Row(s) < (if Draw(s) <= 32 then 33 else 32)
    ensures 1 <= Draw(s) <= RAND_MAX
  {}

  ghost function States(v: nat): (r: set<nat>)
    ensures |r| == Frequency(v)
    ensures forall s: nat :: s in r <==> s < 0x1_0000_0000_0000 && Draw(s) == v
  {
    hide Draw, Row;
    if v < 1 || v > RAND_MAX then
      assert forall s: nat :: Draw(s) != v by {
        forall s: nat ensures Draw(s) != v { DrawRow(s); }
      }
      {}
    else
      var n := if v <= 32 then 33 else 32;
      BlocksAre(v, n);
      assert forall s: nat | Draw(s) == v :: s < 0x1_0000_0000_0000 <==> Row(s) < n by {
        forall s: nat | Draw(s) == v ensures s < 0x1_0000_0000_0000 <==> Row(s) < n { DrawRow(s); }
      }
      Blocks(v, n)
  }

  // ---- over a run ----

  /** The steps before the m-th at which the 48-bit generator started in state y gives v. */
  ghost function Hits(y: nat, v: nat, m: nat): set<nat> {
    set i: nat | i < m && Draw(Lcg.State(48, i, y)) == v
  }

  ghost predicate Maps(s: set<nat>, t: set<nat>, f: nat -> nat) {
    && (forall i <- s :: f(i) in t)
    && (forall u <- t :: exists i <- s :: f(i) == u)
    && (forall i <- s, j <- s :: f(i) == f(j) ==> i == j)
  }

  /** A bijection keeps the size. */
  lemma {:induction false} SameSize(s: set<nat>, t: set<nat>, f: nat -> nat)
    requires Maps(s, t, f)
    ensures |s| == |t|
    decreases |s|
  {
    if s == {} {
      assert t == {};
    } else {
      var i :| i in s;
      assert Maps(s - {i}, t - {f(i)}, f);
      SameSize(s - {i}, t - {f(i)}, f);
    }
  }

  lemma {:induction false} StateAdd(k: nat, m: nat, n: nat, x: nat)
    ensures Lcg.State(k, m + n, x) == Lcg.State(k, n, Lcg.State(k, m, x))
  {
    hide Pow2, Lcg.Next;
    if n > 0 {
      StateAdd(k, m, n - 1, x);
    }
  }

  lemma HitsSize(y: nat, v: nat)
    requires y < 0x1_0000_0000_0000
    ensures |Hits(y, v, 0x1_0000_0000_0000)| == Frequency(v)
  {
    hide Pow2, Lcg.State, Draw;
    Pow2Of48();
    var h := Hits(y, v, 0x1_0000_0000_0000);
    var f := (n: nat) => Lcg.State(48, n, y);
    forall i | i in h
      ensures f(i) in States(v)
    {
      Lcg.StateRange(48, i, y);
    }
    forall i, j | i in h && j in h && f(i) == f(j)
      ensures i == j
    {
      var n := Lcg.FullPeriod(48, y, f(i));
    }
    forall u | u in States(v)
      ensures exists i <- h :: f(i) == u
    {
      var n := Lcg.FullPeriod(48, y, u);
      assert n in h && f(n) == u;
    }
    SameSize(h, States(v), f);
  }

  /** The result i steps after the m-th. */
  function Later(m: nat, i: nat, x: nat): nat {
    Result(m + i, x)
  }

  /** The 2^48 results from the m-th on that are v. */
  ghost function Occurrences(m: nat, x: nat, v: nat): set<nat> {
    set i: nat | i < 0x1_0000_0000_0000 && Later(m, i, x) == v
  }

  /** Among any 2^48 consecutive results, from any seed, every value occurs exactly as often as Frequency says: each
      of 1 .. RAND_MAX does occur, and those up to 32 occur 4096 times more than the others. */
  lemma ResultFrequency(m: nat, x: nat, v: nat)
    requires m > 0
    ensures |Occurrences(m, x, v)| == Frequency(v)
  {
    hide Pow2, Lcg.State, Draw, Frequency;
    Pow2Of48();
    var y := Lcg.State(48, m, x);
    LastRange(m, x);
    HitsSize(y, v);
    forall i: nat
      ensures Later(m, i, x) == Draw(Lcg.State(48, i, y))
    {
      StateAdd(48, m, i, x);
    }
    assert Occurrences(m, x, v) == Hits(y, v, 0x1_0000_0000_0000);
  }

  lemma LastRange(m: nat, x: nat)
    requires m > 0
    ensures Lcg.State(48, m, x) < Pow2(48)
  {
    hide Pow2;
  }
}
