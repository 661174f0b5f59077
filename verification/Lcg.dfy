/** The linear congruential generator behind rand, for every power-of-two modulus. */
module Lcg {
  import opened Arith

  const A: nat := 0x5DEECE66D
  const C: nat := 0xB

  /** One step modulo 2^k. */
  function Next(k: nat, x: int): (r: nat)
    ensures r < Pow2(k)
  {
    (A * x + C) % Pow2(k)
  }

  /** The state after n steps modulo 2^k. */
  function State(k: nat, n: nat, x: nat): nat {
    if n == 0 then x else Next(k, State(k, n - 1, x))
  }

  /** The sum of the first n powers of A. */
  function Sum(n: nat): nat {
    if n == 0 then 0 else 1 + A * Sum(n - 1)
  }

  lemma SumStep(a: int, s: int, t: int)
    ensures 1 + a * (s + t + (a - 1) * (s * t)) == 1 + a * s + t + (a - 1) * ((1 + a * s) * t)
  {
    assert (1 + a * s) * t == t + a * (s * t);
    assert (a - 1) * (a * (s * t)) == a * ((a - 1) * (s * t));
  }

  lemma {:induction false} SumAdd(m: nat, n: nat)
    ensures Sum(m + n) == Sum(m) + Sum(n) + (A - 1) * (Sum(m) * Sum(n))
  {
    if m > 0 {
      SumAdd(m - 1, n);
      SumStep(A, Sum(m - 1), Sum(n));
    }
  }

  ghost predicate Divides(p: nat, x: int) {
    p > 0 && x % p == 0
  }

  lemma DividesIs(p: nat, x: int, q: int)
    requires p > 0 && x == p * q
    ensures Divides(p, x)
  {
    DivUnique(x, p, q, 0);
  }

  lemma DividesTwice(p: nat, x: int)
    requires p > 0
    ensures Divides(2 * p, 2 * x) <==> Divides(p, x)
  {
    if Divides(p, x) {
      DividesIs(2 * p, 2 * x, x / p);
    }
    if Divides(2 * p, 2 * x) {
      DividesIs(p, x, 2 * x / (2 * p));
    }
  }

  /** An odd factor does not matter to divisibility by a power of two. */
  lemma {:induction false} OddFactor(k: nat, x: int, h: int)
    ensures Divides(Pow2(k), x * (2 * h + 1)) <==> Divides(Pow2(k), x)
  {
    hide Divides;
    var y := x * (2 * h + 1);
    assert y == 2 * (x * h) + x;
    if k == 0 {
      DividesIs(1, x, x);
      DividesIs(1, y, y);
    } else if x % 2 == 0 {
      assert x == 2 * (x / 2);
      assert y == 2 * (x / 2 * (2 * h + 1));
      OddFactor(k - 1, x / 2, h);
      DividesTwice(Pow2(k - 1), x / 2);
      DividesTwice(Pow2(k - 1), x / 2 * (2 * h + 1));
    } else {
      OddDivides(Pow2(k - 1), x);
      OddDivides(Pow2(k - 1), y);
    }
  }

  lemma OddDivides(p: nat, x: int)
    requires p > 0
    ensures Divides(2 * p, x) ==> x % 2 == 0
  {
    if Divides(2 * p, x) {
      assert x == 2 * (p * (x / (2 * p)));
    }
  }

  lemma {:induction false} SumParity(n: nat)
    ensures Sum(n) % 2 == n % 2
  {
    if n > 0 {
      SumParity(n - 1);
      var s := Sum(n - 1);
      assert A * s == 2 * (A / 2 * s) + s;
    }
  }

  lemma SumDouble(m: nat) returns (h: nat)
    ensures Sum(2 * m) == 2 * (Sum(m) * (2 * h + 1))
  {
    hide Sum;
    SumAdd(m, m);
    var s := Sum(m);
    var b := (A - 1) / 4;
    h := b * s;
    assert (4 * b) * (s * s) == 4 * (b * s * s);
    assert s * (2 * h + 1) == 2 * (b * s * s) + s;
  }

  /** Sum(n) is divisible by the same powers of two as n. */
  lemma {:induction false} SumDivides(k: nat, n: nat)
    ensures Divides(Pow2(k), Sum(n)) <==> Divides(Pow2(k), n)
  {
    hide Divides, Sum;
    SumParity(n);
    if k == 0 {
      DividesIs(1, n, n);
      DividesIs(1, Sum(n), Sum(n));
    } else if n % 2 == 1 {
      OddDivides(Pow2(k - 1), n);
      OddDivides(Pow2(k - 1), Sum(n));
    } else {
      var m := n / 2;
      var h := SumDouble(m);
      SumDivides(k - 1, m);
      OddFactor(k - 1, Sum(m), h);
      DividesTwice(Pow2(k - 1), m);
      DividesTwice(Pow2(k - 1), Sum(m) * (2 * h + 1));
    }
  }

  // ---- the state without reduction ----

  function Raw(n: nat, x: nat): nat {
    if n == 0 then x else A * Raw(n - 1, x) + C
  }

  /** One step leads from x to x + 2 * Half(x) + 1. */
  function Half(x: nat): nat {
    (A - 1) / 2 * x + C / 2
  }

  lemma OneStep(x: nat)
    ensures A * x + C == x + 2 * Half(x) + 1
  {}

  lemma RawStep(a: int, x: int, s: int, u: int)
    ensures a * (x + s * u) + u - (a - 1) * x == x + (1 + a * s) * u
  {
    assert (1 + a * s) * u == u + a * (s * u);
  }

  lemma {:induction false} RawIs(n: nat, x: nat)
    ensures Raw(n, x) == x + Sum(n) * (2 * Half(x) + 1)
  {
    hide Half;
    if n > 0 {
      RawIs(n - 1, x);
      OneStep(x);
      RawStep(A, x, Sum(n - 1), 2 * Half(x) + 1);
    }
  }

  lemma {:induction false} RawAdd(m: nat, n: nat, x: nat)
    ensures Raw(m + n, x) == Raw(n, Raw(m, x))
  {
    if n > 0 {
      RawAdd(m, n - 1, x);
    }
  }

  lemma ModStep(p: int, x: int)
    requires p > 0
    ensures (A * x + C) % p == (A * (x % p) + C) % p
  {
    var y, q := A * (x % p) + C, x / p;
    assert x == p * q + x % p;
    assert A * (p * q) == p * (A * q);
    assert A * x + C == p * (y / p + A * q) + y % p;
    DivUnique(A * x + C, p, y / p + A * q, y % p);
  }

  lemma SmallIs(x: nat, p: nat)
    requires x < p
    ensures x % p == x
  {}

  lemma NextRaw(k: nat, n: nat, x: nat)
    requires n > 0
    ensures Next(k, Raw(n - 1, x) % Pow2(k)) == Raw(n, x) % Pow2(k)
  {
    ModStep(Pow2(k), Raw(n - 1, x));
  }

  lemma {:induction false} StateIs(k: nat, n: nat, x: nat)
    requires x < Pow2(k)
    ensures State(k, n, x) == Raw(n, x) % Pow2(k)
  {
    hide Pow2, Next;
    if n == 0 {
      SmallIs(x, Pow2(k));
    } else {
      StateIs(k, n - 1, x);
      NextRaw(k, n, x);
    }
  }

  lemma SameRemainder(p: nat, x: int, y: int)
    requires p > 0
    ensures x % p == y % p <==> Divides(p, y - x)
  {
    if x % p == y % p {
      DividesIs(p, y - x, y / p - x / p);
    }
    if Divides(p, y - x) {
      var q := (y - x) / p;
      assert y == p * (x / p + q) + x % p;
      DivUnique(y, p, x / p + q, x % p);
    }
  }

  /** From any state, the states after i and after j steps agree exactly when j - i is a multiple of 2^k. */
  lemma Period(k: nat, i: nat, j: nat, x: nat)
    requires x < Pow2(k) && i <= j
    ensures State(k, i, x) == State(k, j, x) <==> (j - i) % Pow2(k) == 0
  {
    hide Divides, Raw, Sum, State, Half;
    var p, y := Pow2(k), Raw(i, x);
    StateIs(k, i, x);
    StateIs(k, j, x);
    RawAdd(i, j - i, x);
    RawIs(j - i, y);
    SameRemainder(p, y, Raw(j, x));
    OddFactor(k, Sum(j - i), Half(y));
    SumDivides(k, j - i);
    DividesDef(p, j - i);
  }

  lemma DividesDef(p: nat, x: int)
    requires p > 0
    ensures Divides(p, x) <==> x % p == 0
  {}

  // ---- one cycle through all states ----

  ghost function Visited(k: nat, n: nat, x: nat): set<nat> {
    set i | 0 <= i < n :: State(k, i, x)
  }

  lemma StateRange(k: nat, n: nat, x: nat)
    requires x < Pow2(k)
    ensures State(k, n, x) < Pow2(k)
  {
    StateIs(k, n, x);
  }

  lemma SmallMod(d: nat, p: nat)
    requires 0 < d < p
    ensures d % p != 0
  {}

  lemma {:induction false} VisitedSize(k: nat, n: nat, x: nat)
    requires x < Pow2(k) && n <= Pow2(k)
    ensures |Visited(k, n, x)| == n && forall y <- Visited(k, n, x) :: y < Pow2(k)
  {
    hide State, Pow2;
    if n == 0 {
      assert Visited(k, 0, x) == {};
    } else {
      VisitedSize(k, n - 1, x);
      var s := State(k, n - 1, x);
      StateRange(k, n - 1, x);
      if s in Visited(k, n - 1, x) {
        var i :| 0 <= i < n - 1 && State(k, i, x) == s;
        Period(k, i, n - 1, x);
        SmallMod(n - 1 - i, Pow2(k));
      }
      assert Visited(k, n, x) == Visited(k, n - 1, x) + {s};
    }
  }

  ghost function Below(n: nat): (s: set<nat>)
    ensures |s| == n && forall i: nat :: i in s <==> i < n
  {
    if n == 0 then {} else Below(n - 1) + {n - 1}
  }

  lemma SubsetFull(s: set<nat>, t: set<nat>)
    requires s <= t && |s| == |t|
    ensures s == t
  {
    assert |t - s| == |t| - |s|;
  }

  /** From any state, every state is reached after exactly one number of steps below 2^k. */
  lemma FullPeriod(k: nat, x: nat, y: nat) returns (n: nat)
    requires x < Pow2(k) && y < Pow2(k)
    ensures n < Pow2(k) && State(k, n, x) == y
    ensures forall i: nat | i < Pow2(k) && State(k, i, x) == y :: i == n
  {
    hide State, Pow2;
    var p := Pow2(k);
    VisitedSize(k, p, x);
    SubsetFull(Visited(k, p, x), Below(p));
    assert y in Visited(k, p, x);
    n :| 0 <= n < p && State(k, n, x) == y;
    forall i: nat | i < p && State(k, i, x) == y
      ensures i == n
    {
      if i < n {
        Period(k, i, n, x);
        SmallMod(n - i, p);
      } else if n < i {
        Period(k, n, i, x);
        SmallMod(i - n, p);
      }
    }
  }
}
