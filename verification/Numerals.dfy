/** Numbers as text: digits in bases up to 16, padding, and what a string of digits denotes. */
module Numerals {
  import Arith
  import opened Bytes

  const ZERO: byte := 48
  const SPACE: byte := 32
  const MINUS: byte := 45

  /** Printed digits. */
  function DigitChar(d: nat): byte
    requires d < 16
  {
    if d < 10 then 48 + d else 87 + d
  }

  /** The value of a digit or letter of either case, -1 for any other character. */
  function DigitOf(c: byte): int {
    if 48 <= c <= 57 then c - 48
    else if 97 <= c <= 122 then c - 87
    else if 65 <= c <= 90 then c - 55
    else -1
  }

  predicate IsDigit(c: byte, base: int) {
    0 <= DigitOf(c) < base
  }

  predicate AllDigits(s: seq<byte>, base: int) {
    forall c <- s :: IsDigit(c, base)
  }

  /** What a string of digits denotes. */
  function Value(s: seq<byte>, base: int): int {
    if s == [] then 0 else Value(s[..|s| - 1], base) * base + DigitOf(s[|s| - 1])
  }

  function Quot(n: nat, base: nat): (q: nat)
    requires base >= 2
    ensures n >= base ==> 0 < q < n
    ensures q * base <= n < q * base + base
  {
    QuotSmall(base, n / base, n % base);
    n / base
  }

  lemma QuotSmall(b: int, q: int, r: int)
    requires b >= 2 && 0 <= r < b && q >= 0
    ensures b * q + r >= b ==> 0 < q < b * q + r
  {
    if q > 0 {
      Grows(b - 2, q);
      assert (b - 2) * q == b * q - 2 * q;
    }
  }

  function Rem(n: nat, base: nat): (r: nat)
    requires base >= 2
    ensures r < base && Quot(n, base) * base + r == n
  {
    n % base
  }

  /** The digits of n, without leading zeros. */
  function Numeral(n: nat, base: nat): (r: seq<byte>)
    requires 2 <= base <= 16
    ensures |r| > 0
  {
    if n < base then [DigitChar(n)] else Numeral(Quot(n, base), base) + [DigitChar(Rem(n, base))]
  }

  function Pad(k: int, c: byte): (r: seq<byte>)
    ensures |r| == if k > 0 then k else 0
    ensures forall x <- r :: x == c
  {
    seq(if k > 0 then k else 0, _ => c)
  }

  /** The digits of n, padded on the left to the given width. */
  function Number(n: nat, base: nat, width: int, padc: byte): seq<byte>
    requires 2 <= base <= 16
  {
    Pad(width - |Numeral(n, base)|, padc) + Numeral(n, base)
  }

  lemma NumberLength(n: nat, base: nat, width: int, padc: byte)
    requires 2 <= base <= 16
    ensures var d := |Numeral(n, base)|; |Number(n, base, width, padc)| == if width > d then width else d
  {}

  function Power(b: nat, k: nat): nat {
    if k == 0 then 1 else b * Power(b, k - 1)
  }

  lemma DigitIs(d: nat)
    requires d < 16
    ensures DigitOf(DigitChar(d)) == d && DigitChar(d) != 0
  {}

  /** The numeral of n denotes n. */
  lemma {:induction false} NumeralValue(n: nat, base: nat)
    requires 2 <= base <= 16
    ensures Value(Numeral(n, base), base) == n && AllDigits(Numeral(n, base), base)
  {
    hide DigitOf, DigitChar, Quot, Rem;
    if n < base {
      DigitIs(n);
      assert Numeral(n, base)[..0] == [];
    } else {
      var q, r := Quot(n, base), Rem(n, base);
      NumeralValue(q, base);
      DigitIs(r);
      assert Numeral(n, base)[..|Numeral(q, base)|] == Numeral(q, base);
    }
  }

  lemma DivDiv(n: nat, a: nat, b: nat)
    requires a > 0 && b > 0
    ensures a * b > 0 && n / a / b == n / (a * b)
  {
    var q, r := n / a / b, n / a % b;
    Arith.MulStep(a, b);
    assert n == a * (b * q + r) + n % a;
    assert a * (b * q + r) == (a * b) * q + a * r;
    Inside(a, b, r, n % a);
    Arith.DivUnique(n, a * b, q, a * r + n % a);
  }

  lemma Inside(a: nat, b: nat, r: nat, m: nat)
    requires r < b && m < a
    ensures a * r + m < a * b
  {
    Grows(a, b - r - 1);
    assert a * (b - r - 1) == a * b - a * r - a;
  }

  /** Digit number i of n from the right. */
  function DigitAt(n: nat, base: nat, i: nat): (d: nat)
    requires 2 <= base <= 16
    ensures d < base
  {
    PowerPositive(base, i);
    n / Power(base, i) % base
  }

  lemma {:induction false} PowerPositive(b: nat, k: nat)
    requires b > 0
    ensures Power(b, k) > 0
  {
    PowerMono(b, 0, k);
  }

  lemma DigitAtFirst(n: nat, base: nat)
    requires 2 <= base <= 16
    ensures DigitAt(n, base, 0) == Rem(n, base) && (n < base ==> Rem(n, base) == n)
  {
    assert n / 1 == n;
  }

  lemma DigitAtNext(n: nat, base: nat, i: nat)
    requires 2 <= base <= 16 && i > 0
    ensures DigitAt(n, base, i) == DigitAt(Quot(n, base), base, i - 1)
  {
    PowerPositive(base, i - 1);
    DivDiv(n, base, Power(base, i - 1));
  }

  /** From the right, digit number i of the numeral of n is the character for n / base^i mod base, in lower case. */
  lemma {:induction false} NumeralChar(n: nat, base: nat, i: nat)
    requires 2 <= base <= 16 && i < |Numeral(n, base)|
    ensures Numeral(n, base)[|Numeral(n, base)| - 1 - i] == "0123456789abcdef"[DigitAt(n, base, i)] as int
  {
    hide DigitChar, DigitAt, Quot, Rem;
    CharOf(Rem(n, base));
    DigitAtFirst(n, base);
    if i > 0 {
      NumeralChar(Quot(n, base), base, i - 1);
      DigitAtNext(n, base, i);
    }
  }

  lemma CharOf(d: nat)
    ensures d < 16 ==> DigitChar(d) == "0123456789abcdef"[d] as int
  {}

  /** The numeral consists of decimal digits and, in base 16, of the lower-case letters a to f. */
  lemma {:induction false} NumeralBytes(n: nat, base: nat)
    requires 2 <= base <= 16
    ensures forall c <- Numeral(n, base) :: 48 <= c <= 57 || (base > 10 && 97 <= c <= 102)
  {
    hide Quot, Rem;
    if n >= base {
      NumeralBytes(Quot(n, base), base);
    }
  }

  /** What a digit or letter is worth, by its byte. */
  lemma DigitLaw(c: byte)
    ensures 48 <= c <= 57 ==> DigitOf(c) == c - 48
    ensures 97 <= c <= 122 ==> DigitOf(c) == c - 97 + 10
    ensures 65 <= c <= 90 ==> DigitOf(c) == c - 65 + 10
    ensures c < 48 || 57 < c < 65 || 90 < c < 97 || 122 < c ==> DigitOf(c) < 0
  {}

  /** The padding stands on the left of the numeral. */
  lemma NumberChar(n: nat, base: nat, width: int, padc: byte, k: nat)
    requires 2 <= base <= 16 && k < |Number(n, base, width, padc)|
    ensures var d := |Numeral(n, base)|;
      Number(n, base, width, padc)[k] == if k < width - d then padc else Numeral(n, base)[k - if width > d then width - d else 0]
  {}

  lemma Horner(v: int, b: int, d: int, p: int)
    requires v + 1 <= p && 0 <= d < b
    ensures v * b + d < b * p
  {
    Grows(b, p - v - 1);
    assert b * (p - v - 1) == b * p - v * b - b;
  }

  lemma Grows(b: int, x: int)
    requires b >= 0 && x >= 0
    ensures b * x >= 0
  {}

  lemma HornerLow(v: nat, b: nat, d: nat, p: nat)
    requires v >= p
    ensures v * b + d >= b * p
  {
    Grows(b, v - p);
    assert b * (v - p) == v * b - b * p;
  }

  /** A string of k digits denotes less than base^k. */
  lemma {:induction false} ValueBound(s: seq<byte>, base: nat)
    requires AllDigits(s, base)
    ensures 0 <= Value(s, base) < Power(base, |s|)
  {
    hide DigitOf;
    if s != [] {
      var t := s[..|s| - 1];
      ValueBound(t, base);
      assert IsDigit(s[|s| - 1], base);
      Horner(Value(t, base), base, DigitOf(s[|s| - 1]), Power(base, |t|));
    }
  }

  lemma PowerOne(b: nat)
    ensures Power(b, 0) == 1 && Power(b, 1) == b
  {
    assert Power(b, 1) == b * Power(b, 0);
  }

  /** The numeral has no digit to spare. */
  lemma {:induction false} NumeralMinimal(n: nat, base: nat)
    requires 2 <= base <= 16 && n >= base
    ensures n >= Power(base, |Numeral(n, base)| - 1)
  {
    hide DigitChar, Quot, Rem;
    var q := Quot(n, base);
    var d := |Numeral(q, base)|;
    PowerOne(base);
    if q >= base {
      NumeralMinimal(q, base);
      HornerLow(q, base, Rem(n, base), Power(base, d - 1));
    }
  }

  /** No shorter string of digits denotes n. */
  lemma NumeralShortest(n: nat, base: nat, s: seq<byte>)
    requires 2 <= base <= 16 && AllDigits(s, base) && s != [] && Value(s, base) == n
    ensures |s| >= |Numeral(n, base)|
  {
    hide Value, AllDigits;
    ValueBound(s, base);
    if n >= base {
      NumeralMinimal(n, base);
      if |s| < |Numeral(n, base)| {
        PowerMono(base, |s|, |Numeral(n, base)| - 1);
      }
    }
  }

  lemma {:induction false} PowerMono(b: nat, j: nat, k: nat)
    requires b > 0 && j <= k
    ensures Power(b, j) <= Power(b, k)
  {
    if j < k {
      PowerMono(b, j, k - 1);
      Grows(b - 1, Power(b, k - 1));
    }
  }

  /** One turn of the recursion that prints digits. */
  lemma NumberStep(n: nat, base: nat, width: int, padc: byte)
    requires 2 <= base <= 16 && n >= base
    ensures Number(n, base, width, padc) == Number(Quot(n, base), base, width - 1, padc) + [DigitChar(Rem(n, base))]
  {}

  lemma {:induction false} ValueZeros(s: seq<byte>, base: int, k: int)
    ensures Value(Pad(k, ZERO) + s, base) == Value(s, base)
    decreases |s| + if k > 0 then k else 0
  {
    var z := Pad(k, ZERO) + s;
    if s != [] {
      ValueZeros(s[..|s| - 1], base, k);
      assert z[..|z| - 1] == Pad(k, ZERO) + s[..|s| - 1];
    } else if k > 0 {
      ValueZeros([], base, k - 1);
      assert z[..|z| - 1] == Pad(k - 1, ZERO) + [];
    }
  }
}
