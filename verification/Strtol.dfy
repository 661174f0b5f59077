/** Parsing numbers, the inverse of printing them. */
module Strtol {
  import opened Bytes
  import opened Numerals
  import Arith

  const TAB: byte := 9
  const PLUS: byte := 43
  const LOWER_X: byte := 120

  /** A 64-bit two's-complement result. */
  function Signed64(x: int): (r: int)
    ensures -0x8000_0000_0000_0000 <= r < 0x8000_0000_0000_0000
    ensures -0x8000_0000_0000_0000 <= x < 0x8000_0000_0000_0000 ==> r == x
  {
    var m := x % W64;
    if m < 0x8000_0000_0000_0000 then m else m - W64
  }

  predicate Nonzero(s: seq<byte>) {
    forall c <- s :: c != 0
  }

  /** A C string with its terminator. */
  predicate Terminated(s: seq<byte>) {
    |s| > 0 && s[|s| - 1] == 0 && Nonzero(s[..|s| - 1])
  }

  predicate Blank(c: byte) {
    c == SPACE || c == TAB
  }

  predicate Sign(c: byte) {
    c == PLUS || c == MINUS
  }

  /** The end of the blanks at i. */
  function Blanks(s: seq<byte>, i: nat): (j: nat)
    requires Terminated(s) && i < |s|
    ensures i <= j < |s|
    decreases |s| - i
  {
    if Blank(s[i]) then Blanks(s, i + 1) else i
  }

  /** The end of the digits at i. */
  function Run(s: seq<byte>, i: nat, base: int): (j: nat)
    requires Terminated(s) && i < |s|
    ensures i <= j < |s|
    decreases |s| - i
  {
    if IsDigit(s[i], base) then Run(s, i + 1, base) else i
  }

  /** Where the digits start, and their base. */
  function Prefix(s: seq<byte>, i: nat, base: int): (r: (nat, int))
    requires Terminated(s) && i < |s|
    ensures i <= r.0 < |s|
  {
    if (base == 0 || base == 16) && s[i] == ZERO && s[i + 1] == LOWER_X then (i + 2, 16)
    else if base == 0 && s[i] == ZERO then (i + 1, 8)
    else if base == 0 then (i, 10)
    else (i, base)
  }

  /** The number and the end of its text. */
  function Parse(s: seq<byte>, base: int): (int, nat)
    requires Terminated(s)
  {
    var i := Blanks(s, 0);
    var j := if Sign(s[i]) then i + 1 else i;
    var (m, b) := Prefix(s, j, base);
    var e := Run(s, m, b);
    var v := Value(s[m..e], b);
    (Signed64(if s[i] == MINUS then -v else v), e)
  }

  lemma ModShift(x: int, q: int)
    ensures (x + W64 * q) % W64 == x % W64
  {
    Arith.DivUnique(x + W64 * q, W64, x / W64 + q, x % W64);
  }

  lemma Signed64Is(x: int) returns (q: int)
    ensures Signed64(x) == x + W64 * q
  {
    q := -(x / W64) - if x % W64 < 0x8000_0000_0000_0000 then 0 else 1;
  }

  /** Wrapping early does not matter. */
  lemma WrapStep(v: int, base: int, d: int)
    ensures Signed64(Signed64(v) * base + d) == Signed64(v * base + d)
    ensures Signed64(-Signed64(v)) == Signed64(-v)
  {
    var q := Signed64Is(v);
    ModShift(v * base + d, q * base);
    ModShift(-v, -q);
    assert (v + W64 * q) * base == v * base + W64 * (q * base);
  }

  lemma ValueNext(s: seq<byte>, m: nat, i: nat, base: int)
    requires m <= i < |s|
    ensures Value(s[m..i + 1], base) == Value(s[m..i], base) * base + DigitOf(s[i])
  {
    assert s[m..i + 1][..i - m] == s[m..i];
  }

  method Strtol(s: seq<byte>, base: int) returns (val: int, end: nat)
    requires Terminated(s)
    ensures (val, end) == Parse(s, base)
  {
    hide Signed64, Value, DigitOf, IsDigit, Run, Prefix, Terminated;
    StartsInside(s);
    var i, neg := 0, false;
    while s[i] == SPACE || s[i] == TAB
      invariant i < |s| && Blanks(s, i) == Blanks(s, 0)
      decreases |s| - i
    {
      i := i + 1;
    }
    SignInside(s, i);
    if s[i] == PLUS {
      i := i + 1;
    } else if s[i] == MINUS {
      i, neg := i + 1, true;
    }
    var m, b := ReadPrefix(s, i, base);
    val, end := ReadDigits(s, m, b);
    WrapStep(Value(s[m..end], b), b, 0);
    if neg { val := Signed64(-val); }
  }

  lemma StartsInside(s: seq<byte>)
    requires Terminated(s)
    ensures |s| > 0
  {}

  lemma SignInside(s: seq<byte>, i: nat)
    requires Terminated(s) && i < |s|
    ensures Blank(s[i]) || Sign(s[i]) ==> i + 1 < |s|
  {}

  /** The prefix that decides about the base. */
  method ReadPrefix(s: seq<byte>, i: nat, base: int) returns (m: nat, b: int)
    requires Terminated(s) && i < |s|
    ensures (m, b) == Prefix(s, i, base)
  {
    m, b := i, base;
    if (b == 0 || b == 16) && s[m] == ZERO && s[m + 1] == LOWER_X {
      m, b := m + 2, 16;
    } else if b == 0 && s[m] == ZERO {
      m, b := m + 1, 8;
    } else if b == 0 {
      b := 10;
    }
  }

  /** The loop over the digits. */
  method ReadDigits(s: seq<byte>, m: nat, b: int) returns (val: int, i: nat)
    requires Terminated(s) && m < |s|
    ensures i == Run(s, m, b) && val == Signed64(Value(s[m..i], b))
  {
    hide Signed64, Value, DigitOf;
    i, val := m, 0;
    assert s[m..m] == [];
    EmptyValue(b);
    while IsDigit(s[i], b)
      invariant m <= i < |s| && Run(s, i, b) == Run(s, m, b) && val == Signed64(Value(s[m..i], b))
      decreases |s| - i
    {
      ValueNext(s, m, i, b);
      WrapStep(Value(s[m..i], b), b, DigitOf(s[i]));
      val := Signed64(val * b + DigitOf(s[i]));
      i := i + 1;
    }
  }

  lemma EmptyValue(b: int)
    ensures Signed64(Value([], b)) == 0
  {}

  // ---- what is parsed ----

  lemma {:induction false} BlanksTo(s: seq<byte>, i: nat, j: nat)
    requires Terminated(s) && i <= j < |s| && !Blank(s[j]) && forall k :: i <= k < j ==> Blank(s[k])
    ensures Blanks(s, i) == j
    decreases j - i
  {
    if i < j {
      BlanksTo(s, i + 1, j);
    }
  }

  lemma {:induction false} RunTo(s: seq<byte>, i: nat, j: nat, base: int)
    requires Terminated(s) && i <= j < |s| && !IsDigit(s[j], base) && forall k :: i <= k < j ==> IsDigit(s[k], base)
    ensures Run(s, i, base) == j
    decreases j - i
  {
    if i < j {
      RunTo(s, i + 1, j, base);
    }
  }

  const HEX_PREFIX: seq<byte> := [ZERO, LOWER_X]

  /** Blanks, a sign or none, a prefix that selects base b, and digits ds up to a character that is none: the number is
      that of the sign and the digits, and parsing stops after the digits. */
  lemma ParseOf(s: seq<byte>, base: int, i: nat, j: nat, m: nat, ds: seq<byte>, b: int)
    requires Terminated(s) && i <= j <= m && m + |ds| < |s|
    requires (forall k :: 0 <= k < i ==> Blank(s[k])) && !Blank(s[i])
    requires (if Sign(s[i]) then i + 1 else i) == j && Prefix(s, j, base) == (m, b)
    requires s[m..m + |ds|] == ds && AllDigits(ds, b) && !IsDigit(s[m + |ds|], b)
    ensures var v := if s[i] == MINUS then -Value(ds, b) else Value(ds, b);
      && Parse(s, base) == (Signed64(v), m + |ds|)
      && (Parse(s, base).0 == v <==> -0x8000_0000_0000_0000 <= v < 0x8000_0000_0000_0000)
  {
    hide Signed64, Value, IsDigit, Blank, Sign, Prefix;
    BlanksTo(s, 0, i);
    forall k | m <= k < m + |ds|
      ensures IsDigit(s[k], b)
    {
      assert s[k] == ds[k - m];
    }
    RunTo(s, m, m + |ds|, b);
  }

  /** The same in bytes. The text has blanks (32) and tabs (9) up to i, possibly a sign (43 or 45), a prefix that ends
      at m, digits of base b up to e, and then something else. Its value is that of the digits, negated behind a 45, modulo
      2^64 and as a signed number; parsing stops at e. */
  lemma ParseLaw(s: seq<byte>, base: int, i: nat, j: nat, m: nat, e: nat, b: int)
    requires Terminated(s) && i <= j <= m <= e < |s|
    requires (forall k :: 0 <= k < i ==> s[k] == 32 || s[k] == 9) && s[i] != 32 && s[i] != 9
    requires j == if s[i] == 43 || s[i] == 45 then i + 1 else i
    requires if (base == 0 || base == 16) && s[j] == 48 && s[j + 1] == 120 then m == j + 2 && b == 16
             else if base == 0 && s[j] == 48 then m == j + 1 && b == 8
             else m == j && b == if base == 0 then 10 else base
    requires AllDigits(s[m..e], b) && !IsDigit(s[e], b)
    ensures var v := if s[i] == 45 then -Value(s[m..e], b) else Value(s[m..e], b);
      var (r, end) := Parse(s, base);
      && end == e && -0x8000_0000_0000_0000 <= r < 0x8000_0000_0000_0000
      && (r - v) % 0x1_0000_0000_0000_0000 == 0 && (r == v <==> -0x8000_0000_0000_0000 <= v < 0x8000_0000_0000_0000)
  {
    hide Parse, Value, IsDigit;
    ParseOf(s, base, i, j, m, s[m..e], b);
    Congruent(if s[i] == 45 then -Value(s[m..e], b) else Value(s[m..e], b));
  }

  lemma Congruent(x: int)
    ensures (Signed64(x) - x) % 0x1_0000_0000_0000_0000 == 0
  {
    var q := Signed64Is(x);
  }

  /** With base 0 a leading zero selects octal digits. */
  lemma OctalPrefix(ds: seq<byte>)
    requires AllDigits(ds, 8)
    ensures Terminated([48] + ds + [0]) && Parse([48] + ds + [0], 0) == (Signed64(Value(ds, 8)), 1 + |ds|)
  {
    hide Value, Parse, Signed64, IsDigit;
    var s := [48] + ds + [0];
    DigitNonzero(ds, 8);
    Terminate([48] + ds);
    Zero(8);
    assert s[0] == 48 && s[1..1 + |ds|] == ds;
    assert s[1] == (if ds == [] then 0 else ds[0]);
    ParseOf(s, 0, 0, 0, 1, ds, 8);
  }

  /** With base 0 digits that do not start with a zero are decimal. */
  lemma DecimalPlain(ds: seq<byte>)
    requires AllDigits(ds, 10) && ds != [] && ds[0] != 48
    ensures Terminated(ds + [0]) && Parse(ds + [0], 0) == (Signed64(Value(ds, 10)), |ds|)
  {
    hide Value, Parse, Signed64, IsDigit;
    var s := ds + [0];
    DigitNonzero(ds, 10);
    Terminate(ds);
    Zero(10);
    assert s[0] == ds[0] && s[0..|ds|] == ds;
    ParseOf(s, 0, 0, 0, 0, ds, 10);
  }

  lemma Zero(b: int)
    ensures !IsDigit(0, b) && !Blank(0) && !Sign(0)
  {}

  lemma Terminate(t: seq<byte>)
    requires Nonzero(t)
    ensures Terminated(t + [0])
  {
    assert (t + [0])[..|t|] == t;
  }

  // ---- the hexadecimal prefix ----

  const UPPER_X: byte := 88

  /** With an upper-case X the zero is all that is parsed, whatever follows. */
  lemma UpperPrefix(ds: seq<byte>, base: int)
    requires Nonzero(ds) && (base == 0 || base == 16)
    ensures Terminated([ZERO, UPPER_X] + ds + [0]) && Parse([ZERO, UPPER_X] + ds + [0], base) == (0, 1)
  {
    hide Value, Parse, Signed64;
    var s := [ZERO, UPPER_X] + ds + [0];
    Terminate([ZERO, UPPER_X] + ds);
    assert s[0] == ZERO && s[1] == UPPER_X;
    ValueNone(8);
    if base == 0 {
      ParseOf(s, 0, 0, 0, 1, [], 8);
    } else {
      assert s[0..1] == Pad(1, ZERO) + [];
      ValueZeros([], 16, 1);
      ValueNone(16);
      ParseOf(s, 16, 0, 0, 0, [ZERO], 16);
    }
  }

  /** Hexadecimal digits behind a prefix are parsed iff the x of the prefix is in lower case. */
  lemma HexPrefixIff(c: byte, ds: seq<byte>, base: int)
    requires (c == LOWER_X || c == UPPER_X) && ds != [] && AllDigits(ds, 16) && (base == 0 || base == 16)
    ensures var s := [ZERO, c] + ds + [0];
      Terminated(s) && (Parse(s, base) == (Signed64(Value(ds, 16)), 2 + |ds|) <==> c == LOWER_X)
  {
    hide Value, Parse, Signed64, IsDigit;
    var s := [ZERO, c] + ds + [0];
    DigitNonzero(ds, 16);
    if c == UPPER_X {
      UpperPrefix(ds, base);
    } else {
      Terminate([ZERO, c] + ds);
      Zero(16);
      assert s[0] == ZERO && s[1] == LOWER_X && s[2..2 + |ds|] == ds;
      ParseOf(s, base, 0, 0, 2, ds, 16);
    }
  }

  // ---- round trips ----

  lemma DigitNonzero(s: seq<byte>, b: int)
    requires AllDigits(s, b)
    ensures Nonzero(s)
    ensures b <= 33 ==> LOWER_X !in s
    ensures SPACE !in s && MINUS !in s && PLUS !in s && TAB !in s
  {
    assert DigitOf(LOWER_X) == 33;
  }

  /** With zero padding, or as wide as its digits, a printed number is a string of digits. */
  lemma PaddedDigits(n: nat, base: nat, width: int, padc: byte)
    requires 2 <= base <= 16 && Unpadded(n, base, width, padc)
    ensures var s := Number(n, base, width, padc); Value(s, base) == n && AllDigits(s, base) && Nonzero(s) && LOWER_X !in s
  {
    hide Value, Numeral;
    NumeralValue(n, base);
    var k := width - |Numeral(n, base)|;
    if k > 0 {
      ValueZeros(Numeral(n, base), base, k);
      assert DigitOf(ZERO) == 0;
    } else {
      assert Number(n, base, width, padc) == Numeral(n, base);
    }
    DigitNonzero(Number(n, base, width, padc), base);
  }

  /** A number printed in base 8, 10 or 16 with zero or space padding parses back as its 64-bit pattern, and parsing
      consumes all of it. */
  lemma NumberRoundTrip(n: nat, base: nat, width: int, padc: byte)
    requires 2 <= base <= 16 && (padc == ZERO || padc == SPACE)
    ensures var t := Number(n, base, width, padc);
      && Terminated(t + [0]) && Parse(t + [0], base) == (Signed64(n), |t|)
      && (n < W64 ==> (Parse(t + [0], base) == (n, |t|) <==> n < 0x8000_0000_0000_0000))
  {
    hide Value, Numeral, Parse, DigitOf;
    var t := Number(n, base, width, padc);
    if Unpadded(n, base, width, padc) {
      PaddedDigits(n, base, width, padc);
      ParseDigits([], t, base);
      assert [] + t + [0] == t + [0];
    } else {
      NumeralValue(n, base);
      ParseDigits(Pad(width - |Numeral(n, base)|, SPACE), Numeral(n, base), base);
    }
  }

  /** Blanks and digits. */
  lemma ParseDigits(bl: seq<byte>, ds: seq<byte>, base: nat)
    requires 2 <= base <= 16 && ds != [] && AllDigits(ds, base) && forall c <- bl :: c == SPACE
    ensures Terminated(bl + ds + [0]) && Parse(bl + ds + [0], base) == (Signed64(Value(ds, base)), |bl + ds|)
  {
    hide Value, Parse, Signed64, DigitOf, IsDigit;
    var s := bl + ds + [0];
    DigitNonzero(ds, base);
    Terminate(bl + ds);
    Zero(base);
    assert s[|bl|] == ds[0];
    assert |ds| > 1 ==> s[|bl| + 1] == ds[1];
    forall k | 0 <= k < |bl|
      ensures Blank(s[k])
    {
      assert s[k] == bl[k] && bl[k] in bl;
    }
    ParseOf(s, base, |bl|, |bl|, |bl|, ds, base);
  }

  /** With the '-' flag the padding consists of signs: one is read as such, two or more end the parse. */
  lemma MinusPadding(n: nat, base: nat, width: int)
    requires 2 <= base <= 16 && width > |Numeral(n, base)|
    ensures var t := Number(n, base, width, MINUS);
      && Terminated(t + [0])
      && Parse(t + [0], base) == if width == |Numeral(n, base)| + 1 then (Signed64(-(n as int)), |t|) else (0, 1)
  {
    hide Value, Numeral, Parse, Signed64, DigitOf, IsDigit;
    var ds := Numeral(n, base);
    var s := Number(n, base, width, MINUS) + [0];
    NumeralValue(n, base);
    DigitNonzero(ds, base);
    NumberParts(n, base, width, MINUS);
    Terminate(Number(n, base, width, MINUS));
    Zero(base);
    if width == |ds| + 1 {
      assert s[1..1 + |ds|] == ds && s[1] == ds[0];
      assert |ds| > 1 ==> s[2] == ds[1];
      ParseOf(s, base, 0, 1, 1, ds, base);
    } else {
      assert s[0] == MINUS && s[1] == MINUS;
      NotDigits(base);
      ValueNone(base);
      ParseOf(s, base, 0, 1, 1, [], base);
    }
  }

  lemma NegatedPattern(n: nat)
    requires n < W64
    ensures Signed64(-(n as int)) == Signed64(n) <==> n == 0 || n == 0x8000_0000_0000_0000
  {}

  /** An unsigned number parses back iff its padding is harmless: zeros, spaces, none, or a single '-' before a number
      that is its own negative. */
  predicate Readable(n: nat, base: nat, width: int, padc: byte)
    requires 2 <= base <= 16
  {
    || Unpadded(n, base, width, padc) || padc == SPACE
    || (width == |Numeral(n, base)| + 1 && (n == 0 || n == 0x8000_0000_0000_0000))
  }

  lemma ReadableIff(n: nat, base: nat, width: int, padc: byte)
    requires 2 <= base <= 16 && n < W64 && (padc == ZERO || padc == SPACE || padc == MINUS)
    ensures var t := Number(n, base, width, padc);
      Terminated(t + [0]) && (Parse(t + [0], base) == (Signed64(n), |t|) <==> Readable(n, base, width, padc))
  {
    hide Numeral, Parse, Signed64;
    if padc != MINUS {
      NumberRoundTrip(n, base, width, padc);
    } else if width > |Numeral(n, base)| {
      MinusPadding(n, base, width);
      NegatedPattern(n);
    } else {
      assert Number(n, base, width, padc) == Number(n, base, width, ZERO);
      NumberRoundTrip(n, base, width, ZERO);
    }
  }

  function Abs(v: int): nat {
    if v < 0 then -v else v
  }

  /** The text of a signed decimal: the sign comes before the padding. */
  function Decimal(v: int, width: int, padc: byte): seq<byte> {
    (if v < 0 then [MINUS] else []) + Number(Abs(v), 10, width, padc)
  }

  predicate Unpadded(n: nat, base: nat, width: int, padc: byte)
    requires 2 <= base <= 16
  {
    padc == ZERO || width <= |Numeral(n, base)|
  }

  /** A signed decimal parses back exactly when no padding separates its sign from its digits, and, if it has no sign,
      when its padding is harmless. */
  lemma DecimalRoundTrip(v: int, width: int, padc: byte)
    requires -0x8000_0000_0000_0000 <= v < 0x8000_0000_0000_0000 && (padc == ZERO || padc == SPACE || padc == MINUS)
    ensures var t := Decimal(v, width, padc);
      && Terminated(t + [0])
      && (Parse(t + [0], 10) == (v, |t|) <==>
            if v >= 0 then Readable(v, 10, width, padc) else Unpadded(-v, 10, width, padc))
      && (v < 0 && !Unpadded(Abs(v), 10, width, padc) ==> Parse(t + [0], 10) == (0, 1))
  {
    hide Value, Numeral, Parse, Signed64, DigitOf, IsDigit, Pad;
    var t, u := Decimal(v, width, padc), Number(Abs(v), 10, width, padc);
    var s := t + [0];
    if v >= 0 {
      assert t == u;
      ReadableIff(v, 10, width, padc);
      InRange(v);
    } else {
      NumberParts(-v, 10, width, padc);
      InRange(v);
      Terminate(t);
      Zero(10);
      if Unpadded(-v, 10, width, padc) {
        PaddedDigits(-v, 10, width, padc);
        assert s[1..1 + |u|] == u;
        ParseOf(s, 10, 0, 1, 1, u, 10);
      } else {
        assert s[1] == u[0];
        ValueNone(10);
        ParseOf(s, 10, 0, 1, 1, [], 10);
      }
    }
  }

  lemma InRange(v: int)
    requires -0x8000_0000_0000_0000 <= v < 0x8000_0000_0000_0000
    ensures Signed64(v) == v
  {}

  lemma NotDigits(base: int)
    ensures !IsDigit(SPACE, base) && !IsDigit(MINUS, base)
  {}

  lemma NumberParts(n: nat, base: nat, width: int, padc: byte)
    requires 2 <= base <= 16 && (padc == ZERO || padc == SPACE || padc == MINUS)
    ensures var u := Number(n, base, width, padc);
      u != [] && Nonzero(u) && (!Unpadded(n, base, width, padc) ==> u[0] == padc && !IsDigit(padc, base))
  {
    NumeralValue(n, base);
    DigitNonzero(Numeral(n, base), base);
  }

  lemma ValueNone(b: int)
    ensures Value([], b) == 0
  {}

  /** The text of a pointer. */
  function Pointer(p: nat, width: int, padc: byte): seq<byte> {
    HEX_PREFIX + Number(p, 16, width, padc)
  }

  /** A printed pointer parses back with base 0 exactly when no padding but zeros separates its prefix from its
      digits. */
  lemma PointerRoundTrip(p: nat, width: int, padc: byte)
    requires padc == ZERO || padc == SPACE || padc == MINUS
    ensures var t := Pointer(p, width, padc);
      && Terminated(t + [0])
      && (Parse(t + [0], 0) == (Signed64(p), |t|) <==> Unpadded(p, 16, width, padc))
      && (!Unpadded(p, 16, width, padc) ==> Parse(t + [0], 0) == (0, 2))
  {
    hide Value, Numeral, Parse, Signed64, DigitOf, IsDigit, Pad;
    var t, u := Pointer(p, width, padc), Number(p, 16, width, padc);
    var s := t + [0];
    NumberParts(p, 16, width, padc);
    Terminate(t);
    Zero(16);
    assert Prefix(s, 0, 0) == (2, 16) && s[0] == ZERO;
    if Unpadded(p, 16, width, padc) {
      PaddedDigits(p, 16, width, padc);
      assert s[2..2 + |u|] == u;
      ParseOf(s, 0, 0, 0, 2, u, 16);
    } else {
      assert s[2] == u[0];
      ValueNone(16);
      ParseOf(s, 0, 0, 0, 2, [], 16);
    }
  }
}
