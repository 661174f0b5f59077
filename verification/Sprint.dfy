/** Formatting into a buffer of limited size. */
module Sprint {
  import opened Bytes
  import opened Numerals
  import opened Strtol
  import opened Format

  const E_INVAL: int := 3

  lemma PadMore(k: int, c: byte)
    requires k >= 0
    ensures Pad(k, c) + [c] == Pad(k + 1, c)
  {}

  lemma LettersMore(t: seq<byte>, p: nat, alt: bool)
    requires p < |t|
    ensures Letters(t[..p], alt) + [Visible(t[p], alt)] == Letters(t[..p + 1], alt)
  {}

  /** The number of characters of s, at most len. */
  method Strnlen(s: Text, len: nat) returns (cnt: nat)
    ensures cnt == if len < |s| then len else |s|
  {
    cnt := 0;
    while cnt < len && cnt < |s|
      invariant cnt <= len && cnt <= |s|
    {
      cnt := cnt + 1;
    }
  }

  /** The buffer after printing out: as much of it as fits from start, and nothing else changed. */
  ghost predicate Holds(mem: seq<byte>, initial: seq<byte>, start: nat, end: nat, out: seq<byte>) {
    && |mem| == |initial| && start <= end <= |mem|
    && var m := if |out| < end - start then |out| else end - start;
       mem == initial[..start] + out[..m] + initial[start + m..]
  }

  lemma HoldsMore(mem: seq<byte>, initial: seq<byte>, start: nat, end: nat, out: seq<byte>, c: byte)
    requires Holds(mem, initial, start, end, out)
    ensures |out| < end - start ==> Holds(mem[start + |out| := c], initial, start, end, out + [c])
    ensures |out| >= end - start ==> Holds(mem, initial, start, end, out + [c])
  {
    if |out| < end - start {
      assert (out + [c])[..|out| + 1] == out + [c];
    } else {
      assert (out + [c])[..end - start] == out[..end - start];
    }
  }

  /** The array initial with out, cut to size - 1 characters and terminated, at the given position. */
  function Cut(initial: seq<byte>, at: nat, size: nat, out: seq<byte>): seq<byte>
    requires size > 0 && at + size <= |initial|
  {
    var m := if |out| < size - 1 then |out| else size - 1;
    initial[..at] + out[..m] + [0] + initial[at + m + 1..]
  }

  lemma HoldsEnd(mem: seq<byte>, initial: seq<byte>, at: nat, size: nat, out: seq<byte>)
    requires size > 0 && Holds(mem, initial, at, at + size - 1, out) && at + size <= |mem|
    ensures mem[(if |out| < size - 1 then at + |out| else at + size - 1) := 0] == Cut(initial, at, size, out)
  {}

  class SprintBuf {
    const mem: array<byte>
    var buf: nat
    const ebuf: nat
    var cnt: nat
    ghost const start: nat
    ghost const initial: seq<byte>
    /** Everything printed so far. */
    ghost var out: seq<byte>

    ghost predicate Valid()
      reads this, mem
    {
      && start <= ebuf < mem.Length && cnt == |out|
      && buf == (if |out| < ebuf - start then start + |out| else ebuf)
      && Holds(mem[..], initial, start, ebuf, out)
    }

    constructor (mem: array<byte>, at: nat, size: nat)
      requires size >= 1 && at + size <= mem.Length
      ensures Valid() && this.mem == mem && start == at && ebuf == at + size - 1 && initial == mem[..] && out == []
    {
      this.mem, buf, ebuf, cnt := mem, at, at + size - 1, 0;
      start, initial, out := at, mem[..], [];
      new;
      assert mem[..] == initial[..start] + [] + initial[start..];
    }

    /** Count a character, and store it if there is room. */
    method Putch(ch: byte)
      requires Valid()
      modifies this, mem
      ensures Valid() && out == old(out) + [ch]
    {
      hide Holds;
      HoldsMore(mem[..], initial, start, ebuf, out, ch);
      cnt := cnt + 1;
      if buf < ebuf {
        mem[buf] := ch;
        buf := buf + 1;
      }
      out := out + [ch];
    }

    /** Pad while a width is left. */
    method PutPad(width: int, c: byte)
      requires Valid()
      modifies this, mem
      ensures Valid() && out == old(out) + Pad(width, c)
    {
      hide Holds;
      var left := width;
      assert Pad(0, c) == [];
      while left > 0
        invariant left <= width && (left >= 0 || left == width)
        invariant Valid() && out == old(out) + Pad(width - left, c)
      {
        PadMore(width - left, c);
        Putch(c);
        left := left - 1;
      }
      assert width <= 0 ==> Pad(width, c) == [];
    }

    /** The more significant digits first, and before them the padding. */
    method PrintNum(num: nat, base: nat, width: int, padc: byte)
      requires Valid() && 2 <= base <= 16
      modifies this, mem
      ensures Valid() && out == old(out) + Number(num, base, width, padc)
      decreases num
    {
      hide Holds, Numeral, DigitChar;
      var result, mod := Quot(num, base), Rem(num, base);
      OneDigit(num, base, width, padc);
      if num >= base {
        PrintNum(result, base, width - 1, padc);
      } else {
        PutPad(width - 1, padc);
      }
      Putch(DigitChar(mod));
    }

    /** The characters of a string that the precision admits; left is what remains of the width. */
    method PutLetters(t: Text, f: Flags, width: int) returns (left: int)
      requires Valid()
      modifies this, mem
      ensures var n := Shown(|t|, f.precision);
        Valid() && out == old(out) + Letters(t[..n], f.alt) && left == width - n
    {
      hide Valid, Holds;
      var precision: int := f.precision;
      ghost var n := Shown(|t|, f.precision);
      var p := 0;
      left := width;
      assert Letters(t[..0], f.alt) == [];
      while p < |t| && (precision < 0 || precision > 0)
        invariant 0 <= p <= n && left == width - p && Valid() && out == old(out) + Letters(t[..p], f.alt)
        invariant if f.precision < 0 then precision < 0 else precision == f.precision - p
        decreases |t| - p
      {
        if precision >= 0 { precision := precision - 1; }
        LettersMore(t, p, f.alt);
        Putch(Visible(t[p], f.alt));
        p, left := p + 1, left - 1;
      }
    }

    method PutString(t: Text, f: Flags)
      requires Valid()
      modifies this, mem
      ensures Valid() && out == old(out) + StringText(t, f)
    {
      hide Valid, Holds, Letters;
      var width: int := f.width;
      ghost var n := Shown(|t|, f.precision);
      if width > 0 && f.padc != MINUS {
        var len := Strnlen(t, if f.precision < 0 then W64 + f.precision else f.precision);
        width := width - len;
        PutPad(width, f.padc);
        if width > 0 { width := 0; }
      }
      width := PutLetters(t, f, width);
      PutPad(width, SPACE);
    }

    /** The error conversion; its two formats are written out. */
    method PutError(err: nat)
      requires Valid()
      modifies this, mem
      ensures Valid() && out == old(out) + ErrorText(err)
    {
      hide Valid, Holds, Ascii, ErrorString, Number, StringText, Shown, Letters;
      if err > MAXERROR || ErrorString(err) == "" {
        PutString(Ascii("error "), START);
        WholeString(Ascii("error "), START);
        PrintNum(err, 10, -1, SPACE);
      } else {
        PutString(Ascii(ErrorString(err)), START);
        WholeString(Ascii(ErrorString(err)), START);
      }
    }

    /** A signed decimal. */
    method PutDecimal(v: int, width: int, padc: byte)
      requires Valid()
      modifies this, mem
      ensures Valid() && out == old(out) + Decimal(v, width, padc)
    {
      hide Valid, Holds, Number;
      var num := v;
      if num < 0 {
        Putch(MINUS);
        num := -num;
      }
      PrintNum(num, 10, width, padc);
    }

    /** A conversion that is known; the next argument is k, and k' is next afterwards. */
    method PutConversion(c: byte, f: Flags, k: nat, args: Args) returns (k': nat)
      requires Valid() && Known(c)
      modifies this, mem
      ensures Valid() && out == old(out) + Convert(c, f, k, args) && k' == if c == PERCENT then k else k + 1
    {
      hide Valid, Holds, Number, Decimal, ErrorText, StringText, Int, GetInt, GetUint, Ascii;
      k' := k;
      if c == PERCENT {
        Putch(PERCENT);
        return;
      }
      var w := args.word(k);
      k' := k + 1;
      if c == LETTER_C {
        Putch(w % 256);
      } else if c == LETTER_E {
        var err := Int(w);
        if err < 0 { err := -err; }
        PutError(err);
      } else if c == LETTER_S {
        var p := args.text(k);
        PutString(if p.None? then Ascii("(null)") else p.value, f);
      } else if c == LETTER_D {
        PutDecimal(GetInt(w, f.lflag), f.width, f.padc);
      } else {
        var num, base := GetUint(w, f.lflag), 16;
        if c == LETTER_P {
          Putch(ZERO);
          Putch(LOWER_X);
          num := w % W64;
        } else if c == LETTER_U {
          base := 10;
        } else if c == LETTER_O {
          base := 8;
        }
        PrintNum(num, base, f.width, f.padc);
      }
    }

    method Vprintfmt(fmt: seq<byte>, args: Args)
      requires Valid() && Terminated(fmt)
      modifies this, mem
      ensures Valid() && out == old(out) + Output(fmt, 0, 0, args)
    {
      hide Valid, Holds, Convert, Scan, Known, START;
      var i, k := 0, 0;
      while true
        invariant i < |fmt| && Valid() && out + Output(fmt, i, k, args) == old(out) + Output(fmt, 0, 0, args)
        decreases |fmt| - i
      {
        ghost var i0 := i;
        while fmt[i] != PERCENT
          invariant i0 <= i < |fmt| && Valid() && out + Output(fmt, i, k, args) == old(out) + Output(fmt, 0, 0, args)
          decreases |fmt| - i
        {
          if fmt[i] == 0 { return; }
          ghost var before := out;
          CharStep(before, fmt, i, k, args);
          Putch(fmt[i]);
          i := i + 1;
        }
        ghost var before := out;
        EscapeStep(before, fmt, i, k, args);
        i := i + 1;
        var s := ReadFlags(fmt, i, k, args);
        var ch := fmt[s.i];
        if Known(ch) {
          NotLast(fmt, s.i);
          i := s.i + 1;
          k := PutConversion(ch, s.f, s.k, args);
        } else {
          Putch(PERCENT);
          i := Rewind(fmt, s.i + 1, i);
          k := s.k;
        }
      }
    }
  }

  lemma CharStep(out: seq<byte>, fmt: seq<byte>, i: nat, k: nat, args: Args)
    requires Terminated(fmt) && i < |fmt| && fmt[i] != 0 && fmt[i] != PERCENT
    ensures i + 1 < |fmt|
    ensures out + Output(fmt, i, k, args) == out + [fmt[i]] + Output(fmt, i + 1, k, args)
  {
    hide Convert, Scan, Known;
  }

  lemma NotLast(fmt: seq<byte>, i: nat)
    requires Terminated(fmt) && i < |fmt| && Known(fmt[i])
    ensures i + 1 < |fmt|
  {}

  lemma EscapeStep(out: seq<byte>, fmt: seq<byte>, i: nat, k: nat, args: Args)
    requires Terminated(fmt) && i < |fmt| && fmt[i] == PERCENT
    ensures i + 1 < |fmt|
    ensures var s := Scan(fmt, State(i + 1, k, START), args);
      var c := fmt[s.i];
      if Known(c) then
        s.i + 1 < |fmt| &&
        out + Output(fmt, i, k, args)
          == out + Convert(c, s.f, s.k, args) + Output(fmt, s.i + 1, if c == PERCENT then s.k else s.k + 1, args)
      else out + Output(fmt, i, k, args) == out + [PERCENT] + Output(fmt, i + 1, s.k, args)
  {
    hide Convert, Scan;
  }

  /** From behind the unknown character at i - 1 back to behind the '%' of the escape, which is at start - 1. */
  method Rewind(fmt: seq<byte>, end: nat, ghost start: nat) returns (i: nat)
    requires 0 < start < end <= |fmt| && fmt[start - 1] == PERCENT
    requires forall j :: start <= j < end - 1 ==> fmt[j] != PERCENT
    ensures i == start
  {
    i := end - 1;
    while fmt[i - 1] != PERCENT
      invariant start <= i < end
      decreases i
    {
      i := i - 1;
    }
  }

  /** The flags of an escape, up to its conversion character. */
  method ReadFlags(fmt: seq<byte>, i0: nat, k0: nat, args: Args) returns (s: State)
    requires Terminated(fmt) && i0 < |fmt|
    ensures s == Scan(fmt, State(i0, k0, START), args)
    ensures forall j :: i0 <= j < s.i ==> fmt[j] != PERCENT
  {
    hide Value, Run, Int, IsDigit;
    var padc: byte, width: Field, precision: Field, lflag: nat, alt := SPACE, -1, -1, 0, false;
    var i, k := i0, k0;
    while IsFlag(fmt[i])
      invariant i < |fmt|
      invariant Scan(fmt, State(i, k, Flags(padc, width, precision, lflag, alt)), args)
             == Scan(fmt, State(i0, k0, START), args)
      decreases |fmt| - i
    {
      var ch := fmt[i];
      NoFlag(fmt);
      if ch == MINUS {
        padc, i := MINUS, i + 1;
      } else if ch == ZERO {
        padc, i := ZERO, i + 1;
      } else if ch == DOT {
        if width < 0 { width := 0; }
        i := i + 1;
      } else if ch == HASH {
        alt, i := true, i + 1;
      } else if ch == LETTER_L {
        lflag, i := lflag + 1, i + 1;
      } else {
        if ch == STAR {
          precision, i, k := Int(args.word(k)), i + 1, k + 1;
        } else {
          precision, i := ReadField(fmt, i);
        }
        if width < 0 { width, precision := precision, -1; }
      }
    }
    s := State(i, k, Flags(padc, width, precision, lflag, alt));
    ScanNoPercent(fmt, State(i0, k0, START), args);
    forall j | i0 <= j < s.i
      ensures fmt[j] != PERCENT
    {
      assert fmt[j] in fmt[i0..s.i];
    }
  }

  /** The number at i, which starts with a digit. */
  method ReadField(fmt: seq<byte>, i: nat) returns (v: Field, e: nat)
    requires Terminated(fmt) && i + 1 < |fmt| && IsDigit(fmt[i], 10)
    ensures e == Run(fmt, i + 1, 10) && v == Value(fmt[i..e], 10)
  {
    var ch := fmt[i];
    e := i + 1;
    v := ch - ZERO;
    assert fmt[i..e] == [ch];
    OneDigitValue(ch);
    ch := fmt[e];
    while ZERO <= ch <= ZERO + 9
      invariant i < e < |fmt| && ch == fmt[e] && v >= 0
      invariant Run(fmt, e, 10) == Run(fmt, i + 1, 10) && v == Value(fmt[i..e], 10)
      decreases |fmt| - e
    {
      ValueNext(fmt, i, e, 10);
      v := v * 10 + ch - ZERO;
      e := e + 1;
      ch := fmt[e];
    }
  }

  lemma OneDigitValue(c: byte)
    requires IsDigit(c, 10)
    ensures Value([c], 10) == c - ZERO >= 0
  {
    assert [c][..0] == [];
  }

  /** Format into the size bytes at position at of an array: the output is cut to size - 1 characters and terminated,
      the rest of the array stays, and the result is the length of the whole output. */
  method Vsnprintf(str: array?<byte>, at: nat, size: nat, fmt: seq<byte>, args: Args) returns (r: int)
    requires Terminated(fmt) && (str != null ==> at + size <= str.Length)
    modifies if str == null then {} else {str}
    ensures str == null || size == 0 ==> r == -3 && (str != null ==> str[..] == old(str[..]))
    ensures str != null && size > 0 ==>
      var out := Output(fmt, 0, 0, args);
      r == |out| && str[..] == Cut(old(str[..]), at, size, out)
  {
    hide Output, Holds, Cut;
    if str == null || size == 0 { return -E_INVAL; }
    var b := new SprintBuf(str, at, size);
    b.Vprintfmt(fmt, args);
    ghost var mem := str[..];
    assert b.out == Output(fmt, 0, 0, args);
    HoldsEnd(mem, old(str[..]), at, size, b.out);
    str[b.buf] := 0;
    assert str[..] == mem[b.buf := 0];
    return b.cnt;
  }

  lemma OneDigit(num: nat, base: nat, width: int, padc: byte)
    requires 2 <= base <= 16
    ensures num >= base ==>
      Number(num, base, width, padc) == Number(Quot(num, base), base, width - 1, padc) + [DigitChar(Rem(num, base))]
    ensures num < base ==> Number(num, base, width, padc) == Pad(width - 1, padc) + [DigitChar(Rem(num, base))]
  {
    hide DigitChar;
    if num >= base {
      NumberStep(num, base, width, padc);
    }
  }

  /** The first min(length, size - 1) characters of the output from position at on, a zero byte, and every other byte of
      the array as it was. */
  lemma CutIs(initial: seq<byte>, at: nat, size: nat, out: seq<byte>, i: nat)
    requires size > 0 && at + size <= |initial| && i < |initial|
    ensures var r := Cut(initial, at, size, out);
      var m := if |out| < size - 1 then |out| else size - 1;
      && |r| == |initial|
      && r[i] == if at <= i < at + m then out[i - at] else if i == at + m then 0 else initial[i]
  {}

  /** Read back as a C string, the buffer holds the output or as much of it as fits; the bytes before and behind are
      those of the array it was written into, also within the buffer. */
  lemma CutReads(initial: seq<byte>, at: nat, size: nat, out: seq<byte>)
    requires size > 0 && at + size <= |initial| && Nonzero(out)
    ensures var r := Cut(initial, at, size, out);
      var t := CString(r[at..at + size]);
      && |r| == |initial| && t <= out && (|out| < size ==> t == out) && (|out| >= size ==> |t| == size - 1)
      && r[..at] == initial[..at] && r[at + |t| + 1..] == initial[at + |t| + 1..]
  {
    var r := Cut(initial, at, size, out);
    var m := if |out| < size - 1 then |out| else size - 1;
    var b := r[at..at + size];
    assert b[..m] == out[..m];
    forall k | 0 <= k < m
      ensures out[..m][k] != 0
    {
      assert out[k] in out;
    }
    CStringIs(b, out[..m]);
  }
}
