/** What a format string and its arguments stand for. */
module Format {
  import Wrappers
  import opened Bytes
  import opened Numerals
  import opened Strtol

  const PERCENT: byte := 37
  const HASH: byte := 35
  const STAR: byte := 42
  const DOT: byte := 46
  const LETTER_C: byte := 99
  const LETTER_D: byte := 100
  const LETTER_E: byte := 101
  const LETTER_L: byte := 108
  const LETTER_O: byte := 111
  const LETTER_P: byte := 112
  const LETTER_S: byte := 115
  const LETTER_U: byte := 117
  const QUESTION: byte := 63

  /** A width or precision: an int, from the digits of the format or from an argument. */
  type Field = x: int | -0x8000_0000 <= x

  /** A string in memory, without its terminator. */
  type Text = s: seq<byte> | Nonzero(s) && |s| < 0x8000_0000_0000_0000

  /** Variable arguments: the k-th as a 64-bit word, and the string it points to. */
  datatype Args = Args(word: nat -> nat, text: nat -> Wrappers.Option<Text>)

  /** Argument w read as an int. */
  function Int(w: nat): (r: int)
    ensures -0x8000_0000 <= r < 0x8000_0000
  {
    var m := w % W32;
    if m < 0x8000_0000 then m else m - W32
  }

  function GetInt(w: nat, lflag: nat): (r: int)
    ensures -0x8000_0000_0000_0000 <= r < 0x8000_0000_0000_0000
  {
    if lflag >= 1 then Signed64(w) else Int(w)
  }

  function GetUint(w: nat, lflag: nat): (r: nat)
    ensures r < W64
  {
    if lflag >= 1 then w % W64 else w % W32
  }

  datatype Flags = Flags(padc: byte, width: Field, precision: Field, lflag: nat, alt: bool)

  const START := Flags(SPACE, -1, -1, 0, false)

  /** A number in an escape is the width if there is none yet, else the precision. */
  function SetField(f: Flags, v: Field): Flags {
    if f.width < 0 then f.(width := v, precision := -1) else f.(precision := v)
  }

  datatype State = State(i: nat, k: nat, f: Flags)

  predicate IsFlag(c: byte) {
    c == MINUS || c == STAR || c == DOT || c == HASH || c == LETTER_L || IsDigit(c, 10)
  }

  /** The state after the flag, number or argument width at s.i. */
  function Flag(fmt: seq<byte>, s: State, args: Args): (r: State)
    requires Terminated(fmt) && s.i < |fmt| && IsFlag(fmt[s.i])
    ensures s.i < r.i < |fmt|
  {
    var c := fmt[s.i];
    NoFlag(fmt);
    if c == MINUS then State(s.i + 1, s.k, s.f.(padc := MINUS))
    else if c == ZERO then State(s.i + 1, s.k, s.f.(padc := ZERO))
    else if c == STAR then State(s.i + 1, s.k + 1, SetField(s.f, Int(args.word(s.k))))
    else if c == DOT then State(s.i + 1, s.k, if s.f.width < 0 then s.f.(width := 0) else s.f)
    else if c == HASH then State(s.i + 1, s.k, s.f.(alt := true))
    else if c == LETTER_L then State(s.i + 1, s.k, s.f.(lflag := s.f.lflag + 1))
    else
      var e := Run(fmt, s.i + 1, 10);
      RunDigits(fmt, s.i + 1, 10);
      DecimalNat(fmt[s.i..e]);
      State(e, s.k, SetField(s.f, Value(fmt[s.i..e], 10)))
  }

  lemma NoFlag(fmt: seq<byte>)
    requires Terminated(fmt)
    ensures !IsFlag(fmt[|fmt| - 1])
  {}

  lemma {:induction false} DecimalNat(s: seq<byte>)
    requires AllDigits(s, 10)
    ensures Value(s, 10) >= 0
  {
    ValueBound(s, 10);
  }

  lemma {:induction false} RunDigits(s: seq<byte>, i: nat, base: int)
    requires Terminated(s) && i < |s|
    ensures AllDigits(s[i..Run(s, i, base)], base)
    ensures i > 0 && IsDigit(s[i - 1], base) ==> AllDigits(s[i - 1..Run(s, i, base)], base)
    decreases |s| - i
  {
    var e := Run(s, i, base);
    if IsDigit(s[i], base) {
      RunDigits(s, i + 1, base);
    }
    if i > 0 && IsDigit(s[i - 1], base) {
      assert s[i - 1..e] == [s[i - 1]] + s[i..e];
    }
  }

  /** The state at the first character that is no flag. */
  function Scan(fmt: seq<byte>, s: State, args: Args): (r: State)
    requires Terminated(fmt) && s.i < |fmt|
    ensures s.i <= r.i < |fmt| && !IsFlag(fmt[r.i])
    decreases |fmt| - s.i
  {
    if IsFlag(fmt[s.i]) then Scan(fmt, Flag(fmt, s, args), args) else s
  }

  // ---- conversions ----

  predicate Known(c: byte) {
    c == LETTER_C || c == LETTER_E || c == LETTER_S || c == LETTER_D || c == LETTER_U || c == LETTER_O
    || c == LETTER_P || c == LOWER_X || c == PERCENT
  }

  const MAXERROR: nat := 24

  /** The characters of a string literal. */
  function Ascii(s: string): (r: Text)
    requires |s| < 100
  {
    seq(|s|, i requires 0 <= i < |s| => if 0 as char < s[i] < 128 as char then s[i] as int else QUESTION)
  }

  /** The error strings; there is none for 0, 7, 11 and 12. */
  function ErrorString(e: nat): (r: string)
    ensures |r| < 100
  {
    match e
    case 1 => "unspecified error"
    case 2 => "bad process"
    case 3 => "invalid parameter"
    case 4 => "out of memory"
    case 5 => "out of processes"
    case 6 => "segmentation fault"
    case 8 => "invalid elf file"
    case 9 => "process is killed"
    case 10 => "panic failure"
    case 13 => "no such device"
    case 14 => "device not available"
    case 15 => "device/file is busy"
    case 16 => "no such file or directory"
    case 17 => "is a directory"
    case 18 => "not a directory"
    case 19 => "cross device link"
    case 20 => "unimplemented feature"
    case 21 => "illegal seek"
    case 22 => "too many files are open"
    case 23 => "file or directory already exists"
    case 24 => "directory is not empty"
    case _ => ""
  }

  function ErrorText(e: nat): seq<byte> {
    if e > MAXERROR || ErrorString(e) == "" then Ascii("error ") + Number(e, 10, -1, SPACE) else Ascii(ErrorString(e))
  }

  /** How many characters of a string of length n a precision admits. */
  function Shown(n: nat, precision: Field): nat {
    if precision < 0 || precision > n then n else precision
  }

  /** With the '#' flag characters that cannot be printed are shown as question marks. */
  function Visible(c: byte, alt: bool): byte {
    if alt && !(SPACE <= c <= 126) then QUESTION else c
  }

  function Letters(t: seq<byte>, alt: bool): (r: seq<byte>)
    ensures |r| == |t|
  {
    seq(|t|, i requires 0 <= i < |t| => Visible(t[i], alt))
  }

  function StringText(t: seq<byte>, f: Flags): seq<byte> {
    var n := Shown(|t|, f.precision);
    var body := Letters(t[..n], f.alt);
    if f.padc == MINUS then body + Pad(f.width - n, SPACE) else Pad(f.width - n, f.padc) + body
  }

  /** The text of conversion c of argument k. */
  function Convert(c: byte, f: Flags, k: nat, args: Args): seq<byte>
    requires Known(c)
  {
    var w := args.word(k);
    if c == PERCENT then [PERCENT]
    else if c == LETTER_C then [w % 256]
    else if c == LETTER_E then ErrorText(Abs(Int(w)))
    else if c == LETTER_S then StringText(args.text(k).UnwrapOr(Ascii("(null)")), f)
    else if c == LETTER_D then Decimal(GetInt(w, f.lflag), f.width, f.padc)
    else if c == LETTER_U then Number(GetUint(w, f.lflag), 10, f.width, f.padc)
    else if c == LETTER_O then Number(GetUint(w, f.lflag), 8, f.width, f.padc)
    else if c == LETTER_P then Pointer(w % W64, f.width, f.padc)
    else Number(GetUint(w, f.lflag), 16, f.width, f.padc)
  }

  /** The output for the rest of the format at i, the arguments from k on being left. An escape that ends in an unknown
      character prints the '%' alone; what follows it is text, and arguments it used up stay used. */
  function Output(fmt: seq<byte>, i: nat, k: nat, args: Args): seq<byte>
    requires Terminated(fmt) && i < |fmt|
    decreases |fmt| - i
  {
    if fmt[i] == 0 then []
    else if fmt[i] != PERCENT then [fmt[i]] + Output(fmt, i + 1, k, args)
    else
      var s := Scan(fmt, State(i + 1, k, START), args);
      var c := fmt[s.i];
      if Known(c) then Convert(c, s.f, s.k, args) + Output(fmt, s.i + 1, if c == PERCENT then s.k else s.k + 1, args)
      else [PERCENT] + Output(fmt, i + 1, s.k, args)
  }

  // ---- the escapes, byte by byte ----

  /** What each flag does: '-' (45), '0' (48), '#' (35), 'l' (108), '.' (46) and '*' (42), which takes an argument as a
      signed 32-bit number for the width if there is none, else for the precision. */
  lemma FlagLaw(fmt: seq<byte>, s: State, args: Args)
    requires Terminated(fmt) && s.i + 1 < |fmt|
    ensures var c, f, next := fmt[s.i], s.f, s.i + 1;
      var w := args.word(s.k) % 0x1_0000_0000;
      var v := if w < 0x8000_0000 then w else w - 0x1_0000_0000;
      && (c == 45 ==> Scan(fmt, s, args) == Scan(fmt, State(next, s.k, f.(padc := 45)), args))
      && (c == 48 ==> Scan(fmt, s, args) == Scan(fmt, State(next, s.k, f.(padc := 48)), args))
      && (c == 35 ==> Scan(fmt, s, args) == Scan(fmt, State(next, s.k, f.(alt := true)), args))
      && (c == 108 ==> Scan(fmt, s, args) == Scan(fmt, State(next, s.k, f.(lflag := f.lflag + 1)), args))
      && (c == 46 ==> Scan(fmt, s, args) == Scan(fmt, State(next, s.k, f.(width := if f.width < 0 then 0 else f.width)), args))
      && (c == 42 ==> Scan(fmt, s, args) == Scan(fmt, State(next, s.k + 1,
            if f.width < 0 then f.(width := v, precision := -1) else f.(precision := v)), args))
  {
    hide Run, Value;
  }

  /** Every byte but these and the digits ends the flags. */
  lemma FlagsEnd(fmt: seq<byte>, s: State, args: Args)
    requires Terminated(fmt) && s.i < |fmt|
    ensures var c := fmt[s.i];
      c != 45 && c != 35 && c != 108 && c != 46 && c != 42 && !(48 <= c <= 57) ==> Scan(fmt, s, args) == s
    ensures var c := fmt[Scan(fmt, s, args).i];
      c != 45 && c != 35 && c != 108 && c != 46 && c != 42 && !(48 <= c <= 57)
  {}

  /** The number an argument word stands for: its lower 32 bits, or with an l flag all 64. */
  function Unsigned(w: nat, long: bool): nat {
    if long then w % 0x1_0000_0000_0000_0000 else w % 0x1_0000_0000
  }

  /** The same in two's complement. */
  function Twos(w: nat, long: bool): int {
    var n := Unsigned(w, long);
    if long then if n < 0x8000_0000_0000_0000 then n else n - 0x1_0000_0000_0000_0000
    else if n < 0x8000_0000 then n else n - 0x1_0000_0000
  }

  lemma ArgumentIs(w: nat, lflag: nat)
    ensures GetUint(w, lflag) == Unsigned(w, lflag > 0) && GetInt(w, lflag) == Twos(w, lflag > 0)
  {}

  /** What each conversion prints, for the flags read, and where the format goes on: "%%" (37), %c (99), %d (100),
      %u (117), %o (111), %x (120), %p (112), %e (101), %s (115), and any other byte. */
  lemma EscapeLaw(fmt: seq<byte>, i: nat, k: nat, args: Args)
    requires Terminated(fmt) && i + 1 < |fmt| && fmt[i] == 37
    ensures var s := Scan(fmt, State(i + 1, k, Flags(32, -1, -1, 0, false)), args);
      var c, f, w, out := fmt[s.i], s.f, args.word(s.k), Output(fmt, i, k, args);
      var n, v := Unsigned(w, f.lflag > 0), Twos(w, f.lflag > 0);
      && (c in {37, 99, 100, 101, 111, 112, 115, 117, 120} ==>
            && s.i + 1 < |fmt|
            && var rest := Output(fmt, s.i + 1, if c == 37 then s.k else s.k + 1, args);
               && (c == 37 ==> out == [37] + rest)
               && (c == 99 ==> out == [w % 256] + rest)
               && (c == 100 ==> out == (if v < 0 then [45] else []) + Number(if v < 0 then -v else v, 10, f.width, f.padc) + rest)
               && (c == 117 ==> out == Number(n, 10, f.width, f.padc) + rest)
               && (c == 111 ==> out == Number(n, 8, f.width, f.padc) + rest)
               && (c == 120 ==> out == Number(n, 16, f.width, f.padc) + rest)
               && (c == 112 ==> out == [48, 120] + Number(w % 0x1_0000_0000_0000_0000, 16, f.width, f.padc) + rest)
               && (c == 101 ==> var e := Twos(w, false); out == ErrorText(if e < 0 then -e else e) + rest)
               && (c == 115 ==> out == StringText(args.text(s.k).UnwrapOr(Ascii("(null)")), f) + rest))
      && (c !in {37, 99, 100, 101, 111, 112, 115, 117, 120} ==> out == [37] + Output(fmt, i + 1, s.k, args))
  {
    hide Scan, Number, ErrorText, StringText, Ascii, GetInt, GetUint, Twos, Unsigned, Int;
    var s := Scan(fmt, State(i + 1, k, START), args);
    var w := args.word(s.k);
    ArgumentIs(w, s.f.lflag);
    IntIs(w);
  }

  lemma IntIs(w: nat)
    ensures Int(w) == Twos(w, false)
  {}

  /** Where each character of a shown string stands: with '-' padding the string first and spaces behind it, otherwise
      the padding first; under '#' question marks for what is below 32 or above 126. */
  lemma StringChar(t: seq<byte>, f: Flags, p: nat)
    requires p < |StringText(t, f)|
    ensures var n := if f.precision < 0 || f.precision > |t| then |t| else f.precision;
      var before := if f.padc == 45 || f.width < n then 0 else f.width - n;
      if p < before then StringText(t, f)[p] == f.padc
      else if p < before + n then
        var c := t[p - before];
        StringText(t, f)[p] == if f.alt && (c < 32 || c > 126) then 63 else c
      else f.padc == 45 && StringText(t, f)[p] == 32
  {}

  /** The characters of a literal are its ASCII codes. */
  lemma AsciiLaw(s: string, i: nat)
    requires i < |s| < 100 && 0 < s[i] as int < 128
    ensures |Ascii(s)| == |s| && Ascii(s)[i] == s[i] as int
  {}

  /** What %e prints for each error number. */
  lemma ErrorLaw(e: nat)
    ensures e == 1 ==> ErrorText(e) == Ascii("unspecified error")
    ensures e == 2 ==> ErrorText(e) == Ascii("bad process")
    ensures e == 3 ==> ErrorText(e) == Ascii("invalid parameter")
    ensures e == 4 ==> ErrorText(e) == Ascii("out of memory")
    ensures e == 5 ==> ErrorText(e) == Ascii("out of processes")
    ensures e == 6 ==> ErrorText(e) == Ascii("segmentation fault")
    ensures e == 8 ==> ErrorText(e) == Ascii("invalid elf file")
    ensures e == 9 ==> ErrorText(e) == Ascii("process is killed")
    ensures e == 10 ==> ErrorText(e) == Ascii("panic failure")
    ensures e == 13 ==> ErrorText(e) == Ascii("no such device")
    ensures e == 14 ==> ErrorText(e) == Ascii("device not available")
    ensures e == 15 ==> ErrorText(e) == Ascii("device/file is busy")
    ensures e == 16 ==> ErrorText(e) == Ascii("no such file or directory")
    ensures e == 17 ==> ErrorText(e) == Ascii("is a directory")
    ensures e == 18 ==> ErrorText(e) == Ascii("not a directory")
    ensures e == 19 ==> ErrorText(e) == Ascii("cross device link")
    ensures e == 20 ==> ErrorText(e) == Ascii("unimplemented feature")
    ensures e == 21 ==> ErrorText(e) == Ascii("illegal seek")
    ensures e == 22 ==> ErrorText(e) == Ascii("too many files are open")
    ensures e == 23 ==> ErrorText(e) == Ascii("file or directory already exists")
    ensures e == 24 ==> ErrorText(e) == Ascii("directory is not empty")
    ensures e == 0 || e == 7 || e == 11 || e == 12 || e > 24 ==> ErrorText(e) == Ascii("error ") + Numeral(e, 10)
  {
    hide Ascii, Numeral;
  }

  // ---- the l flag ----

  lemma {:induction false} LongFlags(fmt: seq<byte>, s: State, j: nat, args: Args)
    requires Terminated(fmt) && s.i + j < |fmt| && (forall p :: s.i <= p < s.i + j ==> fmt[p] == 108)
    requires !IsFlag(fmt[s.i + j])
    ensures Scan(fmt, s, args) == State(s.i + j, s.k, s.f.(lflag := s.f.lflag + j))
    decreases j
  {
    hide Run, Value;
    if j > 0 {
      LongFlags(fmt, State(s.i + 1, s.k, s.f.(lflag := s.f.lflag + 1)), j - 1, args);
    }
  }

  /** The format of '%', j letters l and a conversion c prints the shortest numeral of the lower 32 bits of the argument,
      or of all 64 if j > 0, in decimal (u), octal (o) or hexadecimal (x); for d, of its absolute value in two's
      complement, behind a '-' if it is negative. */
  lemma LongLaw(fmt: seq<byte>, j: nat, c: byte, args: Args)
    requires Terminated(fmt) && |fmt| == j + 3 && fmt[0] == 37 && fmt[j + 1] == c && c in {100, 111, 117, 120}
    requires forall p :: 1 <= p <= j ==> fmt[p] == 108
    ensures var out, w := Output(fmt, 0, 0, args), args.word(0);
      var n := if j == 0 then w % 0x1_0000_0000 else w % 0x1_0000_0000_0000_0000;
      && (c == 117 ==> out == Numeral(n, 10) && Value(out, 10) == n)
      && (c == 111 ==> out == Numeral(n, 8) && Value(out, 8) == n)
      && (c == 120 ==> out == Numeral(n, 16) && Value(out, 16) == n)
      && (c == 100 ==>
            var half := if j == 0 then 0x8000_0000 else 0x8000_0000_0000_0000;
            if n < half then out == Numeral(n, 10) && Value(out, 10) == n
            else out == [45] + Numeral(2 * half - n, 10) && Value(out[1..], 10) == 2 * half - n)
  {
    hide Scan, Number, Numeral, Value, Output, ErrorText, StringText, Ascii, IsFlag;
    LetterIsNoFlag(c);
    LongFlags(fmt, State(1, 0, Flags(32, -1, -1, 0, false)), j, args);
    EscapeLaw(fmt, 0, 0, args);
    var w := args.word(0);
    var n, v := Unsigned(w, j > 0), Twos(w, j > 0);
    EmptyAtEnd(fmt, args);
    Bare(n, 10);
    Bare(n, 8);
    Bare(n, 16);
    Bare(if v < 0 then -v else v, 10);
  }

  lemma LetterIsNoFlag(c: byte)
    ensures c in {100, 111, 117, 120} ==> !IsFlag(c)
  {}

  lemma EmptyAtEnd(fmt: seq<byte>, args: Args)
    requires Terminated(fmt)
    ensures Output(fmt, |fmt| - 1, 1, args) == []
  {}

  /** Without a width the number is its numeral. */
  lemma Bare(n: nat, base: nat)
    requires 2 <= base <= 16
    ensures Number(n, base, -1, SPACE) == Numeral(n, base) && Value(Numeral(n, base), base) == n
  {
    NumeralValue(n, base);
  }

  // ---- text is echoed ----

  /** Text up to an escape, or up to the end, is copied. */
  lemma {:induction false} TextIsCopied(fmt: seq<byte>, i: nat, j: nat, k: nat, args: Args)
    requires Terminated(fmt) && i <= j < |fmt| && PERCENT !in fmt[i..j]
    ensures Output(fmt, i, k, args) == fmt[i..j] + Output(fmt, j, k, args)
    decreases j - i
  {
    hide Scan, Known, Convert;
    if i < j {
      assert fmt[i] in fmt[i..j];
      assert fmt[i..j] == [fmt[i]] + fmt[i + 1..j];
      TextIsCopied(fmt, i + 1, j, k, args);
      assert fmt[i] in fmt[..|fmt| - 1];
      assert Output(fmt, i, k, args) == [fmt[i]] + Output(fmt, i + 1, k, args);
      assert fmt[i..j] + Output(fmt, j, k, args) == [fmt[i]] + (fmt[i + 1..j] + Output(fmt, j, k, args));
    } else {
      assert fmt[i..j] == [];
    }
  }

  lemma {:induction false} ScanNoPercent(fmt: seq<byte>, s: State, args: Args)
    requires Terminated(fmt) && s.i < |fmt|
    ensures PERCENT !in fmt[s.i..Scan(fmt, s, args).i]
    decreases |fmt| - s.i
  {
    if IsFlag(fmt[s.i]) {
      var t := Flag(fmt, s, args);
      var e := Scan(fmt, t, args).i;
      ScanNoPercent(fmt, t, args);
      FlagNoPercent(fmt, s, args);
      assert fmt[s.i..e] == fmt[s.i..t.i] + fmt[t.i..e];
    }
  }

  lemma FlagNoPercent(fmt: seq<byte>, s: State, args: Args)
    requires Terminated(fmt) && s.i < |fmt| && IsFlag(fmt[s.i])
    ensures PERCENT !in fmt[s.i..Flag(fmt, s, args).i]
  {
    RunDigits(fmt, s.i + 1, 10);
  }

  /** An escape that ends in an unknown character, or at the end of the format, is printed as it stands. */
  lemma UnknownIsEchoed(fmt: seq<byte>, i: nat, k: nat, args: Args)
    requires Terminated(fmt) && i < |fmt| && fmt[i] == PERCENT
    ensures var s := Scan(fmt, State(i + 1, k, START), args);
      !Known(fmt[s.i]) ==> Output(fmt, i, k, args) == fmt[i..s.i] + Output(fmt, s.i, s.k, args)
  {
    hide Scan, Known, Output;
    var s := Scan(fmt, State(i + 1, k, START), args);
    if !Known(fmt[s.i]) {
      UnknownStep(fmt, i, k, args);
      ScanNoPercent(fmt, State(i + 1, k, START), args);
      TextIsCopied(fmt, i + 1, s.i, s.k, args);
      assert fmt[i..s.i] + Output(fmt, s.i, s.k, args) == [PERCENT] + (fmt[i + 1..s.i] + Output(fmt, s.i, s.k, args));
    }
  }

  lemma UnknownStep(fmt: seq<byte>, i: nat, k: nat, args: Args)
    requires Terminated(fmt) && i < |fmt| && fmt[i] == PERCENT
    ensures var s := Scan(fmt, State(i + 1, k, START), args);
      !Known(fmt[s.i]) ==> Output(fmt, i, k, args) == [PERCENT] + Output(fmt, i + 1, s.k, args)
  {
    hide Scan, Known;
  }

  // ---- widths and precisions ----

  /** A string takes as many characters as its width, or as it shows, whichever is more. */
  lemma StringLength(t: seq<byte>, f: Flags)
    ensures var n := Shown(|t|, f.precision); |StringText(t, f)| == if f.width > n then f.width else n
  {
    assert |t[..Shown(|t|, f.precision)]| == Shown(|t|, f.precision);
  }

  lemma {:induction false} RunIs(fmt: seq<byte>, i: nat, e: nat)
    requires Terminated(fmt) && i <= e < |fmt| && AllDigits(fmt[i..e], 10) && !IsDigit(fmt[e], 10)
    ensures Run(fmt, i, 10) == e
  {
    forall k | i <= k < e
      ensures IsDigit(fmt[k], 10)
    {
      assert fmt[k] in fmt[i..e];
    }
    RunTo(fmt, i, e, 10);
  }

  /** A number that does not start with zero is one field. */
  lemma FieldScan(fmt: seq<byte>, s: State, e: nat, args: Args)
    requires Terminated(fmt) && s.i < e < |fmt| && fmt[s.i] != ZERO
    requires AllDigits(fmt[s.i..e], 10) && !IsDigit(fmt[e], 10)
    ensures Value(fmt[s.i..e], 10) >= 0
    ensures var v := Value(fmt[s.i..e], 10);
      Scan(fmt, s, args)
        == Scan(fmt, State(e, s.k, if s.f.width < 0 then s.f.(width := v, precision := -1) else s.f.(precision := v)), args)
  {
    hide Value;
    assert fmt[s.i] in fmt[s.i..e];
    RunIs(fmt, s.i, e);
    DecimalNat(fmt[s.i..e]);
    assert Flag(fmt, s, args).i == e;
  }

  lemma {:induction false} ValuePositive(t: seq<byte>)
    requires AllDigits(t, 10) && t != [] && t[0] != ZERO
    ensures Value(t, 10) > 0
  {
    var u := t[..|t| - 1];
    assert IsDigit(t[|t| - 1], 10);
    if u != [] {
      assert u[0] == t[0];
      ValuePositive(u);
    } else {
      assert Value(u, 10) == 0;
    }
  }

  /** The flags after a run of digits of value v that starts with c: leading zeros ask for zero padding, the rest is a
      field. */
  function AfterDigits(f: Flags, zero: bool, v: Field): Flags {
    var g := if zero then f.(padc := ZERO) else f;
    if v == 0 then g else SetField(g, v)
  }

  /** Every run of digits: leading zeros are flags, and a field is read iff the value is not 0. */
  lemma {:induction false} DigitsScan(fmt: seq<byte>, s: State, e: nat, args: Args)
    requires Terminated(fmt) && s.i <= e < |fmt| && AllDigits(fmt[s.i..e], 10) && !IsDigit(fmt[e], 10)
    ensures Value(fmt[s.i..e], 10) >= 0
    ensures Scan(fmt, s, args)
         == Scan(fmt, State(e, s.k, AfterDigits(s.f, s.i < e && fmt[s.i] == ZERO, Value(fmt[s.i..e], 10))), args)
    decreases e - s.i
  {
    hide Value, Run, Scan, Flag;
    DecimalNat(fmt[s.i..e]);
    if s.i == e {
      assert fmt[s.i..e] == [];
      ValueNone(10);
    } else if fmt[s.i] == ZERO {
      var t := State(s.i + 1, s.k, s.f.(padc := ZERO));
      ZeroFlag(fmt, s, args);
      assert fmt[s.i..e] == Pad(1, ZERO) + fmt[s.i + 1..e];
      ValueZeros(fmt[s.i + 1..e], 10, 1);
      DigitsScan(fmt, t, e, args);
    } else {
      ValuePositive(fmt[s.i..e]);
      FieldScan(fmt, s, e, args);
    }
  }

  lemma ZeroFlag(fmt: seq<byte>, s: State, args: Args)
    requires Terminated(fmt) && s.i + 1 < |fmt| && fmt[s.i] == ZERO
    ensures Scan(fmt, s, args) == Scan(fmt, State(s.i + 1, s.k, s.f.(padc := ZERO)), args)
  {
    hide Run, Value;
  }

  lemma DotFlag(fmt: seq<byte>, s: State, args: Args)
    requires Terminated(fmt) && s.i + 1 < |fmt| && fmt[s.i] == DOT
    ensures Scan(fmt, s, args)
         == Scan(fmt, State(s.i + 1, s.k, if s.f.width < 0 then s.f.(width := 0) else s.f), args)
  {
    hide Run, Value;
  }

  /** Behind the dot a run of digits is the precision, unless its value is 0: then there is none, and a first digit 0
      asks for zero padding. */
  lemma PrecisionScan(fmt: seq<byte>, s: State, e: nat, args: Args)
    requires Terminated(fmt) && s.f.width >= 0 && s.i <= e < |fmt| && AllDigits(fmt[s.i..e], 10) && !IsFlag(fmt[e])
    ensures var v := Value(fmt[s.i..e], 10);
      && v >= 0
      && Scan(fmt, s, args) == State(e, s.k, s.f.(padc := if s.i < e && fmt[s.i] == ZERO then ZERO else s.f.padc,
                                                  precision := if v == 0 then s.f.precision else v))
      && (Scan(fmt, s, args).f.precision == v <==> v != 0 || s.f.precision == 0)
  {
    hide Value;
    DigitsScan(fmt, s, e, args);
  }

  /** A width, a dot and a precision, each of any number of digits: the width is always read with its decimal value,
      and the precision iff its value is not 0. */
  lemma WidthAndPrecision(fmt: seq<byte>, s: State, d: nat, e: nat, args: Args)
    requires Terminated(fmt) && s.f.width < 0 && s.f.precision < 0 && s.i <= d < e < |fmt|
    requires AllDigits(fmt[s.i..d], 10) && fmt[d] == DOT && AllDigits(fmt[d + 1..e], 10) && !IsFlag(fmt[e])
    ensures var w, p := Value(fmt[s.i..d], 10), Value(fmt[d + 1..e], 10);
      var r := Scan(fmt, s, args);
      && w >= 0 && p >= 0 && r.i == e && r.k == s.k && r.f.lflag == s.f.lflag && r.f.alt == s.f.alt
      && r.f.padc == (if (s.i < d && fmt[s.i] == ZERO) || (d + 1 < e && fmt[d + 1] == ZERO) then ZERO else s.f.padc)
      && r.f.width == w && (if p == 0 then r.f.precision < 0 else r.f.precision == p)
      && (r.f.precision == p <==> p != 0)
  {
    hide Value, Scan;
    assert !IsDigit(DOT, 10);
    DigitsScan(fmt, s, d, args);
    var f1 := AfterDigits(s.f, s.i < d && fmt[s.i] == ZERO, Value(fmt[s.i..d], 10));
    DotFlag(fmt, State(d, s.k, f1), args);
    PrecisionScan(fmt, State(d + 1, s.k, if f1.width < 0 then f1.(width := 0) else f1), e, args);
  }

  lemma WholeString(t: seq<byte>, f: Flags)
    requires f.width <= 0 && f.precision < 0 && !f.alt
    ensures StringText(t, f) == t
  {
    assert t[..|t|] == t && Letters(t, false) == t;
  }

  /** The %s conversion at i, behind flags, shows argument k. */
  lemma StringEscape(fmt: seq<byte>, i: nat, k: nat, args: Args)
    requires Terminated(fmt) && i < |fmt| && fmt[i] == PERCENT
    ensures var s := Scan(fmt, State(i + 1, k, START), args);
      fmt[s.i] == LETTER_S ==>
        && s.i + 1 < |fmt|
        && Output(fmt, i, k, args)
             == StringText(args.text(s.k).UnwrapOr(Ascii("(null)")), s.f) + Output(fmt, s.i + 1, s.k + 1, args)
  {
    hide Scan, StringText, Ascii;
  }

  /** A %s with a dot, digits, and no other flag: it shows as many characters as the digits say iff their value is
      not 0 or the string is empty; otherwise it shows the whole string. */
  lemma StringPrecision(fmt: seq<byte>, i: nat, e: nat, k: nat, args: Args)
    requires Terminated(fmt) && i + 2 <= e < |fmt| && fmt[i] == PERCENT && fmt[i + 1] == DOT && fmt[e] == LETTER_S
    requires AllDigits(fmt[i + 2..e], 10)
    ensures var p := Value(fmt[i + 2..e], 10);
      var t := args.text(k).UnwrapOr(Ascii("(null)"));
      var rest := Output(fmt, e + 1, k + 1, args);
      && p >= 0
      && Output(fmt, i, k, args) == (if p == 0 then t else t[..Shown(|t|, p)]) + rest
      && (Output(fmt, i, k, args) == t[..Shown(|t|, p)] + rest <==> p != 0 || t == [])
  {
    hide Scan, StringText, Ascii, Value;
    assert fmt[i + 1..i + 1] == [];
    ValueNone(10);
    WidthAndPrecision(fmt, State(i + 1, k, START), i + 1, e, args);
    StringEscape(fmt, i, k, args);
    ShownString(args.text(k).UnwrapOr(Ascii("(null)")), Scan(fmt, State(i + 1, k, START), args).f);
  }

  lemma ShownString(t: seq<byte>, f: Flags)
    requires f.width <= 0 && !f.alt
    ensures StringText(t, f) == t[..Shown(|t|, f.precision)]
  {
    var n := Shown(|t|, f.precision);
    assert Letters(t[..n], false) == t[..n];
  }

  /** In particular a zero after the dot is a flag and no precision. */
  lemma ZeroPrecision(fmt: seq<byte>, i: nat, k: nat, args: Args)
    requires Terminated(fmt) && i + 4 < |fmt| && fmt[i..i + 4] == [PERCENT, DOT, ZERO, LETTER_S]
    ensures Output(fmt, i, k, args) == args.text(k).UnwrapOr(Ascii("(null)")) + Output(fmt, i + 4, k + 1, args)
  {
    hide Output, Ascii;
    var q := fmt[i..i + 4];
    assert fmt[i] == q[0] && fmt[i + 1] == q[1] && fmt[i + 2] == q[2] && fmt[i + 3] == q[3];
    assert fmt[i + 2..i + 3] == Pad(1, ZERO) + [];
    ValueZeros([], 10, 1);
    ValueNone(10);
    StringPrecision(fmt, i, i + 3, k, args);
  }

  /** The output of a format that is one %s escape is as long as its width, or as what its precision admits of the
      string, whichever is more. */
  lemma StringOutputLength(fmt: seq<byte>, args: Args)
    requires Terminated(fmt) && fmt[0] == PERCENT
    ensures var s := Scan(fmt, State(1, 0, START), args);
      fmt[s.i] == LETTER_S && fmt[s.i + 1] == 0 ==>
        var n := Shown(|args.text(s.k).UnwrapOr(Ascii("(null)"))|, s.f.precision);
        |Output(fmt, 0, 0, args)| == if s.f.width > n then s.f.width else n
  {
    hide Scan, StringText, Ascii;
    var s := Scan(fmt, State(1, 0, START), args);
    if fmt[s.i] == LETTER_S && fmt[s.i + 1] == 0 {
      StringEscape(fmt, 0, 0, args);
      StringLength(args.text(s.k).UnwrapOr(Ascii("(null)")), s.f);
    }
  }

  /** For the format "%W.Ps" that is max(W, min(length, P)), or max(W, length) if P is 0. */
  lemma WidthPrecisionLength(fmt: seq<byte>, d: nat, e: nat, args: Args)
    requires Terminated(fmt) && 1 <= d < e < |fmt| - 1 && fmt[0] == PERCENT && fmt[d] == DOT && fmt[e] == LETTER_S
    requires AllDigits(fmt[1..d], 10) && AllDigits(fmt[d + 1..e], 10) && e == |fmt| - 2
    ensures var w, p := Value(fmt[1..d], 10), Value(fmt[d + 1..e], 10);
      var len := |args.text(0).UnwrapOr(Ascii("(null)"))|;
      var n := if 0 < p < len then p else len;
      |Output(fmt, 0, 0, args)| == if w > n then w else n
  {
    hide Scan, Output, Ascii, Value;
    WidthAndPrecision(fmt, State(1, 0, START), d, e, args);
    StringOutputLength(fmt, args);
  }

  // ---- printing and parsing ----

  lemma {:induction false} ScanPadding(fmt: seq<byte>, s: State, args: Args)
    requires Terminated(fmt) && s.i < |fmt| && s.f.padc in {SPACE, ZERO, MINUS}
    ensures Scan(fmt, s, args).f.padc in {SPACE, ZERO, MINUS}
    decreases |fmt| - s.i
  {
    if IsFlag(fmt[s.i]) {
      ScanPadding(fmt, Flag(fmt, s, args), args);
    }
  }

  /** The output of a format that is one numeric escape, whatever its flags, parses back iff its padding lets it:
      unsigned numbers as 64-bit patterns, signed ones as themselves, pointers with base 0. */
  lemma PrintedNumbersParse(fmt: seq<byte>, args: Args)
    requires Terminated(fmt) && fmt[0] == PERCENT
    ensures var s := Scan(fmt, State(1, 0, START), args);
      var c := fmt[s.i];
      var out, w := Output(fmt, 0, 0, args), args.word(s.k);
      Known(c) && c != PERCENT && fmt[s.i + 1] == 0 ==>
        && ((c == LETTER_U || c == LETTER_O || c == LOWER_X) ==>
              var base := if c == LETTER_U then 10 else if c == LETTER_O then 8 else 16;
              var n := GetUint(w, s.f.lflag);
              && Terminated(out + [0])
              && (Parse(out + [0], base) == (Signed64(n), |out|) <==> Readable(n, base, s.f.width, s.f.padc)))
        && (c == LETTER_D ==>
              var v := GetInt(w, s.f.lflag);
              && Terminated(out + [0])
              && (Parse(out + [0], 10) == (v, |out|) <==>
                    if v >= 0 then Readable(v, 10, s.f.width, s.f.padc) else Unpadded(-v, 10, s.f.width, s.f.padc)))
        && (c == LETTER_P ==>
              && Terminated(out + [0])
              && (Parse(out + [0], 0) == (Signed64(w % W64), |out|) <==> Unpadded(w % W64, 16, s.f.width, s.f.padc)))
  {
    hide Scan, Parse, Number, Decimal, Pointer, Signed64, Unpadded, Readable, ErrorText, StringText, GetInt, GetUint, IsFlag;
    var s := Scan(fmt, State(1, 0, START), args);
    var c := fmt[s.i];
    ScanPadding(fmt, State(1, 0, START), args);
    if Known(c) && c != PERCENT && fmt[s.i + 1] == 0 {
      LastEscape(fmt, args);
      var w := args.word(s.k);
      if c == LETTER_D {
        DecimalRoundTrip(GetInt(w, s.f.lflag), s.f.width, s.f.padc);
      } else if c == LETTER_P {
        PointerRoundTrip(w % W64, s.f.width, s.f.padc);
      } else if c == LETTER_U || c == LETTER_O || c == LOWER_X {
        ReadableIff(GetUint(w, s.f.lflag), if c == LETTER_U then 10 else if c == LETTER_O then 8 else 16,
                    s.f.width, s.f.padc);
      }
    }
  }

  lemma LastEscape(fmt: seq<byte>, args: Args)
    requires Terminated(fmt) && fmt[0] == PERCENT
    ensures var s := Scan(fmt, State(1, 0, START), args);
      Known(fmt[s.i]) && fmt[s.i] != PERCENT && fmt[s.i + 1] == 0 ==>
        Output(fmt, 0, 0, args) == Convert(fmt[s.i], s.f, s.k, args)
  {
    hide Scan, Convert;
  }

  /** A conversion without flags at the end of the format. */
  lemma BareEscape(fmt: seq<byte>, i: nat, k: nat, args: Args)
    requires Terminated(fmt) && i + 2 < |fmt| && fmt[i] == PERCENT && Known(fmt[i + 1]) && fmt[i + 2] == 0
    ensures Output(fmt, i, k, args) == Convert(fmt[i + 1], START, k, args)
  {
    hide Convert, Flag;
    assert !IsFlag(fmt[i + 1]);
    assert Scan(fmt, State(i + 1, k, START), args) == State(i + 1, k, START);
    assert Output(fmt, i + 2, k, args) == Output(fmt, i + 2, k + 1, args) == [];
  }

  /** The formats that the error conversion passes on. */
  lemma ErrorFormats(e: nat, text: Text, args: Args)
    requires e < 0x8000_0000 && args.word(0) == e && args.text(0) == Wrappers.Some(text)
    ensures Output(Ascii("error %d") + [0], 0, 0, args) == Ascii("error ") + Number(e, 10, -1, SPACE)
    ensures Output(Ascii("%s") + [0], 0, 0, args) == text
  {
    hide Number, Scan, Output, StringText;
    var f := Ascii("error %d") + [0];
    assert f[..6] == Ascii("error ");
    assert f[6] == PERCENT && f[7] == LETTER_D && f[8] == 0;
    TextIsCopied(f, 0, 6, 0, args);
    BareEscape(f, 6, 0, args);
    var g := Ascii("%s") + [0];
    assert g[0] == PERCENT && g[1] == LETTER_S && g[2] == 0;
    BareEscape(g, 0, 0, args);
    WholeString(text, START);
  }
}
