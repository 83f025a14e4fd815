/** What the kernel's formatted output means: the characters a format and its arguments stand
    for, without any limit (kernel/lib/printf.c). */
module Format {
  import opened Common
  import opened Numerals

  /** An argument as passed: a 64-bit word, or a string, where None is a null pointer. */
  datatype Arg = Word(w: nat) | Text(s: Option<string>)

  // ----- One conversion -----

  function Repeat(c: char, n: int): (s: string)
    ensures |s| == if n > 0 then n else 0
    decreases n
  {
    if n <= 0 then "" else Repeat(c, n - 1) + [c]
  }

  /** ctx_write_str. */
  function StringText(s: Option<string>, width: int, prec: int, left: bool, zero: bool): string {
    var t := if s.None? then "(null)" else s.value;
    var cut := if 0 <= prec < |t| then t[..prec] else t;
    if left then cut + Repeat(' ', width - |cut|)
    else Repeat(if zero then '0' else ' ', width - |cut|) + cut
  }

  datatype Style = Style(base: nat, upper: bool, left: bool, zero: bool, alt: bool)

  /** The sign, `0x`, or the zero of `%#o`, which looks at the last digit. */
  function PrefixText(v: nat, neg: bool, style: Style): string {
    if neg then "-"
    else if style.alt && style.base == 16 then if style.upper then "0X" else "0x"
    else if style.alt && style.base == 8 && v % 8 != 0 then "0"
    else ""
  }

  /** fmt_int. */
  function IntText(v: nat, neg: bool, style: Style, width: int, prec: int): string
    requires 2 <= style.base <= 16
  {
    var prefix, digits := PrefixText(v, neg, style), Digits(v, style.base, style.upper);
    var zeros := Repeat('0', prec - |digits|);
    var pad := width - (|prefix| + |zeros| + |digits|);
    if style.left then prefix + zeros + digits + Repeat(' ', pad)
    else if style.zero && prec < 0 then prefix + Repeat('0', pad) + zeros + digits
    else Repeat(' ', pad) + prefix + zeros + digits
  }

  // ----- Directives -----

  datatype Flags = Flags(left: bool, zero: bool, alt: bool)

  predicate IsFlag(c: char) { c == '-' || c == '0' || c == '#' || c == ' ' || c == '+' }

  function WithFlag(fl: Flags, c: char): Flags {
    if c == '-' then fl.(left := true)
    else if c == '0' then fl.(zero := true)
    else if c == '#' then fl.(alt := true)
    else fl
  }

  function ReadFlags(f: string, fl: Flags): (r: (Flags, string))
    ensures |r.1| <= |f|
  {
    if f != "" && IsFlag(f[0]) then ReadFlags(f[1..], WithFlag(fl, f[0])) else (fl, f)
  }

  function ReadNumber(f: string, acc: int): (r: (int, string))
    ensures |r.1| <= |f|
    decreases |f|
  {
    if f != "" && IsDigit(f[0]) then ReadNumber(f[1..], acc * 10 + (f[0] as int - '0' as int)) else (acc, f)
  }

  /** The next argument as a 64-bit word; 0 if there is none of that kind. */
  function HeadWord(args: seq<Arg>): nat {
    if args != [] && args[0].Word? then args[0].w % 0x1_0000_0000_0000_0000 else 0
  }

  function HeadText(args: seq<Arg>): Option<string> { if args != [] && args[0].Text? then args[0].s else None }

  function Rest(args: seq<Arg>): seq<Arg> { if args == [] then [] else args[1..] }

  function Signed(w: nat, half: nat): int { if w < half then w else w - 2 * half }

  function HeadInt(args: seq<Arg>): int { Signed(HeadWord(args) % 0x1_0000_0000, 0x8000_0000) }

  /** A number or a star; the value, what follows, and the arguments left. */
  function ReadStar(f: string, args: seq<Arg>): (r: (int, string, seq<Arg>))
    ensures |r.1| <= |f|
  {
    if f != "" && f[0] == '*' then (HeadInt(args), f[1..], Rest(args))
    else (ReadNumber(f, 0).0, ReadNumber(f, 0).1, args)
  }

  function ReadPrecision(f: string, args: seq<Arg>): (r: (int, string, seq<Arg>))
    ensures |r.1| <= |f|
  {
    if f != "" && f[0] == '.' then ReadStar(f[1..], args) else (-1, f, args)
  }

  /** The length modifier: whether 64 bits are read. */
  function ReadLength(f: string): (r: (bool, string))
    ensures |r.1| <= |f|
  {
    if f == "" then (false, f)
    else if f[0] == 'l' then if |f| > 1 && f[1] == 'l' then (true, f[2..]) else (true, f[1..])
    else if f[0] == 'z' then (true, f[1..])
    else if f[0] == 'h' then if |f| > 1 && f[1] == 'h' then (false, f[2..]) else (false, f[1..])
    else (false, f)
  }

  function UnsignedArg(args: seq<Arg>, wide: bool): nat {
    if wide then HeadWord(args) else HeadWord(args) % 0x1_0000_0000
  }

  function SignedArg(args: seq<Arg>, wide: bool): int {
    if wide then Signed(HeadWord(args), 0x8000_0000_0000_0000) else HeadInt(args)
  }

  function Abs(i: int): nat { if i < 0 then -i else i }

  /** The characters of one conversion. */
  function Convert(spec: char, fl: Flags, width: int, prec: int, wide: bool, args: seq<Arg>): string {
    match spec
    case 'd' => SignedText(fl, width, prec, wide, args)
    case 'i' => SignedText(fl, width, prec, wide, args)
    case 'u' => IntText(UnsignedArg(args, wide), false, Style(10, false, fl.left, fl.zero, false), width, prec)
    case 'x' => IntText(UnsignedArg(args, wide), false, Style(16, false, fl.left, fl.zero, fl.alt), width, prec)
    case 'X' => IntText(UnsignedArg(args, wide), false, Style(16, true, fl.left, fl.zero, fl.alt), width, prec)
    case 'o' => IntText(UnsignedArg(args, wide), false, Style(8, false, fl.left, fl.zero, fl.alt), width, prec)
    case 'p' =>
      var digits := if width > 2 then width - 2 else 0;
      "0x" + IntText(HeadWord(args), false, Style(16, false, fl.left, true, false), digits, prec)
    case 's' => StringText(HeadText(args), width, prec, fl.left, false)
    case 'c' => StringText(Some(CharText(args)), width, -1, fl.left, false)
    case '%' => "%"
    case _ => "%" + [spec]
  }

  function SignedText(fl: Flags, width: int, prec: int, wide: bool, args: seq<Arg>): string {
    var v := SignedArg(args, wide);
    IntText(Abs(v), v < 0, Style(10, false, fl.left, fl.zero, false), width, prec)
  }

  /** The argument of `%c` as a string: empty for NUL. */
  function CharText(args: seq<Arg>): string {
    var c := HeadWord(args) % 256;
    if c == 0 then "" else [c as char]
  }

  /** Whether a conversion takes an argument. */
  predicate Consumes(spec: char) { spec in {'d', 'i', 'u', 'x', 'X', 'o', 'p', 's', 'c'} }

  datatype Step = Step(piece: string, rest: string, args: seq<Arg>)

  /** What follows a percent sign; None if the format ends there. */
  function Directive(f: string, args: seq<Arg>): (r: Option<Step>)
    ensures r.Some? ==> |r.value.rest| < |f|
  {
    var (fl, f1) := ReadFlags(f, Flags(false, false, false));
    var (width, f2, a2) := ReadStar(f1, args);
    var (prec, f3, a3) := ReadPrecision(f2, a2);
    var (wide, f4) := ReadLength(f3);
    if f4 == "" then None
    else Some(Step(Convert(f4[0], fl, width, prec, wide, a3), f4[1..], if Consumes(f4[0]) then Rest(a3) else a3))
  }

  /** The unlimited output; None if the format has a percent sign with nothing to convert. */
  function Output(f: string, args: seq<Arg>): Option<string>
    decreases |f|
  {
    if f == "" then Some("")
    else if f[0] != '%' then
      var o := Output(f[1..], args);
      if o.None? then None else Some([f[0]] + o.value)
    else
      var d := Directive(f[1..], args);
      if d.None? then None
      else
        var o := Output(d.value.rest, d.value.args);
        if o.None? then None else Some(d.value.piece + o.value)
  }

  // ----- What a number's text says -----

  /** The sign or prefix, and digits, with blanks on one side. */
  predicate Framed(s: string, a: nat, prefix: string, digits: string, b: nat) {
    s == Repeat(' ', a) + prefix + digits + Repeat(' ', b)
  }

  /** Digits of the base, at least one, that stand for `v`. */
  predicate StandsFor(digits: string, base: nat, v: nat) {
    digits != "" && Reads(digits, base) == v && InBase(digits, base)
  }

  predicate Uppercase(s: string) { forall i :: 0 <= i < |s| ==> !('a' <= s[i] <= 'f') }

  predicate Lowercase(s: string) { forall i :: 0 <= i < |s| ==> !('A' <= s[i] <= 'F') }

  predicate InCase(s: string, upper: bool) { if upper then Uppercase(s) else Lowercase(s) }

  lemma {:induction false} DigitsCase(v: nat, base: nat, upper: bool)
    requires 2 <= base <= 16
    ensures InCase(Digits(v, base, upper), upper)
    decreases v
  {
    hide InCase, DigitChar;
    if v >= base {
      DigitsCase(v / base, base, upper);
      CharCase(v % base, upper);
      CaseMore(Digits(v / base, base, upper), DigitChar(v % base, upper), upper);
    } else {
      CharCase(v, upper);
      CaseNone(upper);
      CaseMore("", DigitChar(v, upper), upper);
      assert "" + [DigitChar(v, upper)] == [DigitChar(v, upper)];
    }
  }

  lemma CharCase(d: nat, upper: bool)
    requires d < 16
    ensures var c := DigitChar(d, upper); if upper then !('a' <= c <= 'f') else !('A' <= c <= 'F')
  {
  }

  lemma CaseNone(upper: bool)
    ensures InCase("", upper)
  {
  }

  lemma CaseMore(s: string, c: char, upper: bool)
    requires InCase(s, upper) && (if upper then !('a' <= c <= 'f') else !('A' <= c <= 'F'))
    ensures InCase(s + [c], upper)
  {
  }

  lemma ZerosCase(n: int, d: string, upper: bool)
    requires InCase(d, upper)
    ensures InCase(Repeat('0', n) + d, upper)
  {
    AllZeros(n);
  }

  /** For every style, the text of a number is its sign or prefix and digits that read back to
      it, at least `prec` of them, with blanks to the side that the flags ask for, and only as
      many as make it `width` characters; zeros take their place if the flags ask for that. */
  lemma NumberText(v: nat, neg: bool, style: Style, width: int, prec: int)
      returns (a: nat, digits: string, b: nat)
    requires 2 <= style.base <= 16
    ensures var s := IntText(v, neg, style, width, prec);
            && Framed(s, a, PrefixText(v, neg, style), digits, b) && StandsFor(digits, style.base, v)
            && |s| == Longer(width, |PrefixText(v, neg, style)| + Longer(|Digits(v, style.base, style.upper)|, prec))
    ensures (style.left ==> a == 0) && (!style.left ==> b == 0)
    ensures |digits| >= prec && InCase(digits, style.upper)
    ensures style.zero && prec < 0 && !style.left ==> a == 0
    ensures !(style.zero && prec < 0 && !style.left) ==> |digits| == Longer(|Digits(v, style.base, style.upper)|, prec)
  {
    hide Digits, PrefixText, Repeat, StandsFor, InCase;
    var d := Digits(v, style.base, style.upper);
    var prefix, zeros := PrefixText(v, neg, style), Repeat('0', prec - |d|);
    var pad := width - (|prefix| + |zeros| + |d|);
    var n: nat := if pad > 0 then pad else 0;
    ZerosStand(prec - |d|, v, style.base, style.upper);
    ZerosStand(pad, v, style.base, style.upper);
    DigitsCase(v, style.base, style.upper);
    ZerosCase(prec - |d|, d, style.upper);
    ZerosCase(pad, d, style.upper);
    Nothing(' ');
    a, digits, b := 0, zeros + d, 0;
    if style.left {
      b := n;
    } else if style.zero && prec < 0 {
      digits := Repeat('0', pad) + d;
      assert zeros == "";
    } else {
      a := n;
    }
    NoBlanks(pad);
    Joins(prefix, zeros, d, Repeat(' ', n), Repeat('0', pad));
  }

  lemma Nothing(c: char)
    ensures Repeat(c, 0) == ""
  {
  }

  lemma NoBlanks(n: int)
    ensures n <= 0 ==> Repeat(' ', n) == ""
  {
  }

  lemma Joins(prefix: string, zeros: string, d: string, blanks: string, more: string)
    ensures prefix + zeros + d + blanks == "" + prefix + (zeros + d) + blanks
    ensures blanks + prefix + zeros + d == blanks + prefix + (zeros + d) + ""
    ensures zeros == "" ==> prefix + more + zeros + d == "" + prefix + (more + d) + ""
  {
  }

  lemma ZerosStand(n: int, v: nat, base: nat, upper: bool)
    requires 2 <= base <= 16
    ensures StandsFor(Repeat('0', n) + Digits(v, base, upper), base, v)
    decreases n
  {
    hide Reads;
    var d := Digits(v, base, upper);
    DigitsReadBack(v, base, upper);
    DigitsInBase(v, base, upper);
    ZerosRead(n, d, base);
    AllZeros(n);
  }

  lemma {:induction false} AllZeros(n: int)
    ensures forall i :: 0 <= i < |Repeat('0', n)| ==> Repeat('0', n)[i] == '0'
    decreases n
  {
    if n > 0 {
      AllZeros(n - 1);
    }
  }

  predicate InBase(s: string, base: nat) {
    forall i :: 0 <= i < |s| ==> 0 <= DigitValue(s[i]) < base
  }

  lemma InBaseMore(s: string, c: char, base: nat)
    requires InBase(s, base) && 0 <= DigitValue(c) < base
    ensures InBase(s + [c], base)
  {
    hide DigitValue;
  }

  lemma {:induction false} DigitsInBase(v: nat, base: nat, upper: bool)
    requires 2 <= base <= 16
    ensures InBase(Digits(v, base, upper), base)
    decreases v
  {
    hide DigitChar, DigitValue, InBase;
    if v < base {
      DigitReads(v, upper);
      InBaseNone(base);
      InBaseMore("", DigitChar(v, upper), base);
      assert "" + [DigitChar(v, upper)] == [DigitChar(v, upper)];
    } else {
      DigitReads(v % base, upper);
      DigitsInBase(v / base, base, upper);
      InBaseMore(Digits(v / base, base, upper), DigitChar(v % base, upper), base);
    }
  }

  lemma InBaseNone(base: nat)
    ensures InBase("", base)
  {
  }

  function Longer(a: int, b: int): int { if a < b then b else a }

  /** Zeros in front do not change what digits read as. */
  lemma {:induction false} ZerosRead(n: int, d: string, base: nat)
    ensures Reads(Repeat('0', n) + d, base) == Reads(d, base)
    decreases n, |d|
  {
    var z := Repeat('0', n);
    if d != "" {
      ZerosRead(n, d[..|d| - 1], base);
      assert (z + d)[..|z + d| - 1] == z + d[..|d| - 1];
    } else if n > 0 {
      ZerosRead(n - 1, "", base);
      assert z + "" == Repeat('0', n - 1) + "" + "0";
      assert (z + "")[..|z| - 1] == Repeat('0', n - 1) + "";
    } else {
      assert z + "" == "";
    }
  }

  /** A signed decimal number between blanks. */
  function ReadSigned(s: string): int
    decreases |s|
  {
    if s != "" && s[0] == ' ' then ReadSigned(s[1..])
    else if s != "" && s[|s| - 1] == ' ' then ReadSigned(s[..|s| - 1])
    else if s != "" && s[0] == '-' then -Reads(s[1..], 10)
    else Reads(s, 10)
  }

  lemma {:induction false} BlanksSkipped(a: nat, t: string, b: nat)
    requires t != "" && t[0] != ' ' && t[|t| - 1] != ' '
    ensures ReadSigned(Repeat(' ', a) + t + Repeat(' ', b)) == ReadSigned(t)
    decreases a, b
  {
    hide Reads;
    var s := Repeat(' ', a) + t + Repeat(' ', b);
    if a > 0 {
      BlanksSkipped(a - 1, t, b);
      RepeatFront(' ', a);
      assert s[1..] == Repeat(' ', a - 1) + t + Repeat(' ', b);
    } else if b > 0 {
      BlanksSkipped(0, t, b - 1);
      assert s == t + Repeat(' ', b - 1) + " ";
      assert s[..|s| - 1] == "" + t + Repeat(' ', b - 1);
    } else {
      assert s == t;
    }
  }

  lemma {:induction false} RepeatFront(c: char, n: int)
    requires n > 0
    ensures Repeat(c, n)[0] == c && Repeat(c, n)[1..] == Repeat(c, n - 1)
  {
    if n > 1 {
      RepeatFront(c, n - 1);
    }
  }

  /** `%d` in whatever style reads back to the argument, and is as wide as asked for. */
  lemma SignedReadsBack(fl: Flags, width: int, prec: int, wide: bool, args: seq<Arg>)
    ensures ReadSigned(SignedText(fl, width, prec, wide, args)) == SignedArg(args, wide)
    ensures |SignedText(fl, width, prec, wide, args)| >= width
  {
    hide SignedArg, IntText, Reads, ReadSigned, Repeat;
    var v := SignedArg(args, wide);
    NumberWidth(Abs(v), v < 0, Style(10, false, fl.left, fl.zero, false), width, prec);
    var style := Style(10, false, fl.left, fl.zero, false);
    var a, digits, b := NumberText(Abs(v), v < 0, style, width, prec);
    var t := (if v < 0 then "-" else "") + digits;
    assert Repeat(' ', a) + PrefixText(Abs(v), v < 0, style) + digits + Repeat(' ', b)
        == Repeat(' ', a) + t + Repeat(' ', b);
    BlanksSkipped(a, t, b);
    PlainSigned(t, digits, v);
  }

  lemma PlainSigned(t: string, digits: string, v: int)
    requires StandsFor(digits, 10, Abs(v)) && t == (if v < 0 then "-" else "") + digits
    ensures ReadSigned(t) == v
  {
    hide Reads;
    assert DigitValue(digits[0]) >= 0 && DigitValue(digits[|digits| - 1]) >= 0;
    assert DigitValue(' ') < 0 && DigitValue('-') < 0;
    if v < 0 {
      assert t[1..] == digits && t[|t| - 1] == digits[|digits| - 1];
    } else {
      assert t == digits;
    }
  }

  // ----- Strings and widths -----

  function Cut(s: Option<string>, prec: int): string {
    var t := if s.None? then "(null)" else s.value;
    if 0 <= prec < |t| then t[..prec] else t
  }

  /** A string is cut to the precision and then padded with blanks, only as far as the width. */
  lemma PaddedString(s: Option<string>, width: int, prec: int, left: bool) returns (a: nat, b: nat)
    ensures var r := StringText(s, width, prec, left, false);
            Framed(r, a, "", Cut(s, prec), b) && |r| >= width && (a + b > 0 ==> |r| == width)
    ensures (left ==> a == 0) && (!left ==> b == 0)
  {
    hide Repeat, Framed, Cut;
    Padding(s, width, prec, left);
    hide StringText;
    var pad := width - |Cut(s, prec)|;
    var n: nat := if pad > 0 then pad else 0;
    NoBlanks(pad);
    a, b := if left then 0 else n, if left then n else 0;
    OneSide(Cut(s, prec), n);
  }

  lemma Padding(s: Option<string>, width: int, prec: int, left: bool)
    ensures var pad := Repeat(' ', width - |Cut(s, prec)|);
            StringText(s, width, prec, left, false) == if left then Cut(s, prec) + pad else pad + Cut(s, prec)
  {
    hide Repeat;
  }

  lemma OneSide(t: string, n: nat)
    ensures Framed(t + Repeat(' ', n), 0, "", t, n) && Framed(Repeat(' ', n) + t, n, "", t, 0)
  {
    hide Repeat;
    Nothing(' ');
    var blanks := Repeat(' ', n);
    assert t + blanks == "" + "" + t + blanks && blanks + t == blanks + "" + t + "";
  }

  lemma NumberWidth(v: nat, neg: bool, style: Style, width: int, prec: int)
    requires 2 <= style.base <= 16
    ensures |IntText(v, neg, style, width, prec)| >= width
  {
    hide IntText, Framed, StandsFor, PrefixText;
    var a, digits, b := NumberText(v, neg, style, width, prec);
  }

  /** Every conversion that takes an argument is at least as wide as asked for. */
  lemma ConversionWidth(spec: char, fl: Flags, width: int, prec: int, wide: bool, args: seq<Arg>)
    requires Consumes(spec)
    ensures |Convert(spec, fl, width, prec, wide, args)| >= width
  {
    hide IntText, StringText, HeadWord, HeadText, CharText, SignedArg, HeadInt, Framed, Cut;
    var v, s := UnsignedArg(args, wide), SignedArg(args, wide);
    NumberWidth(Abs(s), s < 0, Style(10, false, fl.left, fl.zero, false), width, prec);
    NumberWidth(v, false, Style(10, false, fl.left, fl.zero, false), width, prec);
    NumberWidth(v, false, Style(16, false, fl.left, fl.zero, fl.alt), width, prec);
    NumberWidth(v, false, Style(16, true, fl.left, fl.zero, fl.alt), width, prec);
    NumberWidth(v, false, Style(8, false, fl.left, fl.zero, fl.alt), width, prec);
    var less := if width > 2 then width - 2 else 0;
    NumberWidth(HeadWord(args), false, Style(16, false, fl.left, true, false), less, prec);
    var a, b := PaddedString(HeadText(args), width, prec, fl.left);
    a, b := PaddedString(Some(CharText(args)), width, -1, fl.left);
  }

  // ----- What each conversion prints -----

  /** The argument of a number, cut to 32 bits or to 64. */
  function Argument(args: seq<Arg>, wide: bool): nat {
    if args == [] || !args[0].Word? then 0
    else args[0].w % (if wide then 0x1_0000_0000_0000_0000 else 0x1_0000_0000)
  }

  lemma ArgumentIs(args: seq<Arg>, wide: bool)
    ensures UnsignedArg(args, wide) == Argument(args, wide)
  {
  }

  /** A signed argument is the number of its width that the word stands for. */
  lemma SignedExact(args: seq<Arg>, wide: bool)
    ensures var half := if wide then 0x8000_0000_0000_0000 else 0x8000_0000;
            && -half <= SignedArg(args, wide) < half
            && SignedArg(args, wide) % (2 * half) == Argument(args, wide)
  {
    ArgumentIs(args, wide);
  }

  function BaseOf(spec: char): nat { if spec == 'u' then 10 else if spec == 'o' then 8 else 16 }

  /** `%u`, `%o`, `%x` and `%X` print the argument in base 10, 8 and 16, with `0` or `0x` in
      front if the `#` flag asks for it, and with the digits in the case of the `x`. */
  lemma UnsignedText(spec: char, fl: Flags, width: int, prec: int, wide: bool, args: seq<Arg>)
      returns (a: nat, digits: string, b: nat)
    requires spec in {'u', 'o', 'x', 'X'}
    ensures var v := Argument(args, wide);
            var prefix := if !fl.alt || spec == 'u' then "" else if spec == 'x' then "0x" else if spec == 'X' then "0X"
                          else if v % 8 == 0 then "" else "0";
            Framed(Convert(spec, fl, width, prec, wide, args), a, prefix, digits, b) &&
              StandsFor(digits, BaseOf(spec), v)
    ensures (spec == 'x' ==> Lowercase(digits)) && (spec == 'X' ==> Uppercase(digits))
  {
    hide IntText, Framed, StandsFor, UnsignedArg, Argument;
    ArgumentIs(args, wide);
    var style := Style(BaseOf(spec), spec == 'X', fl.left, fl.zero, fl.alt && spec != 'u');
    a, digits, b := NumberText(UnsignedArg(args, wide), false, style, width, prec);
  }

  /** `%s` prints its argument, cut to the precision. */
  lemma TextOut(fl: Flags, width: int, prec: int, wide: bool, args: seq<Arg>) returns (a: nat, b: nat)
    requires args != [] && args[0].Text?
    ensures Framed(Convert('s', fl, width, prec, wide, args), a, "", Cut(args[0].s, prec), b)
  {
    hide StringText, Framed, Cut;
    a, b := PaddedString(args[0].s, width, prec, fl.left);
  }

  /** `%c` prints one character. */
  lemma CharOut(fl: Flags, width: int, prec: int, wide: bool, args: seq<Arg>) returns (a: nat, b: nat)
    requires args != [] && args[0].Word? && args[0].w % 256 != 0
    ensures Framed(Convert('c', fl, width, prec, wide, args), a, "", [(args[0].w % 256) as char], b)
  {
    hide StringText, Framed;
    assert HeadWord(args) % 256 == args[0].w % 256;
    assert CharText(args) == [(args[0].w % 256) as char];
    a, b := PaddedString(Some(CharText(args)), width, -1, fl.left);
  }

  /** `%%` prints a percent sign, and an unknown conversion is printed as it stands. */
  lemma OtherOut(spec: char, fl: Flags, width: int, prec: int, wide: bool, args: seq<Arg>)
    requires spec !in {'d', 'i', 'u', 'x', 'X', 'o', 'p', 's', 'c'}
    ensures Convert(spec, fl, width, prec, wide, args) == if spec == '%' then "%" else ['%', spec]
  {
  }

  /** `%p` prints `0x` and the address in base 16. */
  lemma PointerText(fl: Flags, width: int, prec: int, wide: bool, args: seq<Arg>)
      returns (a: nat, digits: string, b: nat)
    ensures exists t :: Convert('p', fl, width, prec, wide, args) == "0x" + t && Framed(t, a, "", digits, b)
    ensures StandsFor(digits, 16, Argument(args, true)) && Lowercase(digits)
  {
    hide IntText, Framed, StandsFor, HeadWord, Argument;
    PointerArgument(args);
    var style := Style(16, false, fl.left, true, false);
    var less := if width > 2 then width - 2 else 0;
    a, digits, b := NumberText(HeadWord(args), false, style, less, prec);
    assert Convert('p', fl, width, prec, wide, args) == "0x" + IntText(HeadWord(args), false, style, less, prec);
  }

  lemma PointerArgument(args: seq<Arg>)
    ensures HeadWord(args) == Argument(args, true)
  {
  }

  // ----- Reading a directive -----

  function FlagText(fl: Flags): string {
    (if fl.left then "-" else "") + (if fl.alt then "#" else "") + (if fl.zero then "0" else "")
  }

  /** Decimal digits read from the front, after `acc`. */
  function Accumulate(a: string, acc: int): int {
    if a == "" then acc else Accumulate(a[1..], acc * 10 + (a[0] as int - '0' as int))
  }

  lemma {:induction false} ReadDigits(a: string, rest: string, acc: int)
    requires (forall i :: 0 <= i < |a| ==> IsDigit(a[i])) && (rest == "" || !IsDigit(rest[0]))
    ensures ReadNumber(a + rest, acc) == (Accumulate(a, acc), rest)
    decreases |a|
  {
    if a == "" {
      assert a + rest == rest;
    } else {
      assert (a + rest)[1..] == a[1..] + rest;
      ReadDigits(a[1..], rest, acc * 10 + (a[0] as int - '0' as int));
    }
  }

  lemma {:induction false} AccumulateLast(a: string, c: char, acc: int)
    ensures Accumulate(a + [c], acc) == Accumulate(a, acc) * 10 + (c as int - '0' as int)
    decreases |a|
  {
    if a == "" {
      assert a + [c] == [c] && [c][1..] == "";
    } else {
      assert (a + [c])[1..] == a[1..] + [c];
      AccumulateLast(a[1..], c, acc * 10 + (a[0] as int - '0' as int));
    }
  }

  lemma {:induction false} DecimalAccumulates(n: nat)
    ensures Accumulate(Decimal(n), 0) == n
    decreases n
  {
    hide Decimal;
    DecimalStep(n);
    var c := ('0' as int + n % 10) as char;
    if n < 10 {
      AccumulateLast("", c, 0);
    } else {
      DecimalAccumulates(n / 10);
      AccumulateLast(Decimal(n / 10), c, 0);
    }
  }

  lemma NumberReads(n: nat, rest: string)
    requires rest == "" || !IsDigit(rest[0])
    ensures ReadNumber(Decimal(n) + rest, 0) == (n, rest)
  {
    hide Decimal;
    DecimalDigits(n);
    ReadDigits(Decimal(n), rest, 0);
    DecimalAccumulates(n);
  }

  lemma NoNumber(rest: string)
    requires rest == "" || !IsDigit(rest[0])
    ensures ReadNumber(rest, 0) == (0, rest)
  {
  }

  /** No flag comes next. */
  predicate NoFlag(f: string) { f == "" || !IsFlag(f[0]) }

  lemma FlagsRead(fl: Flags, f: string)
    requires NoFlag(f)
    ensures ReadFlags(FlagText(fl) + f, Flags(false, false, false)) == (fl, f)
  {
    var none := Flags(false, false, false);
    var z := (if fl.zero then "0" else "") + f;
    var a := (if fl.alt then "#" else "") + z;
    FlagsDone(f, fl);
    OneFlag('0', fl.zero, f, fl.(zero := false), fl);
    OneFlag('#', fl.alt, z, none.(left := fl.left), fl.(zero := false));
    OneFlag('-', fl.left, a, none, none.(left := fl.left));
    assert FlagText(fl) + f == (if fl.left then "-" else "") + a;
  }

  lemma OneFlag(c: char, on: bool, f: string, fl: Flags, fl': Flags)
    requires IsFlag(c) && fl' == if on then WithFlag(fl, c) else fl
    ensures ReadFlags((if on then [c] else "") + f, fl) == ReadFlags(f, fl')
  {
    if on {
      assert ([c] + f)[1..] == f;
    } else {
      assert "" + f == f;
    }
  }

  lemma FlagsDone(f: string, fl: Flags)
    requires NoFlag(f)
    ensures ReadFlags(f, fl) == (fl, f)
  {
  }

  /** The width: a number that starts with no zero, or nothing. */
  function WidthText(width: nat): string { if width > 0 then Decimal(width) else "" }

  lemma {:induction false} NoLeadingZero(n: nat)
    requires n > 0
    ensures Decimal(n) != "" && '1' <= Decimal(n)[0] <= '9'
    decreases n
  {
    hide Decimal;
    DecimalStep(n);
    if n >= 10 {
      NoLeadingZero(n / 10);
    }
  }

  lemma WidthReads(width: nat, f: string, args: seq<Arg>)
    requires f == "" || (!IsDigit(f[0]) && f[0] != '*' && !IsFlag(f[0]))
    ensures ReadStar(WidthText(width) + f, args) == (width, f, args) && NoFlag(WidthText(width) + f)
  {
    hide Decimal;
    if width > 0 {
      NoLeadingZero(width);
      NumberReads(width, f);
    } else {
      assert "" + f == f;
      NoNumber(f);
    }
  }

  function PrecisionText(prec: Option<nat>): string { if prec.Some? then "." + Decimal(prec.value) else "" }

  lemma PrecisionReads(prec: Option<nat>, f: string, args: seq<Arg>)
    requires f == "" || (!IsDigit(f[0]) && f[0] != '*' && f[0] != '.' && !IsFlag(f[0]))
    ensures var p := PrecisionText(prec) + f;
            && ReadPrecision(p, args) == (if prec.Some? then prec.value else -1, f, args)
            && (p == "" || (!IsDigit(p[0]) && p[0] != '*' && !IsFlag(p[0])))
  {
    hide Decimal;
    if prec.Some? {
      var n := prec.value;
      var p := "." + Decimal(n) + f;
      assert p[1..] == Decimal(n) + f;
      DecimalDigits(n);
      NumberReads(n, f);
    } else {
      assert "" + f == f;
    }
  }

  function LengthText(wide: bool): string { if wide then "ll" else "" }

  lemma LengthReads(wide: bool, f: string)
    requires f != "" && f[0] !in {'l', 'z', 'h'}
    ensures ReadLength(LengthText(wide) + f) == (wide, f)
  {
    if wide {
      assert ("ll" + f)[2..] == f;
    } else {
      assert "" + f == f;
    }
  }

  /** The other length modifiers. */
  lemma LengthModifiers(f: string)
    requires f != "" && f[0] !in {'l', 'z', 'h'}
    ensures ReadLength("l" + f) == ReadLength("z" + f) == (true, f)
    ensures ReadLength("h" + f) == ReadLength("hh" + f) == (false, f)
  {
    assert ("l" + f)[1..] == f && ("z" + f)[1..] == f && ("h" + f)[1..] == f && ("hh" + f)[2..] == f;
  }

  /** A directive as it is written: flags, width, precision, length and conversion. */
  function DirectiveText(fl: Flags, width: nat, prec: Option<nat>, wide: bool, spec: char): string {
    FlagText(fl) + (WidthText(width) + (PrecisionText(prec) + (LengthText(wide) + [spec])))
  }

  /** A written directive is read as what it says, and the text goes on behind it. */
  lemma DirectiveReads(fl: Flags, width: nat, prec: Option<nat>, wide: bool, spec: char, rest: string, args: seq<Arg>)
    requires !IsDigit(spec) && !IsFlag(spec) && spec !in {'*', '.', 'l', 'z', 'h'}
    ensures Directive(DirectiveText(fl, width, prec, wide, spec) + rest, args) ==
            Some(Step(Convert(spec, fl, width, if prec.Some? then prec.value else -1, wide, args), rest,
                      if Consumes(spec) then Rest(args) else args))
  {
    hide Convert, Consumes, ReadFlags, ReadStar, ReadPrecision, ReadLength, FlagText, WidthText, PrecisionText, Decimal;
    var f4 := [spec] + rest;
    var f3 := LengthText(wide) + f4;
    var f2 := PrecisionText(prec) + f3;
    var f1 := WidthText(width) + f2;
    LengthReads(wide, f4);
    PrecisionReads(prec, f3, args);
    WidthReads(width, f2, args);
    FlagsRead(fl, f1);
    Regroup(FlagText(fl), WidthText(width), PrecisionText(prec), LengthText(wide), [spec], rest);
    assert f4[1..] == rest;
  }

  lemma Regroup(a: string, b: string, c: string, d: string, e: string, f: string)
    ensures a + (b + (c + (d + e))) + f == a + (b + (c + (d + (e + f))))
  {
  }

  /** Text without a percent sign is printed as it is. */
  lemma {:induction false} PlainText(t: string, f: string, args: seq<Arg>)
    requires '%' !in t
    ensures Output(t + f, args) == match Output(f, args) case None => None case Some(o) => Some(t + o)
    decreases |t|
  {
    hide Directive;
    if t == "" {
      assert t + f == f;
      if Output(f, args).Some? {
        assert "" + Output(f, args).value == Output(f, args).value;
      }
    } else {
      assert (t + f)[1..] == t[1..] + f;
      PlainText(t[1..], f, args);
      if Output(f, args).Some? {
        assert t + Output(f, args).value == [t[0]] + (t[1..] + Output(f, args).value);
      }
    }
  }

  /** Blanks and plus signs among the flags are ignored. */
  lemma IgnoredFlags(f: string, fl: Flags)
    ensures ReadFlags(" " + f, fl) == ReadFlags("+" + f, fl) == ReadFlags(f, fl)
  {
    assert (" " + f)[1..] == f && ("+" + f)[1..] == f;
  }

  /** A star takes the width, or the precision, from the arguments, as a signed number. */
  lemma StarReads(f: string, args: seq<Arg>)
    ensures ReadStar("*" + f, args) == (SignedArg(args, false), f, if args == [] then [] else args[1..])
    ensures ReadPrecision(".*" + f, args) == (SignedArg(args, false), f, if args == [] then [] else args[1..])
  {
    assert ("*" + f)[1..] == f && (".*" + f)[1..] == "*" + f;
  }

  /** `%d` and `%i` print their signed argument. */
  lemma SignedConversion(spec: char, fl: Flags, width: int, prec: int, wide: bool, args: seq<Arg>)
    requires spec in {'d', 'i'}
    ensures ReadSigned(Convert(spec, fl, width, prec, wide, args)) == SignedArg(args, wide)
  {
    hide SignedText, ReadSigned, SignedArg;
    SignedReadsBack(fl, width, prec, wide, args);
  }

  /** Every conversion but `%%` and the unknown ones takes an argument. */
  lemma ConsumesExact(spec: char)
    ensures Consumes(spec) <==> spec in "diuxXopsc"
  {
  }
}
