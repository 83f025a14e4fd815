/** The kernel's formatter (kernel/lib/printf.c) writing into a bounded buffer. */
module Printf {
  import opened Common
  import opened Numerals
  import opened Format

  function Reversed(s: string): (r: string)
    ensures |r| == |s|
  {
    if s == "" then "" else Reversed(s[1..]) + [s[0]]
  }

  lemma {:induction false} ReversedMore(s: string, c: char)
    ensures Reversed(s + [c]) == [c] + Reversed(s)
  {
    if s == "" {
      assert (s + [c])[1..] == "";
    } else {
      ReversedMore(s[1..], c);
      assert (s + [c])[1..] == s[1..] + [c];
    }
  }

  /** The digits of `v`, but none for 0. */
  function Lead(v: nat, base: nat, upper: bool): string
    requires 2 <= base <= 16
  {
    if v == 0 then "" else Digits(v, base, upper)
  }

  lemma LeadStep(v: nat, base: nat, upper: bool)
    requires 2 <= base <= 16 && v > 0
    ensures Lead(v, base, upper) == Lead(v / base, base, upper) + [DigitChar(v % base, upper)]
  {
    hide DigitChar;
    FirstDigit(v, base);
  }

  lemma FirstDigit(v: nat, base: nat)
    requires base >= 2 && v > 0
    ensures v < base ==> v / base == 0 && v % base == v
    ensures v >= base ==> v / base > 0
    ensures v / base < v
  {
  }

  /** Digits from the last to the first, as fmt_int finds them. */
  method DigitLoop(uval: nat, base: nat, upper: bool) returns (tmp: string)
    requires 2 <= base <= 16
    ensures Reversed(tmp) == Digits(uval, base, upper)
  {
    hide DigitChar, Digits, Lead;
    tmp := "";
    if uval == 0 {
      tmp := ['0'];
      ZeroDigit(base, upper);
      assert ['0'][1..] == "";
    } else {
      var v: nat := uval;
      LeadIs(uval, base, upper);
      while v > 0
        invariant Digits(uval, base, upper) == Lead(v, base, upper) + Reversed(tmp)
      {
        LeadStep(v, base, upper);
        ReversedMore(tmp, DigitChar(v % base, upper));
        FirstDigit(v, base);
        tmp := tmp + [DigitChar(v % base, upper)];
        v := v / base;
      }
    }
  }

  lemma LeadIs(v: nat, base: nat, upper: bool)
    requires 2 <= base <= 16
    ensures v > 0 ==> Lead(v, base, upper) == Digits(v, base, upper)
    ensures Lead(0, base, upper) == ""
  {
    hide Digits;
  }

  lemma ZeroDigit(base: nat, upper: bool)
    requires 2 <= base <= 16
    ensures Digits(0, base, upper) == "0"
  {
  }

  class PrintCtx {
    const buf: array<char>
    const size: nat
    var pos: nat
    // Every character put so far, and the buffer as it was.
    ghost var all: string
    ghost const before: seq<char>

    constructor (buf: array<char>, size: nat)
      requires size <= buf.Length
      ensures this.buf == buf && this.size == size && Valid() && all == "" && before == buf[..]
    {
      this.buf, this.size, pos := buf, size, 0;
      all, before := "", buf[..];
    }

    /** The buffer holds as many of the characters put as fit before a NUL, and is otherwise
        as it was. */
    ghost predicate Valid()
      reads this, buf
    {
      && size <= buf.Length == |before|
      && pos == (if size == 0 then 0 else Min(|all|, size - 1))
      && buf[..pos] == all[..pos] && buf[pos..] == before[pos..]
    }

    method Putchar(c: char)
      requires Valid()
      modifies this, buf
      ensures Valid() && all == old(all) + [c]
    {
      if pos + 1 < size {
        buf[pos] := c;
        pos := pos + 1;
      }
      all := all + [c];
    }

    method Puts(s: string)
      requires Valid()
      modifies this, buf
      ensures Valid() && all == old(all) + s
    {
      hide Valid;
      for i := 0 to |s|
        invariant Valid() && all == old(all) + s[..i]
      {
        assert s[..i + 1] == s[..i] + [s[i]];
        Putchar(s[i]);
      }
      assert s[..|s|] == s;
    }

    method Pad(c: char, n: int)
      requires Valid()
      modifies this, buf
      ensures Valid() && all == old(all) + Repeat(c, n)
    {
      hide Valid;
      var i := 0;
      while i < n
        invariant Valid() && 0 <= i && (i <= n || i == 0) && all == old(all) + Repeat(c, i)
      {
        Putchar(c);
        i := i + 1;
      }
    }

    /** ctx_write_str. */
    method WriteStr(s: Option<string>, width: int, prec: int, left: bool, zero: bool) returns (count: int)
      requires Valid()
      modifies this, buf
      ensures Valid() && all == old(all) + StringText(s, width, prec, left, zero) &&
              count == |StringText(s, width, prec, left, zero)|
    {
      hide Valid;
      var t := if s.None? then "(null)" else s.value;
      var len := |t|;
      if prec >= 0 && prec < len {
        len := prec;
      }
      var cut := t[..len];
      assert len == |t| ==> cut == t;
      hide Repeat;
      var pad := if width > len then width - len else 0;
      var padChar := if zero && !left then '0' else ' ';
      SamePad(padChar, width, len);
      if !left {
        Pad(padChar, pad);
      }
      Puts(cut);
      if left {
        Pad(' ', pad);
      }
      count := pad + len;
      Joined(old(all), if left then cut else Repeat(padChar, pad), if left then Repeat(' ', pad) else cut);
    }

    /** The digits of `tmp`, last to first. */
    method PutBack(tmp: string)
      requires Valid()
      modifies this, buf
      ensures Valid() && all == old(all) + Reversed(tmp)
    {
      hide Valid;
      var i := |tmp|;
      while i > 0
        invariant Valid() && 0 <= i <= |tmp| && all == old(all) + Reversed(tmp[i..])
      {
        i := i - 1;
        assert tmp[i..][1..] == tmp[i + 1..];
        Putchar(tmp[i]);
      }
      assert tmp[0..] == tmp;
    }

    /** fmt_int. */
    method FmtInt(uval: nat, neg: bool, style: Style, width: int, prec: int) returns (count: int)
      requires Valid() && 2 <= style.base <= 16
      modifies this, buf
      ensures Valid() && all == old(all) + IntText(uval, neg, style, width, prec) &&
              count == |IntText(uval, neg, style, width, prec)|
    {
      hide Valid, Repeat, Digits, PrefixText;
      var tmp := DigitLoop(uval, style.base, style.upper);
      var prefix := PrefixText(uval, neg, style);
      var digits := |tmp|;
      var extraZeros := if prec > digits then prec - digits else 0;
      SamePad('0', prec, digits);
      var contentLen := |prefix| + extraZeros + digits;
      var pad := if width > contentLen then width - contentLen else 0;
      SamePad(' ', width, contentLen);
      SamePad('0', width, contentLen);
      count := pad + contentLen;
      ghost var d := Reversed(tmp);
      if style.left {
        PutPadded(prefix, '0', extraZeros, tmp, ' ', pad);
      } else {
        if style.zero && prec < 0 {
          PutThenPad(prefix, '0', pad);
        } else {
          PadThenPut(' ', pad, prefix);
        }
        ghost var front := all[|old(all)|..];
        Pad('0', extraZeros);
        PutBack(tmp);
        Joined3(old(all), front, Repeat('0', extraZeros), d);
      }
    }

    method PutPadded(a: string, c: char, n: int, tmp: string, e: char, m: int)
      requires Valid()
      modifies this, buf
      ensures Valid() && all == old(all) + (a + Repeat(c, n) + Reversed(tmp) + Repeat(e, m))
    {
      hide Valid, Repeat, Reversed;
      Puts(a);
      Pad(c, n);
      PutBack(tmp);
      Pad(e, m);
      Joined3(old(all), a, Repeat(c, n), Reversed(tmp));
      Joined(old(all), a + Repeat(c, n) + Reversed(tmp), Repeat(e, m));
    }

    method PutThenPad(a: string, c: char, n: int)
      requires Valid()
      modifies this, buf
      ensures Valid() && all == old(all) + (a + Repeat(c, n))
    {
      hide Valid, Repeat;
      Puts(a);
      Pad(c, n);
      Joined(old(all), a, Repeat(c, n));
    }

    method PadThenPut(c: char, n: int, a: string)
      requires Valid()
      modifies this, buf
      ensures Valid() && all == old(all) + (Repeat(c, n) + a)
    {
      hide Valid, Repeat;
      Pad(c, n);
      Puts(a);
      Joined(old(all), Repeat(c, n), a);
    }

    /** The characters of one conversion. */
    method PutConversion(spec: char, fl: Flags, width: int, prec: int, wide: bool, args: seq<Arg>) returns (count: int)
      requires Valid()
      modifies this, buf
      ensures Valid() && all == old(all) + Convert(spec, fl, width, prec, wide, args) &&
              count == |Convert(spec, fl, width, prec, wide, args)|
    {
      hide Valid, IntText, StringText, UnsignedArg, SignedArg, CharText, HeadWord, HeadText;
      if spec == 'd' || spec == 'i' {
        var v := SignedArg(args, wide);
        count := FmtInt(Abs(v), v < 0, Style(10, false, fl.left, fl.zero, false), width, prec);
      } else if spec == 'u' {
        count := FmtInt(UnsignedArg(args, wide), false, Style(10, false, fl.left, fl.zero, false), width, prec);
      } else if spec == 'x' || spec == 'X' {
        count := FmtInt(UnsignedArg(args, wide), false, Style(16, spec == 'X', fl.left, fl.zero, fl.alt), width, prec);
      } else if spec == 'o' {
        count := FmtInt(UnsignedArg(args, wide), false, Style(8, false, fl.left, fl.zero, fl.alt), width, prec);
      } else if spec == 'p' {
        var style, w := Style(16, false, fl.left, true, false), if width > 2 then width - 2 else 0;
        Puts("0x");
        count := FmtInt(HeadWord(args), false, style, w, prec);
        Joined(old(all), "0x", IntText(HeadWord(args), false, style, w, prec));
        count := 2 + count;
      } else if spec == 's' {
        count := WriteStr(HeadText(args), width, prec, fl.left, false);
      } else if spec == 'c' {
        count := WriteStr(Some(CharText(args)), width, -1, fl.left, false);
      } else if spec == '%' {
        Putchar('%');
        count := 1;
      } else {
        Putchar('%');
        Putchar(spec);
        Joined(old(all), "%", [spec]);
        count := 2;
      }
    }

    /** vfmt: the loop over the format, its cursor `f` being the rest of the format. */
    method Vfmt(fmt: string, arguments: seq<Arg>) returns (total: int)
      requires Valid() && all == "" && Output(fmt, arguments).Some?
      modifies this, buf
      ensures Valid() && all == Output(fmt, arguments).value && total == |all|
    {
      hide Valid, Convert, ReadFlags, ReadStar, ReadPrecision, ReadLength;
      total := 0;
      var f, args := fmt, arguments;
      while f != ""
        invariant Valid() && Output(f, args).Some? && Output(fmt, arguments).Some?
        invariant Output(fmt, arguments).value == all + Output(f, args).value && total == |all|
        decreases |f|
      {
        ghost var rest := Output(f, args).value;
        if f[0] != '%' {
          ghost var next := Output(f[1..], args).value;
          Joined(all, [f[0]], next);
          Putchar(f[0]);
          f := f[1..];
          total := total + 1;
        } else {
          ghost var step := Directive(f[1..], args).value;
          ghost var next := Output(step.rest, step.args).value;
          Joined(all, step.piece, next);
          var fl, width, prec, wide;
          fl, f := ScanFlags(f[1..]);
          width, f, args := ScanStar(f, args);
          prec, f, args := ScanPrecision(f, args);
          wide, f := ScanLength(f);
          var n := PutConversion(f[0], fl, width, prec, wide, args);
          total := total + n;
          args := if Consumes(f[0]) then Rest(args) else args;
          f := f[1..];
        }
      }
    }

    /** The end of vfmt: a NUL after what was written. */
    method Terminate()
      requires Valid()
      modifies buf
      ensures size == 0 ==> buf[..] == before
      ensures size > 0 ==> pos == Min(|all|, size - 1) < buf.Length == |before|
      ensures size > 0 ==> buf[..pos] == all[..pos] && buf[pos] == '\0' && buf[pos + 1..] == before[pos + 1..]
    {
      if size > 0 {
        ghost var b := buf[..];
        buf[pos] := '\0';
        assert buf[..pos] == b[..pos] && buf[pos + 1..] == b[pos + 1..];
        assert b[pos..][1..] == b[pos + 1..] && before[pos..][1..] == before[pos + 1..];
      } else {
        assert buf[0..] == buf[..] && before[0..] == before;
      }
    }
  }

  method ScanFlags(f0: string) returns (fl: Flags, f: string)
    ensures (fl, f) == ReadFlags(f0, Flags(false, false, false))
  {
    fl, f := Flags(false, false, false), f0;
    while f != "" && IsFlag(f[0])
      invariant ReadFlags(f, fl) == ReadFlags(f0, Flags(false, false, false))
      decreases |f|
    {
      fl := WithFlag(fl, f[0]);
      f := f[1..];
    }
  }

  method ScanStar(f0: string, args0: seq<Arg>) returns (n: int, f: string, args: seq<Arg>)
    ensures (n, f, args) == ReadStar(f0, args0)
  {
    n, f, args := 0, f0, args0;
    if f != "" && f[0] == '*' {
      n, f, args := HeadInt(args), f[1..], Rest(args);
    } else {
      while f != "" && IsDigit(f[0])
        invariant ReadNumber(f, n) == ReadNumber(f0, 0)
        decreases |f|
      {
        n := n * 10 + (f[0] as int - '0' as int);
        f := f[1..];
      }
    }
  }

  method ScanPrecision(f0: string, args0: seq<Arg>) returns (prec: int, f: string, args: seq<Arg>)
    ensures (prec, f, args) == ReadPrecision(f0, args0)
  {
    prec, f, args := -1, f0, args0;
    if f != "" && f[0] == '.' {
      prec, f, args := ScanStar(f[1..], args);
    }
  }

  method ScanLength(f0: string) returns (wide: bool, f: string)
    ensures (wide, f) == ReadLength(f0)
  {
    wide, f := false, f0;
    if f != "" && f[0] == 'l' {
      wide, f := true, f[1..];
      if f != "" && f[0] == 'l' {
        f := f[1..];
      }
    } else if f != "" && f[0] == 'z' {
      wide, f := true, f[1..];
    } else if f != "" && f[0] == 'h' {
      f := f[1..];
      if f != "" && f[0] == 'h' {
        f := f[1..];
      }
    }
  }

  /** kvsnprintf: the first min(size - 1, n) of the n characters of the unlimited output, then
      a NUL, and n is returned.  Nothing else of the buffer is written. */
  method Kvsnprintf(buf: array<char>, size: nat, fmt: string, args: seq<Arg>) returns (n: int)
    requires size <= buf.Length && Output(fmt, args).Some?
    modifies buf
    ensures var o := Output(fmt, args).value;
            && n == |o|
            && (size == 0 ==> buf[..] == old(buf[..]))
            && (size > 0 ==>
                  var k := Min(size - 1, |o|);
                  buf[..k] == o[..k] && buf[k] == '\0' && buf[k + 1..] == old(buf[k + 1..]))
  {
    hide Output, PrintCtx.Valid;
    var ctx := new PrintCtx(buf, size);
    n := ctx.Vfmt(fmt, args);
    ctx.Terminate();
  }

  lemma Joined3(a: string, b: string, c: string, d: string)
    ensures a + b + c + d == a + (b + c + d)
  {
  }

  lemma Joined(a: string, b: string, c: string)
    ensures a + b + c == a + (b + c)
  {
  }

  lemma SamePad(c: char, width: int, len: int)
    ensures Repeat(c, if width > len then width - len else 0) == Repeat(c, width - len)
  {
  }
}
