/** Numbers as digits. */
module Numerals {

  predicate IsDigit(c: char) { '0' <= c <= '9' }

  function DigitChar(d: nat, upper: bool): char
    requires d < 16
  {
    if d < 10 then ('0' as int + d) as char
    else if upper then ('A' as int + d - 10) as char
    else ('a' as int + d - 10) as char
  }

  /** Digits, the most significant first. */
  function Digits(v: nat, base: nat, upper: bool): (s: string)
    requires 2 <= base <= 16
    ensures s != ""
    decreases v
  {
    if v < base then [DigitChar(v, upper)] else Digits(v / base, base, upper) + [DigitChar(v % base, upper)]
  }

  function DigitValue(c: char): int {
    if '0' <= c <= '9' then c as int - '0' as int
    else if 'A' <= c <= 'F' then c as int - 'A' as int + 10
    else if 'a' <= c <= 'f' then c as int - 'a' as int + 10
    else -1
  }

  /** The number a digit string stands for. */
  function Reads(s: string, base: nat): int {
    if s == "" then 0 else Reads(s[..|s| - 1], base) * base + DigitValue(s[|s| - 1])
  }

  lemma DigitReads(d: nat, upper: bool)
    requires d < 16
    ensures DigitValue(DigitChar(d, upper)) == d
  {
  }

  lemma ReadsStep(s: string, c: char, base: nat)
    ensures Reads(s + [c], base) == Reads(s, base) * base + DigitValue(c)
  {
    hide DigitValue;
    assert (s + [c])[..|s|] == s;
  }

  lemma ReadsOne(c: char, base: nat)
    ensures Reads([c], base) == DigitValue(c)
  {
    hide DigitValue;
    assert [c][..0] == "";
    assert Reads("", base) * base == 0;
  }

  /** The digits read back to the value, in bases 8, 10, 16 and any other up to 16. */
  lemma {:induction false} DigitsReadBack(v: nat, base: nat, upper: bool)
    requires 2 <= base <= 16
    ensures Reads(Digits(v, base, upper), base) == v
    decreases v
  {
    hide DigitChar, DigitValue, Reads;
    if v < base {
      DigitReads(v, upper);
      ReadsOne(DigitChar(v, upper), base);
    } else {
      DigitReads(v % base, upper);
      DigitsReadBack(v / base, base, upper);
      ReadsStep(Digits(v / base, base, upper), DigitChar(v % base, upper), base);
    }
  }

  function Decimal(n: nat): string { Digits(n, 10, false) }

  lemma DecimalStep(n: nat)
    ensures Decimal(n) == (if n < 10 then "" else Decimal(n / 10)) + [('0' as int + n % 10) as char]
  {
  }

  lemma {:induction false} DecimalDigits(n: nat)
    ensures Decimal(n) != "" && forall i :: 0 <= i < |Decimal(n)| ==> IsDigit(Decimal(n)[i])
  {
    hide Decimal;
    DecimalStep(n);
    if n >= 10 {
      DecimalDigits(n / 10);
    }
  }
}
