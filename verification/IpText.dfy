/** Dotted addresses (kernel/net/ethernet.c): str_to_ip undoes ip_to_str. */
module IpText {
  import opened Common
  import opened Numerals
  import opened Format
  import Printf

  /** An address as its four bytes in memory. */
  datatype Ip = Ip(a: Byte, b: Byte, c: Byte, d: Byte)

  function Dotted(ip: Ip): string {
    Decimal(ip.a) + "." + (Decimal(ip.b) + "." + (Decimal(ip.c) + "." + (Decimal(ip.d) + "")))
  }

  function Args(ip: Ip): seq<Arg> { [Word(ip.a), Word(ip.b), Word(ip.c), Word(ip.d)] }

  // ----- Printing -----

  /** A plain `%d` of a small number is its decimal digits. */
  lemma PercentD(b: nat, rest: string, args: seq<Arg>)
    requires b < 0x8000_0000
    ensures Directive("d" + rest, [Word(b)] + args) == Some(Step(Decimal(b), rest, args))
  {
    hide Digits;
    var f := "d" + rest;
    assert f[1..] == rest && ([Word(b)] + args)[1..] == args;
    assert ReadFlags(f, Flags(false, false, false)) == (Flags(false, false, false), f);
    assert ReadStar(f, [Word(b)] + args) == (0, f, [Word(b)] + args);
    assert "" + "" + Decimal(b) == Decimal(b);
  }

  lemma OneOctet(b: nat, rest: string, args: seq<Arg>, o: string)
    requires b < 0x8000_0000 && Output(rest, args) == Some(o)
    ensures Output("%d" + rest, [Word(b)] + args) == Some(Decimal(b) + o)
  {
    hide Directive, Digits;
    var f := "%d" + rest;
    assert f[1..] == "d" + rest;
    PercentD(b, rest, args);
  }

  lemma Dot(rest: string, args: seq<Arg>, o: string)
    requires Output(rest, args) == Some(o)
    ensures Output("." + rest, args) == Some("." + o)
  {
    hide Directive;
    assert ("." + rest)[1..] == rest;
  }

  /** What ip_to_str prints. */
  lemma Prints(ip: Ip)
    ensures Output("%d.%d.%d.%d", Args(ip)) == Some(Dotted(ip))
  {
    hide Output, Digits;
    assert Output("", []) == Some("") by { Nothing(); }
    OneOctet(ip.d, "", [], "");
    var o4 := Decimal(ip.d) + "";
    assert "%d" + "" == "%d" && [Word(ip.d)] + [] == [Word(ip.d)];
    Dot("%d", [Word(ip.d)], o4);
    assert "." + "%d" == ".%d";
    OneOctet(ip.c, ".%d", [Word(ip.d)], "." + o4);
    assert "%d" + ".%d" == "%d.%d" && [Word(ip.c)] + [Word(ip.d)] == [Word(ip.c), Word(ip.d)];
    var o3 := Decimal(ip.c) + ("." + o4);
    Dot("%d.%d", [Word(ip.c), Word(ip.d)], o3);
    assert "." + "%d.%d" == ".%d.%d";
    OneOctet(ip.b, ".%d.%d", [Word(ip.c), Word(ip.d)], "." + o3);
    assert "%d" + ".%d.%d" == "%d.%d.%d" &&
      [Word(ip.b)] + [Word(ip.c), Word(ip.d)] == [Word(ip.b), Word(ip.c), Word(ip.d)];
    var o2 := Decimal(ip.b) + ("." + o3);
    Dot("%d.%d.%d", [Word(ip.b), Word(ip.c), Word(ip.d)], o2);
    assert "." + "%d.%d.%d" == ".%d.%d.%d";
    OneOctet(ip.a, ".%d.%d.%d", [Word(ip.b), Word(ip.c), Word(ip.d)], "." + o2);
    assert "%d" + ".%d.%d.%d" == "%d.%d.%d.%d";
    assert [Word(ip.a)] + [Word(ip.b), Word(ip.c), Word(ip.d)] == Args(ip);
    assert Decimal(ip.a) + ("." + o2) == Dotted(ip);
  }

  lemma Nothing()
    ensures Output("", []) == Some("")
  {
  }

  // ----- Reading -----

  /** The digits at the start of `f` in 32 bits, and what follows. */
  function ReadOctet(f: string, acc: nat): (r: (nat, string))
    ensures |r.1| <= |f|
    decreases |f|
  {
    if f != "" && IsDigit(f[0]) then ReadOctet(f[1..], (acc * 10 + (f[0] as int - '0' as int)) % 0x1_0000_0000)
    else (acc, f)
  }

  function SkipDot(f: string): string { if f != "" && f[0] == '.' then f[1..] else f }

  /** One octet, truncated to a byte, and what follows its dot. */
  function Octet(f: string): (Byte, string) {
    (ReadOctet(f, 0).0 % 256, SkipDot(ReadOctet(f, 0).1))
  }

  function Octets(n: nat, f: string): (s: seq<Byte>)
    ensures |s| == n
  {
    if n == 0 then [] else [Octet(f).0] + Octets(n - 1, Octet(f).1)
  }

  function Parse(f: string): Ip {
    var o := Octets(4, f);
    Ip(o[0], o[1], o[2], o[3])
  }

  method StrToIp(s: string) returns (ip: Ip)
    ensures ip == Parse(s)
  {
    hide Octet;
    var result: seq<Byte> := [];
    var f := s;
    for i := 0 to 4
      invariant |result| == i && result + Octets(4 - i, f) == Octets(4, s)
    {
      var octet;
      octet, f := ScanOctet(f);
      result := result + [octet];
    }
    ip := Ip(result[0], result[1], result[2], result[3]);
  }

  method ScanOctet(f0: string) returns (byte: Byte, f: string)
    ensures (byte, f) == Octet(f0)
  {
    f := f0;
    var octet: nat := 0;
    while f != "" && IsDigit(f[0])
      invariant ReadOctet(f, octet) == ReadOctet(f0, 0)
      decreases |f|
    {
      octet := (octet * 10 + (f[0] as int - '0' as int)) % 0x1_0000_0000;
      f := f[1..];
    }
    if f != "" && f[0] == '.' {
      f := f[1..];
    }
    byte := octet % 256;
  }

  // ----- Round trip -----

  lemma ShortDecimal(b: nat)
    requires b < 256
    ensures |Decimal(b)| <= 3
  {
    if b >= 10 {
      assert |Decimal(b)| == |Decimal(b / 10)| + 1;
      if b >= 100 {
        assert |Decimal(b / 10)| == |Decimal(b / 10 / 10)| + 1;
      }
    }
  }

  lemma OneDigit(d: nat, acc: nat, rest: string)
    requires d < 10 && acc * 10 + d < 0x1_0000_0000
    ensures ReadOctet([DigitChar(d, false)] + rest, acc) == ReadOctet(rest, acc * 10 + d)
  {
    var f := [DigitChar(d, false)] + rest;
    assert f[1..] == rest;
  }

  /** The digits of a 32-bit number are read back, and reading goes on after them. */
  lemma {:induction false} DecimalBack(v: nat, rest: string)
    requires v < 0x1_0000_0000
    ensures ReadOctet(Decimal(v) + rest, 0) == ReadOctet(rest, v)
    decreases v
  {
    hide ReadOctet, DigitChar;
    if v < 10 {
      OneDigit(v, 0, rest);
    } else {
      var c := DigitChar(v % 10, false);
      assert Decimal(v) + rest == Decimal(v / 10) + ([c] + rest);
      DecimalBack(v / 10, [c] + rest);
      OneDigit(v % 10, v / 10, rest);
    }
  }

  lemma OctetBack(b: Byte, rest: string)
    requires rest == "" || rest[0] == '.'
    ensures Octet(Decimal(b) + rest) == (b, SkipDot(rest))
  {
    hide Decimal;
    DecimalBack(b, rest);
  }

  lemma OctetDot(b: Byte, rest: string)
    ensures Octet(Decimal(b) + "." + rest) == (b, rest)
  {
    hide Decimal, Octet;
    assert Decimal(b) + "." + rest == Decimal(b) + ("." + rest);
    OctetBack(b, "." + rest);
    assert ("." + rest)[1..] == rest;
  }

  /** ip_to_str fits its 16-byte buffer with the NUL, and str_to_ip reads the address back. */
  lemma IpRoundTrip(ip: Ip)
    ensures Output("%d.%d.%d.%d", Args(ip)) == Some(Dotted(ip))
    ensures |Dotted(ip)| <= 15
    ensures Parse(Dotted(ip)) == ip
  {
    Prints(ip);
    hide Output, Octet, Decimal;
    ShortDecimal(ip.a);
    ShortDecimal(ip.b);
    ShortDecimal(ip.c);
    ShortDecimal(ip.d);
    var f3 := Decimal(ip.d) + "";
    var f2 := Decimal(ip.c) + "." + f3;
    var f1 := Decimal(ip.b) + "." + f2;
    OctetDot(ip.a, f1);
    OctetDot(ip.b, f2);
    OctetDot(ip.c, f3);
    OctetBack(ip.d, "");
    FourOctets(Dotted(ip));
  }

  lemma FourOctets(f: string)
    ensures var o1 := Octet(f);
            var o2 := Octet(o1.1);
            var o3 := Octet(o2.1);
            Octets(4, f) == [o1.0, o2.0, o3.0, Octet(o3.1).0]
  {
    hide Octet;
    var f1 := Octet(f).1;
    var f2 := Octet(f1).1;
    var f3 := Octet(f2).1;
    assert Octets(1, f3) == [Octet(f3).0];
    assert Octets(2, f2) == [Octet(f2).0] + Octets(1, f3);
    assert Octets(3, f1) == [Octet(f1).0] + Octets(2, f2);
  }

  /** ip_to_str followed by str_to_ip. */
  method PrintAndParse(ip: Ip) returns (text: string, back: Ip)
    ensures text == Dotted(ip) && back == ip
  {
    hide Output, Octet, Octets, Dotted;
    IpRoundTrip(ip);
    var buf := new char[16];
    var n := Printf.Kvsnprintf(buf, 16, "%d.%d.%d.%d", Args(ip));
    text := buf[..n];
    assert text == Dotted(ip)[..n] == Dotted(ip);
    back := StrToIp(text);
  }
}
