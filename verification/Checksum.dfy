/** The Internet checksum (kernel/net/ipv4.c; RFC 1071). */
module Checksum {
  import opened Common

  function Word(lo: Byte, hi: Byte): nat { lo as int + 256 * hi as int }

  /** The little-endian 16-bit words of `data` added up; an odd last byte counts as it is. */
  function Sum(data: seq<Byte>): nat {
    if data == [] then 0
    else if |data| == 1 then data[0]
    else Word(data[0], data[1]) + Sum(data[2..])
  }

  // ----- Congruence modulo 65535 -----

  predicate Cong(a: int, b: int) { (a - b) % 65535 == 0 }

  lemma CongTrans(a: int, b: int, c: int)
    requires Cong(a, b) && Cong(b, c)
    ensures Cong(a, c)
  {
    Multiple(a - b, b - c);
  }

  lemma Multiple(x: int, y: int)
    requires x % 65535 == 0 && y % 65535 == 0
    ensures (x + y) % 65535 == 0 && (256 * x) % 65535 == 0 && (-x) % 65535 == 0
  {
    var p, q := x / 65535, y / 65535;
    assert x == 65535 * p && y == 65535 * q;
    Product(p + q);
    Product(256 * p);
    Product(-p);
  }

  lemma Product(q: int)
    ensures (65535 * q) % 65535 == 0
  {
  }

  lemma CongSym(a: int, b: int)
    requires Cong(a, b)
    ensures Cong(b, a)
  {
    Multiple(a - b, 0);
  }

  lemma CongAdd(a: int, b: int, c: int)
    requires Cong(a, b)
    ensures Cong(a + c, b + c)
  {
  }

  lemma CongMul(a: int, b: int)
    requires Cong(a, b)
    ensures Cong(256 * a, 256 * b)
  {
    Multiple(a - b, 0);
  }

  /** Two 16-bit numbers that are congruent are equal, but for 0 and 65535. */
  lemma CongEqual(a: nat, b: nat)
    requires a <= 65535 && b <= 65535 && Cong(a, b) && (a == 0 <==> b == 0)
    ensures a == b
  {
  }

  // ----- The checksum -----

  /** The end-around carries. */
  function Fold(s: nat): nat {
    if s < 65536 then s else Fold(s % 65536 + s / 65536)
  }

  lemma {:induction false} FoldIs(s: nat)
    ensures Fold(s) <= 65535 && Cong(Fold(s), s) && (Fold(s) == 0 <==> s == 0)
  {
    if s >= 65536 {
      hide Cong;
      var s1 := s % 65536 + s / 65536;
      FoldIs(s1);
      CarryCong(s);
      CongTrans(Fold(s), s1, s);
    }
  }

  lemma CarryCong(s: nat)
    ensures Cong(s % 65536 + s / 65536, s)
  {
    Product(-(s / 65536));
    assert s % 65536 + s / 65536 - s == 65535 * -(s / 65536);
  }

  function Check(data: seq<Byte>): (c: nat)
    ensures c <= 65535
  {
    FoldIs(Sum(data));
    65535 - Fold(Sum(data))
  }

  /** ip_checksum with its 32-bit accumulator, which never overflows. */
  method IpChecksum(data: seq<Byte>) returns (c: nat)
    requires |data| <= 0xFFFF
    ensures c == Check(data) && c <= 0xFFFF
  {
    hide Fold;
    var sum := AddWords(data);
    var folded := FoldSum(sum);
    FoldIs(sum);
    c := 0xFFFF - folded;
  }

  method AddWords(data: seq<Byte>) returns (sum: nat)
    requires |data| <= 0xFFFF
    ensures sum == Sum(data) && sum <= 0xFFFF_FFFF
  {
    hide Word;
    sum := 0;
    var count, i: nat := |data|, 0;
    assert data[0..] == data;
    while count > 1
      invariant count >= 0 && i + count == |data| && sum + Sum(data[i..]) == Sum(data)
      invariant 2 * sum <= 65535 * i
    {
      assert data[i..][2..] == data[i + 2..];
      WordSmall(data[i], data[i + 1]);
      sum := (sum + Word(data[i], data[i + 1])) % 0x1_0000_0000;
      i, count := i + 2, count - 2;
    }
    if count == 1 {
      sum := (sum + data[i] as int) % 0x1_0000_0000;
    }
  }

  lemma WordSmall(lo: Byte, hi: Byte)
    ensures Word(lo, hi) <= 65535
  {
  }

  method FoldSum(total: nat) returns (sum: nat)
    requires total <= 0xFFFF_FFFF
    ensures sum == Fold(total)
  {
    sum := total;
    while sum / 0x1_0000 != 0
      invariant sum <= 0xFFFF_FFFF && Fold(sum) == Fold(total)
      decreases sum
    {
      sum := (sum % 0x1_0000 + sum / 0x1_0000) % 0x1_0000_0000;
    }
  }

  // ----- Storing the checksum -----

  /** The 16-bit word `c` stored at offset `k`. */
  function Store(data: seq<Byte>, k: nat, c: nat): seq<Byte>
    requires k + 1 < |data| && c <= 65535
  {
    data[k := c % 256][k + 1 := c / 256]
  }

  lemma {:induction false} SumStore(data: seq<Byte>, k: nat, c: nat)
    requires k + 1 < |data| && k % 2 == 0 && c <= 65535
    ensures Sum(Store(data, k, c)) == Sum(data) - Word(data[k], data[k + 1]) + c
    decreases k
  {
    if k >= 2 {
      SumStore(data[2..], k - 2, c);
      assert Store(data, k, c)[2..] == Store(data[2..], k - 2, c);
    } else {
      assert Store(data, k, c)[2..] == data[2..];
    }
  }

  /** Storing the checksum in its zeroed, aligned word makes the checksum of the whole 0. */
  lemma StoredIsZero(data: seq<Byte>, k: nat)
    requires k + 1 < |data| && k % 2 == 0 && data[k] == data[k + 1] == 0
    ensures Check(Store(data, k, Check(data))) == 0
  {
    hide Fold, Sum, Cong;
    var s := Sum(data);
    SumStore(data, k, Check(data));
    FoldIs(s);
    ZeroSum(s, 65535 - Fold(s));
  }

  // ----- The receiver -----

  /** The test of ipv4_rx_handler: the checksum with the field zeroed equals the field. */
  predicate Accepts(header: seq<Byte>, k: nat)
    requires k + 1 < |header|
  {
    Check(Store(header, k, 0)) == Word(header[k], header[k + 1])
  }

  /** The receiver accepts what the sender stored. */
  lemma SentIsAccepted(header: seq<Byte>, k: nat)
    requires k + 1 < |header| && k % 2 == 0 && header[k] == header[k + 1] == 0
    ensures Accepts(Store(header, k, Check(header)), k)
  {
    hide Fold, Sum;
    assert Store(Store(header, k, Check(header)), k, 0) == header;
  }

  /** The receiver's test is the zero-sum test of RFC 1071 except in one case: a header whose
      other words add up to all ones, with a field of all ones, has a zero checksum and is
      refused. */
  lemma AcceptsIffZero(header: seq<Byte>, k: nat)
    requires k + 1 < |header| && k % 2 == 0
    ensures Check(header) == 0 <==>
            Accepts(header, k) || (Check(Store(header, k, 0)) == 0 && header[k] == header[k + 1] == 255)
  {
    hide Fold, Sum;
    var zeroed := Store(header, k, 0);
    var w := Word(header[k], header[k + 1]);
    assert w % 256 == header[k] && w / 256 == header[k + 1];
    assert Store(zeroed, k, w) == header;
    SumStore(zeroed, k, w);
    ZeroSum(Sum(zeroed), w);
  }

  function Zeros(n: nat): (z: seq<Byte>)
    ensures |z| == n
  {
    if n == 0 then [] else [0] + Zeros(n - 1)
  }

  lemma {:induction false} SumZeros(n: nat)
    ensures Sum(Zeros(n)) == 0
  {
    if n >= 2 {
      assert Zeros(n)[2..] == Zeros(n - 2);
      SumZeros(n - 2);
    }
  }

  lemma {:induction false} SumConcat(a: seq<Byte>, b: seq<Byte>)
    requires |a| % 2 == 0
    ensures Sum(a + b) == Sum(a) + Sum(b)
  {
    if a == [] {
      assert a + b == b;
    } else {
      assert (a + b)[2..] == a[2..] + b;
      SumConcat(a[2..], b);
    }
  }

  /** A header of 20 bytes, for version 4 and without options, with the checksum field `field`. */
  function OnesHeader(field: nat): (h: seq<Byte>)
    requires field <= 65535
    ensures |h| == 20
  {
    [0x45, 0, 0xBA, 0xFF] + Zeros(6) + [field % 256, field / 256] + Zeros(8)
  }

  lemma OnesSum(field: nat)
    requires field <= 65535
    ensures Sum(OnesHeader(field)) == 0xFFFF + field
  {
    hide Zeros, Sum;
    var a, f := [0x45, 0, 0xBA, 0xFF], [field % 256, field / 256];
    SumConcat(a, Zeros(6));
    SumConcat(a + Zeros(6), f);
    SumConcat(a + Zeros(6) + f, Zeros(8));
    SumZeros(6);
    SumZeros(8);
    TwoWords(a);
    OneWord(f);
  }

  lemma OneWord(f: seq<Byte>)
    requires |f| == 2
    ensures Sum(f) == Word(f[0], f[1])
  {
  }

  lemma TwoWords(a: seq<Byte>)
    requires |a| == 4
    ensures Sum(a) == Word(a[0], a[1]) + Word(a[2], a[3])
  {
    OneWord(a[2..]);
  }

  /** With a field of all ones, that header has a zero checksum and is refused. */
  lemma AllOnesRefused()
    ensures Check(OnesHeader(0xFFFF)) == 0 && !Accepts(OnesHeader(0xFFFF), 10)
  {
    hide Fold, Sum;
    var header := OnesHeader(0xFFFF);
    assert header[10] == 255 && header[11] == 255;
    assert Store(header, 10, 0) == OnesHeader(0);
    OnesSum(0xFFFF);
    OnesSum(0);
    FoldIs(0xFFFF + 0xFFFF);
    FoldIs(0xFFFF);
  }

  lemma ZeroSum(s: nat, w: nat)
    requires w <= 65535
    ensures Fold(s) <= 65535
    ensures Fold(s + w) == 65535 <==> w == 65535 - Fold(s) || (Fold(s) == 65535 && w == 65535)
  {
    hide Fold, Cong;
    FoldIs(s);
    FoldIs(s + w);
    CongAdd(Fold(s), s, w);
    CongSym(Fold(s) + w, s + w);
    CongTrans(Fold(s + w), s + w, Fold(s) + w);
    Residues(Fold(s + w), Fold(s), w);
  }

  lemma Residues(t: nat, f: nat, w: nat)
    requires t <= 65535 && f <= 65535 && w <= 65535 && Cong(t, f + w) && (t == 0 <==> f == 0 && w == 0)
    ensures t == 65535 <==> w == 65535 - f || (f == 65535 && w == 65535)
  {
  }

  // ----- Byte order -----

  function Swap(w: nat): nat { w % 256 * 256 + w / 256 }

  /** The sum of the words in network byte order. */
  function BigSum(data: seq<Byte>): nat {
    if data == [] then 0
    else if |data| == 1 then 256 * data[0] as int
    else Word(data[1], data[0]) + BigSum(data[2..])
  }

  function BigCheck(data: seq<Byte>): (c: nat)
    ensures c <= 65535
  {
    FoldIs(BigSum(data));
    65535 - Fold(BigSum(data))
  }

  lemma WordSwap(lo: Byte, hi: Byte, a: int, b: int)
    requires Cong(a, 256 * b)
    ensures Cong(Word(hi, lo) + a, 256 * (Word(lo, hi) + b))
  {
    var x := a - 256 * b;
    Multiple(x, 0);
    var h: int := hi;
    Product(-h);
    Multiple(x, 65535 * -h);
    assert Word(hi, lo) + a - 256 * (Word(lo, hi) + b) == x + 65535 * -h;
  }

  lemma {:induction false} BigSumIs(data: seq<Byte>)
    ensures Cong(BigSum(data), 256 * Sum(data))
    ensures BigSum(data) == 0 <==> Sum(data) == 0
    decreases |data|
  {
    if |data| >= 2 {
      BigSumIs(data[2..]);
      WordSwap(data[0], data[1], BigSum(data[2..]), Sum(data[2..]));
    }
  }

  lemma SwapIs(w: nat)
    requires w <= 65535
    ensures Swap(w) <= 65535 && Cong(Swap(w), 256 * w) && (Swap(w) == 0 <==> w == 0)
    ensures Swap(65535 - w) == 65535 - Swap(w)
    ensures Swap(w) % 256 == w / 256 && Swap(w) / 256 == w % 256
  {
    Product(-(w / 256));
    assert w % 256 * 256 + w / 256 - 256 * w == 65535 * -(w / 256);
    assert 65535 - w == (255 - w / 256) * 256 + (255 - w % 256);
  }

  /** The stored bytes are those of the big-endian computation: the checksum does not depend
      on the byte order of the machine. */
  lemma ByteOrderIndependent(data: seq<Byte>)
    ensures BigCheck(data) == Swap(Check(data))
    ensures Check(data) % 256 == BigCheck(data) / 256 && Check(data) / 256 == BigCheck(data) % 256
  {
    hide Fold, Sum, BigSum, Cong, Swap;
    var s, b := Sum(data), BigSum(data);
    FoldIs(s);
    FoldIs(b);
    BigSumIs(data);
    SwapIs(Fold(s));
    SwapIs(Check(data));
    CongTrans(Fold(b), b, 256 * s);
    CongSym(Fold(s), s);
    CongMul(s, Fold(s));
    CongTrans(Fold(b), 256 * s, 256 * Fold(s));
    CongSym(Swap(Fold(s)), 256 * Fold(s));
    CongTrans(Fold(b), 256 * Fold(s), Swap(Fold(s)));
    CongEqual(Fold(b), Swap(Fold(s)));
  }
}
