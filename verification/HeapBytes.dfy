/** Block headers in raw memory: the struct of kernel/arch/x86_64/mm/heap.c as 32 little-endian bytes. */
module HeapBytes {
  import opened Common

  type Bytes = seq<Byte>

  function Pow256(n: nat): nat {
    if n == 0 then 1 else 256 * Pow256(n - 1)
  }

  /** The number whose little-endian bytes are `s`. */
  function Value(s: Bytes): nat {
    if s == [] then 0 else s[0] + 256 * Value(s[1..])
  }

  /** The low `n` bytes of `v`. */
  function Encode(v: nat, n: nat): (s: Bytes)
    ensures |s| == n
  {
    if n == 0 then [] else [v % 256] + Encode(v / 256, n - 1)
  }

  lemma {:induction false} EncodeValue(v: nat, n: nat)
    requires v < Pow256(n)
    ensures Value(Encode(v, n)) == v
    decreases n
  {
    if n > 0 {
      EncodeValue(v / 256, n - 1);
      assert Encode(v, n)[1..] == Encode(v / 256, n - 1);
    }
  }

  lemma {:induction false} ValueEncode(s: Bytes)
    ensures Encode(Value(s), |s|) == s
    ensures Value(s) < Pow256(|s|)
  {
    if s != [] {
      hide Encode;
      var v := Value(s[1..]);
      ValueEncode(s[1..]);
      LowByte(s[0], v, |s|);
      assert s == [s[0]] + s[1..];
    }
  }

  lemma LowByte(b: Byte, v: nat, n: nat)
    requires n > 0
    ensures Encode(b + 256 * v, n) == [b] + Encode(v, n - 1)
  {
    assert (b + 256 * v) % 256 == b && (b + 256 * v) / 256 == v;
  }

  lemma Widths()
    ensures Pow256(4) == 0x1_0000_0000 && Pow256(8) == 0x1_0000_0000_0000_0000
  {
    assert Pow256(1) == 256;
    assert Pow256(2) == 0x1_0000;
    assert Pow256(3) == 0x100_0000;
    assert Pow256(5) == 0x100_0000_0000;
    assert Pow256(6) == 0x1_0000_0000_0000;
  }

  // ----- Memory accesses -----

  function Write(m: Bytes, a: nat, s: Bytes): (m': Bytes)
    requires a + |s| <= |m|
    ensures |m'| == |m|
    ensures m'[a..a + |s|] == s
    ensures forall x :: 0 <= x < |m| && !(a <= x < a + |s|) ==> m'[x] == m[x]
  {
    m[..a] + s + m[a + |s|..]
  }

  lemma SubSlice(m: Bytes, a: nat, b: nat, c: nat, d: nat)
    requires a <= b <= |m| && c <= d <= b - a
    ensures m[a..b][c..d] == m[a + c..a + d]
  {
    forall x | 0 <= x < d - c
      ensures m[a..b][c..d][x] == m[a + c..a + d][x]
    {
    }
  }

  // ----- Headers -----

  datatype Header = Header(magic: nat, used: nat, size: nat, prev: nat, next: nat)

  /** The fields fit their C types. */
  predicate Fits(h: Header) {
    && h.magic < 0x1_0000_0000 && h.used < 0x1_0000_0000
    && h.size < 0x1_0000_0000_0000_0000 && h.prev < 0x1_0000_0000_0000_0000 && h.next < 0x1_0000_0000_0000_0000
  }

  function HeaderBytes(h: Header): (s: Bytes)
    ensures |s| == 32
  {
    Encode(h.magic, 4) + Encode(h.used, 4) + Encode(h.size, 8) + Encode(h.prev, 8) + Encode(h.next, 8)
  }

  function HeaderOf(s: Bytes): Header
    requires |s| == 32
  {
    Header(Value(s[..4]), Value(s[4..8]), Value(s[8..16]), Value(s[16..24]), Value(s[24..]))
  }

  /** The header at address `a`. */
  function At(m: Bytes, a: nat): Header
    requires a + 32 <= |m|
  {
    HeaderOf(m[a..a + 32])
  }

  /** Memory with header `h` at address `a`. */
  function Put(m: Bytes, a: nat, h: Header): Bytes
    requires a + 32 <= |m|
  {
    Write(m, a, HeaderBytes(h))
  }

  lemma HeaderBack(h: Header)
    requires Fits(h)
    ensures HeaderOf(HeaderBytes(h)) == h
  {
    hide Value, Encode;
    Widths();
    var s := HeaderBytes(h);
    assert s[..4] == Encode(h.magic, 4);
    assert s[4..8] == Encode(h.used, 4);
    assert s[8..16] == Encode(h.size, 8);
    assert s[16..24] == Encode(h.prev, 8);
    assert s[24..] == Encode(h.next, 8);
    EncodeValue(h.magic, 4);
    EncodeValue(h.used, 4);
    EncodeValue(h.size, 8);
    EncodeValue(h.prev, 8);
    EncodeValue(h.next, 8);
  }

  lemma BytesBack(s: Bytes)
    requires |s| == 32
    ensures HeaderBytes(HeaderOf(s)) == s && Fits(HeaderOf(s))
  {
    hide Value, Encode;
    Widths();
    ValueEncode(s[..4]);
    ValueEncode(s[4..8]);
    ValueEncode(s[8..16]);
    ValueEncode(s[16..24]);
    ValueEncode(s[24..]);
    assert s == s[..4] + s[4..8] + s[8..16] + s[16..24] + s[24..];
  }

  lemma PutSame(m: Bytes, a: nat, h: Header)
    requires a + 32 <= |m| && Fits(h)
    ensures At(Put(m, a, h), a) == h
  {
    hide HeaderOf, HeaderBytes;
    HeaderBack(h);
  }

  lemma AtFits(m: Bytes, a: nat)
    requires a + 32 <= |m|
    ensures Fits(At(m, a))
  {
    hide HeaderOf;
    BytesBack(m[a..a + 32]);
  }

  // ----- Writing one field -----

  datatype Field = Magic | Used | Size | Prev | Next

  function Offset(f: Field): nat {
    match f
    case Magic => 0
    case Used => 4
    case Size => 8
    case Prev => 16
    case Next => 24
  }

  function Width(f: Field): nat {
    if f == Magic || f == Used then 4 else 8
  }

  function Get(h: Header, f: Field): nat {
    match f
    case Magic => h.magic
    case Used => h.used
    case Size => h.size
    case Prev => h.prev
    case Next => h.next
  }

  function Set(h: Header, f: Field, v: nat): Header {
    match f
    case Magic => h.(magic := v)
    case Used => h.(used := v)
    case Size => h.(size := v)
    case Prev => h.(prev := v)
    case Next => h.(next := v)
  }

  /** Reading the bytes of a field reads that field of the header. */
  lemma FieldRead(m: Bytes, a: nat, f: Field)
    requires a + 32 <= |m|
    ensures Value(m[a + Offset(f)..a + Offset(f) + Width(f)]) == Get(At(m, a), f)
  {
    hide Value;
    SubSlice(m, a, a + 32, Offset(f), Offset(f) + Width(f));
  }

  /** Writing the bytes of a field changes that field of the header and nothing else. */
  lemma FieldWrite(m: Bytes, a: nat, f: Field, v: nat)
    requires a + 32 <= |m|
    ensures Write(m, a + Offset(f), Encode(v, Width(f))) == Put(m, a, Set(At(m, a), f, v))
  {
    hide Value, Encode, HeaderOf, HeaderBytes, Write;
    FieldBytes(m[a..a + 32], f, v);
    WriteInside(m, a, 32, Offset(f), Encode(v, Width(f)));
  }

  /** A write inside a range is a write of that range. */
  lemma WriteInside(m: Bytes, a: nat, n: nat, k: nat, t: Bytes)
    requires a + n <= |m| && k + |t| <= n
    ensures Write(m, a + k, t) == Write(m, a, Write(m[a..a + n], k, t))
  {
    var s := m[a..a + n];
    forall x | 0 <= x < |m|
      ensures Write(m, a + k, t)[x] == Write(m, a, Write(s, k, t))[x]
    {
      WriteAt(m, a + k, t, x);
      WriteAt(m, a, Write(s, k, t), x);
      if a <= x < a + n {
        WriteAt(s, k, t, x - a);
      }
    }
  }

  lemma WriteAt(m: Bytes, a: nat, s: Bytes, x: nat)
    requires a + |s| <= |m| && x < |m|
    ensures Write(m, a, s)[x] == if a <= x < a + |s| then s[x - a] else m[x]
  {
  }

  lemma FieldBytes(s: Bytes, f: Field, v: nat)
    requires |s| == 32
    ensures Write(s, Offset(f), Encode(v, Width(f))) == HeaderBytes(Set(HeaderOf(s), f, v))
  {
    hide Value, Encode;
    ValueEncode(s[..4]);
    ValueEncode(s[4..8]);
    ValueEncode(s[8..16]);
    ValueEncode(s[16..24]);
    ValueEncode(s[24..]);
    match f
    case Magic =>
    case Used =>
    case Size =>
    case Prev =>
    case Next =>
  }
}
