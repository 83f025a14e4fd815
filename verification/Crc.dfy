/** The reflected CRC-32 of GPT headers and partition entries (kernel/installer/installer.c;
    section 5.3 of the UEFI Specification). */
module Crc {

  type Word = bv32

  predicate IsByte(b: Word) { b & 0xFFFF_FF00 == 0 }

  /** A byte, widened as in `crc ^= data[i]`. */
  type Byte = b: Word | IsByte(b) witness 0

  function Xor(a: Word, b: Word): Word { a ^ b }

  function Not(a: Word): Word { !a }

  function Up(v: Word): Word { v << 8 }

  function Step(c: Word): Word {
    if c & 1 == 1 then (c >> 1) ^ 0xEDB8_8320 else c >> 1
  }

  function Steps(n: nat, c: Word): Word {
    if n == 0 then c else Steps(n - 1, Step(c))
  }

  /** The register after the bytes of `data`. */
  function Fold(c: Word, data: seq<Byte>): Word
    decreases |data|
  {
    if data == [] then c else Fold(Steps(8, Xor(c, data[0])), data[1..])
  }

  const START: Word := 0xFFFF_FFFF

  function Crc32(data: seq<Byte>): Word { Not(Fold(START, data)) }

  // ----- Words -----

  lemma XorCancel(a: Word, b: Word, c: Word)
    ensures Xor(a, c) == Xor(b, c) <==> a == b
    ensures Xor(c, a) == Xor(c, b) <==> a == b
  {
  }

  lemma XorAssoc(a: Word, b: Word, c: Word)
    ensures Xor(Xor(a, b), c) == Xor(a, Xor(b, c))
  {
  }

  lemma XorZero(a: Word)
    ensures Xor(a, 0) == a
  {
  }

  lemma NotInjective(a: Word, b: Word)
    requires Not(a) == Not(b)
    ensures a == b
  {
  }

  // ----- One step is linear and injective -----

  lemma StepLinear(a: Word, b: Word)
    ensures Step(Xor(a, b)) == Xor(Step(a), Step(b))
  {
    LowBit(a, b);
  }

  lemma LowBit(a: Word, b: Word)
    ensures (a & 1 == 0 || a & 1 == 1) && (b & 1 == 0 || b & 1 == 1)
    ensures (a ^ b) & 1 == (a & 1) ^ (b & 1) && (a ^ b) >> 1 == (a >> 1) ^ (b >> 1)
  {
  }

  lemma StepInjective(a: Word, b: Word)
    requires Step(a) == Step(b)
    ensures a == b
  {
  }

  // ----- Many steps -----

  lemma {:induction false} StepsLinear(n: nat, a: Word, b: Word)
    ensures Steps(n, Xor(a, b)) == Xor(Steps(n, a), Steps(n, b))
  {
    hide Step, Xor;
    if n > 0 {
      StepLinear(a, b);
      StepsLinear(n - 1, Step(a), Step(b));
    }
  }

  lemma {:induction false} StepsInjective(n: nat, a: Word, b: Word)
    requires Steps(n, a) == Steps(n, b)
    ensures a == b
  {
    hide Step;
    if n > 0 {
      StepsInjective(n - 1, Step(a), Step(b));
      StepInjective(a, b);
    }
  }

  lemma {:induction false} StepsAdd(m: nat, n: nat, c: Word)
    ensures Steps(m + n, c) == Steps(n, Steps(m, c))
  {
    hide Step;
    if m > 0 {
      StepsAdd(m - 1, n, Step(c));
    }
  }

  function Twice(v: Word): Word { v << 1 }

  predicate TopClear(v: Word) { v & 0x8000_0000 == 0 }

  /** Shifting in a zero bit is undone by a step. */
  lemma Peel(n: nat, v: Word)
    requires TopClear(v)
    ensures Steps(n + 1, Twice(v)) == Steps(n, v)
  {
    assert Step(Twice(v)) == v;
  }

  lemma ByteTops(v: Word)
    requires Fits3(v)
    ensures var w := Twice(Twice(Twice(Twice(v))));
            && TopClear(v) && TopClear(Twice(v)) && TopClear(Twice(Twice(v))) && TopClear(Twice(Twice(Twice(v))))
            && TopClear(w) && TopClear(Twice(w)) && TopClear(Twice(Twice(w))) && TopClear(Twice(Twice(Twice(w))))
            && Twice(Twice(Twice(Twice(w)))) == Up(v)
  {
  }

  /** A whole byte of zero bits. */
  lemma ByteShift(v: Word)
    requires Fits3(v)
    ensures Steps(8, Up(v)) == v
  {
    ByteTops(v);
    hide Fits3, Twice, Steps, TopClear, Up;
    var w := Twice(Twice(Twice(Twice(v))));
    Peel(7, Twice(Twice(Twice(w))));
    Peel(6, Twice(Twice(w)));
    Peel(5, Twice(w));
    Peel(4, w);
    Peel(3, Twice(Twice(Twice(v))));
    Peel(2, Twice(Twice(v)));
    Peel(1, Twice(v));
    Peel(0, v);
    NoSteps(v);
  }

  lemma NoSteps(c: Word)
    ensures Steps(0, c) == c
  {
  }

  // ----- Whole messages -----

  lemma {:induction false} FoldAppend(c: Word, a: seq<Byte>, b: seq<Byte>)
    ensures Fold(c, a + b) == Fold(Fold(c, a), b)
    decreases |a|
  {
    hide Steps, Xor, IsByte;
    if a == [] {
      assert a + b == b;
    } else {
      assert (a + b)[1..] == a[1..] + b;
      FoldAppend(Steps(8, Xor(c, a[0])), a[1..], b);
    }
  }

  lemma {:induction false} FoldInjective(c: Word, d: Word, data: seq<Byte>)
    requires Fold(c, data) == Fold(d, data)
    ensures c == d
    decreases |data|
  {
    hide Steps, Xor, IsByte;
    if data != [] {
      FoldInjective(Steps(8, Xor(c, data[0])), Steps(8, Xor(d, data[0])), data[1..]);
      StepsInjective(8, Xor(c, data[0]), Xor(d, data[0]));
      XorCancel(c, d, data[0]);
    }
  }

  // ----- Up to four bytes at once -----

  /** Bytes as a little-endian word. */
  function Little(d: seq<Byte>): Word {
    if d == [] then 0 else Xor(d[0], Up(Little(d[1..])))
  }

  predicate Fits2(v: Word) { v & 0xFFFF_0000 == 0 }

  predicate Fits3(v: Word) { v & 0xFF00_0000 == 0 }

  lemma Fits1Step(b: Word)
    requires IsByte(b)
    ensures IsByte(Xor(b, Up(0)))
  {
  }

  lemma Fits2Step(b: Word, v: Word)
    requires IsByte(b) && IsByte(v)
    ensures Fits2(Xor(b, Up(v)))
  {
  }

  lemma Fits3Step(b: Word, v: Word)
    requires IsByte(b) && Fits2(v)
    ensures Fits3(Xor(b, Up(v)))
  {
  }

  lemma FitsMore(v: Word)
    ensures (IsByte(v) ==> Fits3(v)) && (Fits2(v) ==> Fits3(v)) && Fits3(0)
  {
  }

  /** Three bytes leave the upper byte of the word zero. */
  lemma LittleFits(d: seq<Byte>)
    requires |d| <= 3
    ensures Fits3(Little(d))
  {
    hide Xor, Up, IsByte, Fits2, Fits3, Little;
    LittleUnfold(d);
    FitsMore(Little(d));
    if |d| > 0 {
      var d1 := d[1..];
      LittleUnfold(d1);
      if |d| == 1 {
        Fits1Step(d[0]);
      } else {
        var d2 := d1[1..];
        LittleUnfold(d2);
        if |d| == 2 {
          Fits1Step(d1[0]);
          Fits2Step(d[0], Little(d1));
        } else {
          LittleUnfold(d2[1..]);
          Fits1Step(d2[0]);
          Fits2Step(d1[0], Little(d2));
          Fits3Step(d[0], Little(d1));
        }
      }
    }
  }

  lemma LittleUnfold(d: seq<Byte>)
    ensures Little(d) == if d == [] then 0 else Xor(d[0], Up(Little(d[1..])))
  {
    hide Xor, Up, IsByte;
  }

  lemma LittleApart(b: Word, v: Word, b': Word, v': Word)
    requires IsByte(b) && IsByte(b') && Xor(b, Up(v)) == Xor(b', Up(v')) && Fits3(v) && Fits3(v')
    ensures b == b' && v == v'
  {
  }

  lemma {:induction false} LittleInjective(x: seq<Byte>, y: seq<Byte>)
    requires |x| == |y| <= 4 && Little(x) == Little(y)
    ensures x == y
  {
    hide Fits3, Xor, Up, IsByte;
    if x != [] {
      LittleFits(x[1..]);
      LittleFits(y[1..]);
      LittleApart(x[0], Little(x[1..]), y[0], Little(y[1..]));
      LittleInjective(x[1..], y[1..]);
      assert x == [x[0]] + x[1..] && y == [y[0]] + y[1..];
    }
  }

  /** Up to four bytes may as well be put in at once. */
  lemma {:induction false} FoldLittle(c: Word, d: seq<Byte>)
    requires |d| <= 4
    ensures Fold(c, d) == Steps(8 * |d|, Xor(c, Little(d)))
    decreases |d|
  {
    hide Steps, Xor, Up, Fits3, IsByte;
    if d == [] {
      XorZero(c);
      NoSteps(c);
    } else {
      var b, v, n := d[0], Little(d[1..]), |d| - 1;
      FoldLittle(Steps(8, Xor(c, b)), d[1..]);
      LittleFits(d[1..]);
      ByteShift(v);
      StepsLinear(8, Xor(c, b), Up(v));
      StepsAdd(8, 8 * n, Xor(Xor(c, b), Up(v)));
      XorAssoc(c, b, Up(v));
    }
  }

  /** Two messages that differ only inside four consecutive bytes have different CRCs. */
  lemma BurstDetected(p: seq<Byte>, x: seq<Byte>, y: seq<Byte>, s: seq<Byte>)
    requires |x| == |y| <= 4 && x != y
    ensures Crc32(p + x + s) != Crc32(p + y + s)
  {
    hide Fold, Steps, Little, Xor, Not, IsByte, START;
    var c := Fold(START, p);
    FoldAppend(START, p + x, s);
    FoldAppend(START, p + y, s);
    FoldAppend(START, p, x);
    FoldAppend(START, p, y);
    if Crc32(p + x + s) == Crc32(p + y + s) {
      NotInjective(Fold(START, p + x + s), Fold(START, p + y + s));
      FoldInjective(Fold(c, x), Fold(c, y), s);
      FoldLittle(c, x);
      FoldLittle(c, y);
      StepsInjective(8 * |x|, Xor(c, Little(x)), Xor(c, Little(y)));
      XorCancel(Little(x), Little(y), c);
      LittleInjective(x, y);
    }
  }

  // ----- The loops -----

  method NextStep(c: Word) returns (crc: Word)
    ensures crc == Step(c)
  {
    if c & 1 != 0 {
      crc := (c >> 1) ^ 0xEDB8_8320;
    } else {
      crc := c >> 1;
    }
  }

  method FoldByte(c: Word, b: Byte) returns (crc: Word)
    ensures crc == Steps(8, Xor(c, b))
  {
    hide Step, Xor;
    crc := Xor(c, b);
    for j := 0 to 8
      invariant Steps(8 - j, crc) == Steps(8, Xor(c, b))
    {
      crc := NextStep(crc);
    }
  }

  method FoldBytes(c: Word, data: seq<Byte>) returns (crc: Word)
    ensures crc == Fold(c, data)
  {
    hide Steps, Xor, IsByte;
    crc := c;
    assert data[0..] == data;
    for i := 0 to |data|
      invariant Fold(crc, data[i..]) == Fold(c, data)
    {
      assert data[i..][1..] == data[i + 1..];
      crc := FoldByte(crc, data[i]);
    }
  }

  method ComputeCrc32(data: seq<Byte>) returns (crc: Word)
    ensures crc == Crc32(data)
  {
    hide Fold, Not, START;
    crc := FoldBytes(START, data);
    crc := Not(crc);
  }

  function Concat(sectors: seq<seq<Byte>>): seq<Byte> {
    if sectors == [] then [] else sectors[0] + Concat(sectors[1..])
  }

  /** Sector by sector, without complementing in between: the CRC of all of them joined. */
  method SectorCrc(sectors: seq<seq<Byte>>) returns (crc: Word)
    ensures crc == Crc32(Concat(sectors))
  {
    hide Fold, Not, START, IsByte;
    crc := START;
    assert sectors[0..] == sectors;
    for s := 0 to |sectors|
      invariant Fold(crc, Concat(sectors[s..])) == Fold(START, Concat(sectors))
    {
      assert sectors[s..][1..] == sectors[s + 1..];
      FoldAppend(crc, sectors[s], Concat(sectors[s + 1..]));
      crc := FoldBytes(crc, sectors[s]);
    }
    FoldNothing(crc);
    crc := Not(crc);
  }

  lemma FoldNothing(c: Word)
    ensures Fold(c, []) == c
  {
  }

  // ----- The check value -----

  /** One byte, as eight steps written out. */
  function Byte8(c: Word): Word {
    Step(Step(Step(Step(Step(Step(Step(Step(c))))))))
  }

  lemma EightSteps(c: Word)
    ensures Steps(8, c) == Byte8(c)
  {
    hide Step;
    var a := Step(Step(Step(Step(c))));
    FourSteps(c);
    FourSteps(a);
    StepsAdd(4, 4, c);
  }

  lemma FourSteps(c: Word)
    ensures Steps(4, c) == Step(Step(Step(Step(c))))
  {
    hide Step;
    var a, b := Step(c), Step(Step(c));
    assert Steps(0, Step(Step(b))) == Step(Step(b));
    assert Steps(1, Step(b)) == Steps(0, Step(Step(b)));
    assert Steps(2, b) == Steps(1, Step(b));
    assert Steps(3, a) == Steps(2, b);
  }

  /** The register after each of these bytes. */
  lemma CheckBytes()
    ensures Steps(8, Xor(0xFFFF_FFFF, 0x31)) == 0x7C23_1048
    ensures Steps(8, Xor(0x7C23_1048, 0x32)) == 0xB0AC_BB32
    ensures Steps(8, Xor(0xB0AC_BB32, 0x33)) == 0x77B7_9C2D
    ensures Steps(8, Xor(0x77B7_9C2D, 0x34)) == 0x641C_1F5C
    ensures Steps(8, Xor(0x641C_1F5C, 0x35)) == 0x340A_C5E3
    ensures Steps(8, Xor(0x340A_C5E3, 0x36)) == 0xF68D_2C9E
    ensures Steps(8, Xor(0xF68D_2C9E, 0x37)) == 0xAFFC_9660
    ensures Steps(8, Xor(0xAFFC_9660, 0x38)) == 0x651F_2550
    ensures Steps(8, Xor(0x651F_2550, 0x39)) == 0x340B_C6D9
  {
    hide Steps;
    EightSteps(Xor(0xFFFF_FFFF, 0x31));
    EightSteps(Xor(0x7C23_1048, 0x32));
    EightSteps(Xor(0xB0AC_BB32, 0x33));
    EightSteps(Xor(0x77B7_9C2D, 0x34));
    EightSteps(Xor(0x641C_1F5C, 0x35));
    EightSteps(Xor(0x340A_C5E3, 0x36));
    EightSteps(Xor(0xF68D_2C9E, 0x37));
    EightSteps(Xor(0xAFFC_9660, 0x38));
    EightSteps(Xor(0x651F_2550, 0x39));
  }

  /** The ASCII digits 1 to 9 have the check value of this CRC. */
  lemma CheckValue()
    ensures Crc32([0x31, 0x32, 0x33, 0x34, 0x35, 0x36, 0x37, 0x38, 0x39]) == 0xCBF4_3926
  {
    hide Steps, Xor;
    CheckBytes();
    var d: seq<Byte> := [0x31, 0x32, 0x33, 0x34, 0x35, 0x36, 0x37, 0x38, 0x39];
    FoldFirst(0xFFFF_FFFF, d[0..]);
    FoldFirst(0x7C23_1048, d[1..]);
    FoldFirst(0xB0AC_BB32, d[2..]);
    FoldFirst(0x77B7_9C2D, d[3..]);
    FoldFirst(0x641C_1F5C, d[4..]);
    FoldFirst(0x340A_C5E3, d[5..]);
    FoldFirst(0xF68D_2C9E, d[6..]);
    FoldFirst(0xAFFC_9660, d[7..]);
    FoldFirst(0x651F_2550, d[8..]);
  }

  lemma FoldFirst(c: Word, d: seq<Byte>)
    requires d != []
    ensures Fold(c, d) == Fold(Steps(8, Xor(c, d[0])), d[1..])
  {
  }
}
