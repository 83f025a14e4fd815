/** Machine words for natural numbers, and the physical memory the kernel reaches through
    the higher-half direct map (HHDM).

    Page-table entries and addresses in memory are `bv64` words; frame numbers, sizes and
    address sums are `nat`.  `WordOf(n)` is the word holding `n`, put together from the octal
    digits of `n`: all the fields of an address have a multiple of three bits. */
module Words {
  import opened Arith
  import opened Entries

  /** Physical addresses have 52 bits, so frame numbers have 40. */
  const MAX_FRAMES: nat := 0x100_0000_0000

  function Oct(n: nat): bv3 {
    (n % 8) as bv3
  }

  function Three(a: bv3, b: bv3, c: bv3): Word {
    ((a as bv64) << 6) | ((b as bv64) << 3) | (c as bv64)
  }

  // A digit above 9, 12 or 15 bits.

  function Over9(a: bv3, b: Word): Word { ((a as bv64) << 9) | b }

  function Over12(a: bv3, b: Word): Word { ((a as bv64) << 12) | b }

  function Over15(a: bv3, b: Word): Word { ((a as bv64) << 15) | b }

  // The low 9, 12, 15 or 16 bits of `n`.

  function Nine(n: nat): Word { Three(Oct(n / 64), Oct(n / 8), Oct(n)) }

  function Twelve(n: nat): Word { Over9(Oct(n / 512), Nine(n)) }

  function Fifteen(n: nat): Word { Over12(Oct(n / 4096), Twelve(n)) }

  function Sixteen(n: nat): Word { Over15(Oct(n / 32768 % 2), Fifteen(n)) }

  /** The word that holds `n` (modulo 2^64). */
  function WordOf(n: nat): Word {
    Compose(Sixteen(n / 0x1_0000_0000_0000), Nine(n / 0x80_0000_0000), Nine(n / 0x4000_0000), Nine(n / 0x20_0000),
      Nine(n / 0x1000), Twelve(n))
  }

  /** The physical address of frame `f` as a word. */
  function FrameWord(f: nat): Word { WordOf(4096 * f) }

  lemma OctInjective(m: nat, n: nat)
    requires Oct(m) == Oct(n)
    ensures m % 8 == n % 8
  {
    OctBack(m % 8);
    OctBack(n % 8);
  }

  lemma OctBack(n: nat)
    requires n < 8
    ensures (n as bv3) as nat == n
  {
  }

  lemma ThreeInjective(a: bv3, b: bv3, c: bv3, a': bv3, b': bv3, c': bv3)
    requires Three(a, b, c) == Three(a', b', c')
    ensures a == a' && b == b' && c == c'
  {
  }

  predicate Fits15(i: Word) { i & 0x7FFF == i }

  lemma Fit(n: nat)
    ensures Fits9(Nine(n)) && Fits12(Twelve(n)) && Fits15(Fifteen(n)) && Fits16(Sixteen(n))
  {
  }

  lemma NineInjective(m: nat, n: nat)
    requires Nine(m) == Nine(n)
    ensures m % 512 == n % 512
  {
    hide Three, Oct;
    ThreeInjective(Oct(m / 64), Oct(m / 8), Oct(m), Oct(n / 64), Oct(n / 8), Oct(n));
    OctInjective(m / 64, n / 64);
    OctInjective(m / 8, n / 8);
    OctInjective(m, n);
    Digits3(m);
    Digits3(n);
  }

  lemma Digits3(n: nat)
    ensures n % 512 == n % 8 + 8 * (n / 8 % 8) + 64 * (n / 64 % 8)
  {
    assert n / 64 == n / 8 / 8;
    assert n / 512 == n / 64 / 8;
  }

  lemma NineOfMod(n: nat)
    ensures Nine(n % 512) == Nine(n)
  {
    hide Three, Oct;
    var q, r := n / 512, n % 512;
    assert n / 64 == 8 * q + r / 64 && n / 8 == 64 * q + r / 8;
    OctPeriod(r / 64, q);
    OctPeriod(r / 8, 8 * q);
    OctPeriod(r, 64 * q);
  }

  lemma OctPeriod(n: nat, k: nat)
    ensures Oct(n + 8 * k) == Oct(n)
  {
  }

  lemma Over9Injective(a: bv3, b: Word, a': bv3, b': Word)
    requires Fits9(b) && Fits9(b') && Over9(a, b) == Over9(a', b')
    ensures a == a' && b == b'
  {
  }

  lemma Over12Injective(a: bv3, b: Word, a': bv3, b': Word)
    requires Fits12(b) && Fits12(b') && Over12(a, b) == Over12(a', b')
    ensures a == a' && b == b'
  {
  }

  lemma Over15Injective(a: bv3, b: Word, a': bv3, b': Word)
    requires Fits15(b) && Fits15(b') && Over15(a, b) == Over15(a', b')
    ensures a == a' && b == b'
  {
  }

  lemma TwelveInjective(m: nat, n: nat)
    requires Twelve(m) == Twelve(n)
    ensures m % 4096 == n % 4096
  {
    hide Oct, Nine, Fits9, Over9, Fits12, Fits15, Over12, Over15;
    Fit(m);
    Fit(n);
    Over9Injective(Oct(m / 512), Nine(m), Oct(n / 512), Nine(n));
    OctInjective(m / 512, n / 512);
    NineInjective(m, n);
    DivMod(m, 512, 8);
    DivMod(n, 512, 8);
  }

  lemma FifteenInjective(m: nat, n: nat)
    requires Fifteen(m) == Fifteen(n)
    ensures m % 32768 == n % 32768
  {
    hide Oct, Twelve, Fits9, Over9, Fits12, Fits15, Over12, Over15;
    Fit(m);
    Fit(n);
    Over12Injective(Oct(m / 4096), Twelve(m), Oct(n / 4096), Twelve(n));
    OctInjective(m / 4096, n / 4096);
    TwelveInjective(m, n);
    DivMod(m, 4096, 8);
    DivMod(n, 4096, 8);
  }

  lemma SixteenInjective(m: nat, n: nat)
    requires Sixteen(m) == Sixteen(n)
    ensures m % 65536 == n % 65536
  {
    hide Oct, Fifteen, Fits9, Over9, Fits12, Fits15, Over12, Over15;
    Fit(m);
    Fit(n);
    Over15Injective(Oct(m / 32768 % 2), Fifteen(m), Oct(n / 32768 % 2), Fifteen(n));
    OctInjective(m / 32768 % 2, n / 32768 % 2);
    FifteenInjective(m, n);
    DivMod(m, 32768, 2);
    DivMod(n, 32768, 2);
  }

  lemma FitAll(n: nat)
    ensures Fits16(Sixteen(n / 0x1_0000_0000_0000)) && Fits9(Nine(n / 0x80_0000_0000)) && Fits9(Nine(n / 0x4000_0000))
    ensures Fits9(Nine(n / 0x20_0000)) && Fits9(Nine(n / 0x1000)) && Fits12(Twelve(n))
  {
    hide Nine, Twelve, Sixteen, Fits9, Fits12, Fits16;
    Fit(n / 0x1_0000_0000_0000);
    Fit(n / 0x80_0000_0000);
    Fit(n / 0x4000_0000);
    Fit(n / 0x20_0000);
    Fit(n / 0x1000);
    Fit(n);
  }

  lemma WordIndex(n: nat)
    ensures Index(WordOf(n), 1) == Nine(n / 0x1000) && Index(WordOf(n), 2) == Nine(n / 0x20_0000)
    ensures Index(WordOf(n), 3) == Nine(n / 0x4000_0000) && Index(WordOf(n), 4) == Nine(n / 0x80_0000_0000)
  {
    hide Compose, Nine, Twelve, Sixteen, Index, Fits9, Fits12, Fits16;
    FitAll(n);
    ComposeIndex(Sixteen(n / 0x1_0000_0000_0000), Nine(n / 0x80_0000_0000), Nine(n / 0x4000_0000), Nine(n / 0x20_0000),
      Nine(n / 0x1000), Twelve(n));
  }

  /** `n` from the fields of its address. */
  lemma Fields(n: nat)
    ensures n % 0x1_0000_0000_0000_0000 ==
            n % 4096 + 0x1000 * (n / 0x1000 % 512) + 0x20_0000 * (n / 0x20_0000 % 512)
            + 0x4000_0000 * (n / 0x4000_0000 % 512)
            + 0x80_0000_0000 * (n / 0x80_0000_0000 % 512) + 0x1_0000_0000_0000 * (n / 0x1_0000_0000_0000 % 65536)
  {
    assert n / 0x20_0000 == n / 0x1000 / 512;
    assert n / 0x4000_0000 == n / 0x20_0000 / 512;
    assert n / 0x80_0000_0000 == n / 0x4000_0000 / 512;
    assert n / 0x1_0000_0000_0000 == n / 0x80_0000_0000 / 512;
    assert n / 0x1_0000_0000_0000_0000 == n / 0x1_0000_0000_0000 / 65536;
  }

  /** Different numbers below 2^64 are different words. */
  lemma WordInjective(m: nat, n: nat)
    requires WordOf(m) == WordOf(n)
    ensures m % 0x1_0000_0000_0000_0000 == n % 0x1_0000_0000_0000_0000
  {
    hide Compose, Nine, Twelve, Sixteen, Fits9, Fits12, Fits16;
    FitAll(m);
    FitAll(n);
    ComposeInjective(
      Sixteen(m / 0x1_0000_0000_0000), Nine(m / 0x80_0000_0000), Nine(m / 0x4000_0000), Nine(m / 0x20_0000),
      Nine(m / 0x1000), Twelve(m),
      Sixteen(n / 0x1_0000_0000_0000), Nine(n / 0x80_0000_0000), Nine(n / 0x4000_0000), Nine(n / 0x20_0000),
        Nine(n / 0x1000), Twelve(n));
    SixteenInjective(m / 0x1_0000_0000_0000, n / 0x1_0000_0000_0000);
    NineInjective(m / 0x80_0000_0000, n / 0x80_0000_0000);
    NineInjective(m / 0x4000_0000, n / 0x4000_0000);
    NineInjective(m / 0x20_0000, n / 0x20_0000);
    NineInjective(m / 0x1000, n / 0x1000);
    TwelveInjective(m, n);
    Fields(m);
    Fields(n);
  }

  /** Different frames have different addresses. */
  lemma FrameWordInjective(f: nat, g: nat)
    requires f < MAX_FRAMES && g < MAX_FRAMES && FrameWord(f) == FrameWord(g)
    ensures f == g
  {
    hide WordOf;
    WordInjective(4096 * f, 4096 * g);
  }

  lemma SmallSixteen(n: nat)
    requires n < 16
    ensures Sixteen(n) & 0xF == Sixteen(n)
  {
    assert n / 512 == 0 && n / 4096 == 0 && n / 64 == 0 && n / 32768 == 0 && n / 8 < 2;
  }

  lemma ZeroTwelve(n: nat)
    requires n % 4096 == 0
    ensures Twelve(n) == 0
  {
    hide Twelve;
    TwelveOfMod(n);
    TwelveZero();
  }

  lemma TwelveZero()
    ensures Twelve(0) == 0
  {
  }

  /** Frame addresses are page aligned and lie in the address field of an entry. */
  lemma FrameWordAligned(f: nat)
    requires f < MAX_FRAMES
    ensures Aligned(FrameWord(f))
  {
    hide Compose, Nine, Twelve, Sixteen, Fits9, Fits12, Fits16, Aligned;
    var n := 4096 * f;
    FitAll(n);
    SmallSixteen(n / 0x1_0000_0000_0000);
    ZeroTwelve(n);
    ComposeAligned(Sixteen(n / 0x1_0000_0000_0000), Nine(n / 0x80_0000_0000), Nine(n / 0x4000_0000),
      Nine(n / 0x20_0000), Nine(n / 0x1000));
  }

  // ----- Pages and 2 MiB regions of consecutive addresses -----

  lemma PageNumber(m: nat, n: nat)
    requires Page(WordOf(m)) == Page(WordOf(n))
    ensures m / 0x1000 % 0x10_0000_0000 == n / 0x1000 % 0x10_0000_0000
  {
    hide Page, WordOf, Index, Nine;
    PageInRegion(WordOf(m), WordOf(n));
    WordIndex(m);
    WordIndex(n);
    NineInjective(m / 0x1000, n / 0x1000);
    RegionNumber(m, n);
    SplitPage(m);
    SplitPage(n);
  }

  lemma SplitPage(n: nat)
    ensures n / 0x1000 % 0x10_0000_0000 == n / 0x1000 % 512 + 512 * (n / 0x20_0000 % 0x800_0000)
  {
    DivMod(n / 0x1000, 512, 0x800_0000);
    assert n / 0x1000 / 512 == n / 0x20_0000;
  }

  lemma RegionNumber(m: nat, n: nat)
    requires SameRegion(WordOf(m), WordOf(n))
    ensures m / 0x20_0000 % 0x800_0000 == n / 0x20_0000 % 0x800_0000
  {
    hide WordOf, Index, Nine;
    WordIndex(m);
    WordIndex(n);
    NineInjective(m / 0x20_0000, n / 0x20_0000);
    NineInjective(m / 0x4000_0000, n / 0x4000_0000);
    NineInjective(m / 0x80_0000_0000, n / 0x80_0000_0000);
    SplitRegion(m);
    SplitRegion(n);
  }

  lemma SplitRegion(n: nat)
    ensures n / 0x20_0000 % 0x800_0000 ==
            n / 0x20_0000 % 512 + 512 * (n / 0x4000_0000 % 512) + 0x4_0000 * (n / 0x80_0000_0000 % 512)
  {
    DivMod(n / 0x20_0000, 512, 0x4_0000);
    assert n / 0x20_0000 / 512 == n / 0x4000_0000;
    DivMod(n / 0x4000_0000, 512, 512);
    assert n / 0x4000_0000 / 512 == n / 0x80_0000_0000;
  }

  /** Different pages of a span of 2^48 bytes have different page numbers. */
  lemma PagesDistinct(v: nat, j: nat, k: nat)
    requires j < k < j + 0x10_0000_0000
    ensures Page(WordOf(v + 4096 * j)) != Page(WordOf(v + 4096 * k))
  {
    hide Page, WordOf;
    assert (v + 4096 * j) / 4096 == v / 4096 + j && (v + 4096 * k) / 4096 == v / 4096 + k;
    NoWrap(v / 4096, j, k, 0x10_0000_0000);
    if Page(WordOf(v + 4096 * j)) == Page(WordOf(v + 4096 * k)) {
      PageNumber(v + 4096 * j, v + 4096 * k);
    }
  }

  lemma RegionsDistinct(v: nat, j: nat, k: nat)
    requires j < k < j + 0x800_0000
    ensures !SameRegion(WordOf(v + 0x20_0000 * j), WordOf(v + 0x20_0000 * k))
  {
    hide WordOf, Index, SameRegion;
    assert (v + 0x20_0000 * j) / 0x20_0000 == v / 0x20_0000 + j && (v + 0x20_0000 * k) / 0x20_0000 == v / 0x20_0000 + k;
    NoWrap(v / 0x20_0000, j, k, 0x800_0000);
    if SameRegion(WordOf(v + 0x20_0000 * j), WordOf(v + 0x20_0000 * k)) {
      RegionNumber(v + 0x20_0000 * j, v + 0x20_0000 * k);
    }
  }

  lemma NoWrap(b: nat, j: nat, k: nat, d: nat)
    requires j < k < j + d
    ensures (b + j) % d != (b + k) % d
  {
    var q, r := (b + j) / d, (b + j) % d;
    assert b + j == d * q + r;
    if r + (k - j) < d {
      Unique(b + k, d, q, r + (k - j));
    } else {
      assert d * (q + 1) == d * q + d;
      Unique(b + k, d, q + 1, r + (k - j) - d);
    }
  }

  /** Addresses with the same quotient by 2 MiB are in the same region. */
  lemma RegionOf(m: nat, n: nat)
    requires m / 0x20_0000 == n / 0x20_0000
    ensures SameRegion(WordOf(m), WordOf(n))
  {
    hide WordOf, Index, Nine;
    WordIndex(m);
    WordIndex(n);
    assert m / 0x4000_0000 == m / 0x20_0000 / 512 && n / 0x4000_0000 == n / 0x20_0000 / 512;
    assert m / 0x80_0000_0000 == m / 0x4000_0000 / 512 && n / 0x80_0000_0000 == n / 0x4000_0000 / 512;
  }

  /** Addresses with the same quotient by 4096 are in the same page. */
  lemma SamePageNumber(m: nat, n: nat)
    requires m / 0x1000 == n / 0x1000
    ensures Page(WordOf(m)) == Page(WordOf(n))
  {
    hide WordOf, Index, Nine, Page;
    WordIndex(m);
    WordIndex(n);
    assert m / 0x20_0000 == m / 0x1000 / 512 && n / 0x20_0000 == n / 0x1000 / 512;
    RegionOf(m, n);
    PageFromIndices(WordOf(m), WordOf(n));
  }

  /** A 2 MiB page at `0x20_0000 * i` takes an address with the offset of `p` to `p`. */
  lemma HugeTarget(p: nat, v: nat)
    requires v % 0x20_0000 == p % 0x20_0000
    ensures Inside(2, HugeTo(WordOf(0x20_0000 * (p / 0x20_0000))), WordOf(v)) == WordOf(p)
  {
    hide Compose, Nine, Twelve, Sixteen, Fits9, Fits12, Fits16, Inside, HugeTo;
    var b := 0x20_0000 * (p / 0x20_0000);
    FitAll(b);
    FitAll(v);
    FitAll(p);
    SameFields(p);
    ZeroNine(b / 0x1000);
    ZeroTwelve(b);
    SameLow(p, v);
    ComposeHuge(
      Sixteen(b / 0x1_0000_0000_0000), Nine(b / 0x80_0000_0000), Nine(b / 0x4000_0000), Nine(b / 0x20_0000),
      Sixteen(v / 0x1_0000_0000_0000), Nine(v / 0x80_0000_0000), Nine(v / 0x4000_0000), Nine(v / 0x20_0000),
      Nine(v / 0x1000), Twelve(v));
  }

  /** The frame of `p` takes an address with the page offset of `p` to `p`. */
  lemma SmallTarget(p: nat, v: nat)
    requires v % 4096 == p % 4096
    ensures WithOffset(FrameWord(p / 4096), WordOf(v)) == WordOf(p)
  {
    hide Compose, Nine, Twelve, Sixteen, Fits9, Fits12, Fits16, WithOffset;
    var b := 4096 * (p / 4096);
    FitAll(v);
    assert b / 0x1000 == p / 0x1000;
    assert b / 0x20_0000 == b / 0x1000 / 512 && p / 0x20_0000 == p / 0x1000 / 512;
    assert b / 0x4000_0000 == b / 0x20_0000 / 512 && p / 0x4000_0000 == p / 0x20_0000 / 512;
    assert b / 0x80_0000_0000 == b / 0x4000_0000 / 512 && p / 0x80_0000_0000 == p / 0x4000_0000 / 512;
    assert b / 0x1_0000_0000_0000 == b / 0x80_0000_0000 / 512 && p / 0x1_0000_0000_0000 == p / 0x80_0000_0000 / 512;
    ZeroTwelve(b);
    TwelveOfMod(p);
    TwelveOfMod(v);
    ComposeOffset(
      Sixteen(b / 0x1_0000_0000_0000), Nine(b / 0x80_0000_0000), Nine(b / 0x4000_0000), Nine(b / 0x20_0000),
        Nine(b / 0x1000),
      Sixteen(v / 0x1_0000_0000_0000), Nine(v / 0x80_0000_0000), Nine(v / 0x4000_0000), Nine(v / 0x20_0000),
        Nine(v / 0x1000), Twelve(v));
  }

  lemma SameFields(p: nat)
    ensures var b := 0x20_0000 * (p / 0x20_0000);
            && b / 0x20_0000 == p / 0x20_0000 && b / 0x4000_0000 == p / 0x4000_0000 &&
              b / 0x80_0000_0000 == p / 0x80_0000_0000
            && b / 0x1_0000_0000_0000 == p / 0x1_0000_0000_0000 && b / 0x1000 % 512 == 0 && b % 4096 == 0
  {
    var q := p / 0x20_0000;
    assert 0x20_0000 * q / 0x1000 == 512 * q;
    HigherFields(0x20_0000 * q);
    HigherFields(p);
  }

  lemma HigherFields(n: nat)
    ensures n / 0x4000_0000 == n / 0x20_0000 / 512
    ensures n / 0x80_0000_0000 == n / 0x20_0000 / 512 / 512
    ensures n / 0x1_0000_0000_0000 == n / 0x20_0000 / 512 / 512 / 512
  {
  }

  lemma ZeroNine(n: nat)
    requires n % 512 == 0
    ensures Nine(n) == 0
  {
    hide Nine;
    NineOfMod(n);
    NineZero();
  }

  lemma NineZero()
    ensures Nine(0) == 0
  {
  }

  lemma ZeroSixteen()
    ensures Sixteen(0) == 0
  {
  }

  /** The low 21 bits fix the lowest index and the offset. */
  lemma SameLow(m: nat, n: nat)
    requires m % 0x20_0000 == n % 0x20_0000
    ensures Nine(m / 0x1000) == Nine(n / 0x1000) && Twelve(m) == Twelve(n)
  {
    hide Nine, Twelve;
    DivMod(m, 4096, 512);
    DivMod(n, 4096, 512);
    NineOfMod(m / 0x1000);
    NineOfMod(n / 0x1000);
    TwelveOfMod(m);
    TwelveOfMod(n);
  }

  lemma TwelveOfMod(n: nat)
    ensures Twelve(n % 4096) == Twelve(n)
  {
    hide Oct, Nine, Over9;
    var q, r := n / 4096, n % 4096;
    assert n / 512 == 8 * q + r / 512;
    OctPeriod(r / 512, q);
    assert n % 512 == r % 512;
    NineOfMod(n);
    NineOfMod(r);
  }

  /** Physical memory locations, by address. */
  datatype Loc = At(addr: Word)

  /** Physical memory: the contents of its 8-byte words. */
  type Memory = map<Loc, Word>

  /** All 512 words of page `p` are memory. */
  ghost predicate PageIn(m: Memory, p: Word) {
    forall i: Word :: IsIndex(i) ==> At(Slot(p, i)) in m
  }

  function ZeroPage(m: Memory, p: Word): Memory {
    map a | a in m :: if PageOf(a.addr) == p then 0 else m[a]
  }

  lemma ZeroKeys(m: Memory, p: Word)
    ensures ZeroPage(m, p).Keys == m.Keys
  {
  }

  /** Zeroing the `n` pages from frame `f` on. */
  function ZeroRun(m: Memory, f: nat, n: nat): Memory
    decreases n
  {
    if n == 0 then m else ZeroRun(ZeroPage(m, FrameWord(f)), f + 1, n - 1)
  }

  class Ram {
    var words: Memory

    constructor (m: Memory)
      ensures words == m
    {
      words := m;
    }
  }
}