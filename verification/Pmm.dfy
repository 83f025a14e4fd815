/** The bitmap allocator of physical frames (kernel/arch/x86_64/mm/pmm.c). */
module Pmm {
  import opened Common
  import opened Entries
  import opened Words

  // ----- Abstract allocator: the set of free frames -----

  datatype Op = Alloc(phys: nat) | AllocPages(count: nat, phys: nat) | Free(phys: nat)

  ghost predicate Lowest(s: set<nat>, f: nat) {
    f in s && forall g :: g in s ==> f <= g
  }

  /** The `n` frames from `f` on are all in `s`. */
  ghost predicate HasRun(s: set<nat>, f: nat, n: nat) {
    forall g :: f <= g < f + n ==> g in s
  }

  ghost predicate LowestRun(s: set<nat>, f: nat, n: nat) {
    HasRun(s, f, n) && forall g: nat :: HasRun(s, g, n) ==> f <= g
  }

  ghost function Without(s: set<nat>, f: nat, n: nat): set<nat> {
    set g | g in s && !(f <= g < f + n)
  }

  lemma WithoutNone(s: set<nat>, f: nat)
    ensures Without(s, f, 0) == s
  {
  }

  lemma WithoutStep(s: set<nat>, f: nat, n: nat)
    ensures Without(s, f, n + 1) == Without(s, f, n) - {f + n}
    ensures f + n in s ==> f + n in Without(s, f, n)
  {
  }

  /** What one call does to the set of free frames below `frames`. */
  ghost predicate Step(frames: nat, s: set<nat>, op: Op, s': set<nat>) {
    match op
    case Alloc(phys) =>
      if s == {} then phys == 0 && s' == s
      else phys % 4096 == 0 && Lowest(s, phys / 4096) && s' == s - {phys / 4096}
    case AllocPages(count, phys) =>
      if count == 0 || forall f: nat :: !HasRun(s, f, count) then phys == 0 && s' == s
      else phys % 4096 == 0 && LowestRun(s, phys / 4096, count) && s' == Without(s, phys / 4096, count)
    case Free(phys) =>
      s' == if phys / 4096 < frames then s + {phys / 4096} else s
  }

  /** `n` calls of the allocator do not all succeed: too few frames are free, or the lowest
      free frame is frame 0, whose address looks like a failure. */
  ghost predicate Short(s: set<nat>, n: nat) {
    n > 0 && (0 in s || |s| < n)
  }

  // ----- Bits of the bitmap -----

  predicate Bit(b: bv8, k: nat)
    requires k < 8
  {
    (b >> k) & 1 == 1
  }

  lemma SetBit(b: bv8, k: nat, j: nat)
    requires k < 8 && j < 8
    ensures Bit(b | ((1 as bv8) << k), j) <==> j == k || Bit(b, j)
  {
  }

  lemma ClearBit(b: bv8, k: nat, j: nat)
    requires k < 8 && j < 8
    ensures Bit(b & !((1 as bv8) << k), j) <==> j != k && Bit(b, j)
  {
  }

  lemma AllOnes(k: nat)
    requires k < 8
    ensures Bit(0xFF, k)
  {
  }

  /** The bytes not in the `free` free frames, as a `u64`. */
  function UsedBytes(total: nat, free: int): nat {
    (total - 4096 * free) % 0x1_0000_0000_0000_0000
  }

  /** One frame more or less, in `u64` arithmetic. */
  lemma CountStep(total: nat, free: int)
    ensures (UsedBytes(total, free) + 4096) % 0x1_0000_0000_0000_0000 == UsedBytes(total, free - 1)
    ensures (UsedBytes(total, free) - 4096) % 0x1_0000_0000_0000_0000 == UsedBytes(total, free + 1)
  {
    var x := total - 4096 * free;
    ModStep(x, 4096);
    ModStep(x, -4096);
    assert x + 4096 == total - 4096 * (free - 1) && x - 4096 == total - 4096 * (free + 1);
  }

  lemma ModStep(x: int, d: int)
    ensures (x % 0x1_0000_0000_0000_0000 + d) % 0x1_0000_0000_0000_0000 == (x + d) % 0x1_0000_0000_0000_0000
  {
  }

  // ----- The boot loader's memory map -----

  datatype Entry = Entry(base: nat, length: nat, usable: bool)

  ghost predicate InEntry(e: Entry, f: nat) {
    e.usable && e.base / 4096 <= f < e.base / 4096 + e.length / 4096
  }

  ghost predicate Usable(es: seq<Entry>, f: nat) {
    exists i :: 0 <= i < |es| && InEntry(es[i], f)
  }

  function Total(es: seq<Entry>): nat {
    if es == [] then 0
    else Total(es[..|es| - 1]) + if es[|es| - 1].usable then es[|es| - 1].length else 0
  }

  /** The end address of an entry, in `u64` arithmetic. */
  function EntryEnd(e: Entry): nat { (e.base + e.length) % 0x1_0000_0000_0000_0000 }

  /** The highest end address of the entries (of the usable ones, if so asked). */
  function Highest(es: seq<Entry>, usableOnly: bool): nat {
    if es == [] then 0
    else
      var e, h := es[|es| - 1], Highest(es[..|es| - 1], usableOnly);
      if usableOnly ==> e.usable then Max(h, EntryEnd(e)) else h
  }

  function FrameCount(es: seq<Entry>): nat {
    (Highest(es, true) + 4096 - 1) / 4096
  }

  function RoundUp(n: nat, m: nat): nat
    requires m > 0
  {
    (n + m - 1) / m * m
  }

  /** The bytes of a bitmap of `frames` bits, rounded up to whole pages. */
  function BitmapSize(frames: nat): nat {
    RoundUp((frames + 7) / 8, 4096)
  }

  /** The first usable region that can hold `size` bytes. */
  predicate FirstFit(es: seq<Entry>, size: nat, i: nat) {
    && i < |es| && es[i].usable && es[i].length >= size
    && forall j :: 0 <= j < i ==> !(es[j].usable && es[j].length >= size)
  }

  lemma UsableStep(es: seq<Entry>, i: nat)
    requires i < |es|
    ensures forall f :: Usable(es[..i + 1], f) <==> Usable(es[..i], f) || InEntry(es[i], f)
  {
    forall f
      ensures Usable(es[..i + 1], f) <==> Usable(es[..i], f) || InEntry(es[i], f)
    {
      if InEntry(es[i], f) {
        assert InEntry(es[..i + 1][i], f);
      }
      if Usable(es[..i], f) {
        var k :| 0 <= k < i && InEntry(es[..i][k], f);
        assert InEntry(es[..i + 1][k], f);
      }
    }
  }

  lemma SizeCovers(frames: nat)
    ensures frames <= 8 * BitmapSize(frames) && BitmapSize(frames) % 4096 == 0
  {
  }

  /** Whole pages, and no more than it takes to hold a bit for each frame. */
  lemma SizeLeast(frames: nat, pages: nat)
    ensures frames <= 8 * (4096 * pages) <==> BitmapSize(frames) <= 4096 * pages
  {
  }

  lemma {:induction false} HighestBounds(es: seq<Entry>, usableOnly: bool, i: nat)
    requires i < |es| && (usableOnly ==> es[i].usable)
    ensures EntryEnd(es[i]) <= Highest(es, usableOnly)
    decreases |es|
  {
    if i < |es| - 1 {
      HighestBounds(es[..|es| - 1], usableOnly, i);
    }
  }

  /** The highest end is that of an entry, or 0 if there is none. */
  lemma {:induction false} HighestReached(es: seq<Entry>, usableOnly: bool)
    ensures Highest(es, usableOnly) == 0 ||
            exists i :: 0 <= i < |es| && (usableOnly ==> es[i].usable) && EntryEnd(es[i]) == Highest(es, usableOnly)
    decreases |es|
  {
    if es != [] {
      var init := es[..|es| - 1];
      HighestReached(init, usableOnly);
      if Highest(es, usableOnly) == Highest(init, usableOnly) != 0 {
        var i :| 0 <= i < |init| && (usableOnly ==> init[i].usable) && EntryEnd(init[i]) == Highest(init, usableOnly);
        assert es[i] == init[i];
      } else {
        assert EntryEnd(es[|es| - 1]) == Highest(es, usableOnly) || Highest(es, usableOnly) == 0;
      }
    }
  }

  /** The total counts each usable entry once, whatever the order of the map. */
  lemma {:induction false} TotalAppend(a: seq<Entry>, b: seq<Entry>)
    ensures Total(a + b) == Total(a) + Total(b)
    ensures |b| == 1 ==> Total(b) == if b[0].usable then b[0].length else 0
    decreases |b|
  {
    if b == [] {
      assert a + b == a;
    } else {
      assert (a + b)[..|a + b| - 1] == a + b[..|b| - 1];
      TotalAppend(a, b[..|b| - 1]);
    }
  }

  /** No usable entry reaches beyond the 64-bit addresses. */
  ghost predicate InAddresses(es: seq<Entry>) {
    forall i :: 0 <= i < |es| && es[i].usable ==> es[i].base + es[i].length < 0x1_0000_0000_0000_0000
  }

  /** The bitmap's pages lie below the highest usable address. */
  lemma EntryInside(es: seq<Entry>, i: nat, size: nat)
    requires i < |es| && es[i].usable && es[i].length >= size && InAddresses(es)
    ensures es[i].base / 4096 + size / 4096 <= FrameCount(es)
  {
    HighestBounds(es, true, i);
  }

  class Pmm {
    const ram: Ram
    var bitmap: array<bv8>
    var frames: nat
    var totalMem: nat
    var usedMem: nat
    var lastFree: nat
    var maxPhys: nat
    var bitmapPhys: nat  // where the bitmap lies in physical memory

    /** Before `Init`: no bitmap, all counters zero. */
    constructor (ram: Ram)
      ensures this.ram == ram && frames == 0 && totalMem == 0 && usedMem == 0 && lastFree == 0 && maxPhys == 0
      ensures fresh(bitmap) && bitmap.Length == 0
    {
      this.ram := ram;
      bitmap := new bv8[0];
      frames, totalMem, usedMem, lastFree, maxPhys, bitmapPhys := 0, 0, 0, 0, 0, 0;
    }

    /** The bitmap covers all frames. */
    ghost predicate Covers()
      reads this
    {
      frames <= 8 * bitmap.Length
    }

    ghost predicate IsFree(f: nat)
      reads this, bitmap
    {
      f < frames && f < 8 * bitmap.Length && !Bit(bitmap[f / 8], f % 8)
    }

    ghost function FreeSet(): (s: set<nat>)
      reads this, bitmap
      ensures forall f :: f in s <==> IsFree(f)
    {
      set f | 0 <= f < frames && IsFree(f)
    }

    /** The pages of all frames are memory. */
    ghost predicate Backed()
      reads this, ram
    {
      frames <= MAX_FRAMES && forall f: nat :: f < frames ==> PageIn(ram.words, FrameWord(f))
    }

    /** Every frame below the hint is used, and the byte counter is exact (as a `u64`). */
    ghost predicate Valid()
      reads this, bitmap, ram
    {
      && Covers()
      && Backed()
      && lastFree <= frames
      && (forall f :: 0 <= f < lastFree ==> !IsFree(f))
      && totalMem < 0x1_0000_0000_0000_0000 && usedMem == UsedBytes(totalMem, |FreeSet()|)
    }

    // ----- Bitmap helpers -----

    method BitmapSet(frame: nat)
      requires Covers() && frame < 8 * bitmap.Length
      modifies bitmap
      ensures FreeSet() == old(FreeSet()) - {frame}
      ensures forall f: nat :: f < 8 * bitmap.Length ==>
                (Bit(bitmap[f / 8], f % 8) <==> f == frame || old(Bit(bitmap[f / 8], f % 8)))
    {
      forall j: nat | j < 8 { SetBit(bitmap[frame / 8], frame % 8, j); }
      bitmap[frame / 8] := bitmap[frame / 8] | ((1 as bv8) << (frame % 8));
    }

    method BitmapClear(frame: nat)
      requires Covers() && frame < frames
      modifies bitmap
      ensures FreeSet() == old(FreeSet()) + {frame}
      ensures forall f: nat :: f < 8 * bitmap.Length ==>
                (Bit(bitmap[f / 8], f % 8) <==> f != frame && old(Bit(bitmap[f / 8], f % 8)))
    {
      forall j: nat | j < 8 { ClearBit(bitmap[frame / 8], frame % 8, j); }
      bitmap[frame / 8] := bitmap[frame / 8] & !((1 as bv8) << (frame % 8));
    }

    predicate BitmapTest(frame: nat)
      requires frame < 8 * bitmap.Length
      reads this, bitmap
    {
      Bit(bitmap[frame / 8], frame % 8)
    }

    // ----- Initialisation from the memory map -----

    method FindHighest(es: seq<Entry>) returns (usable: nat, any: nat)
      ensures usable == Highest(es, true) && any == Highest(es, false)
    {
      usable, any := 0, 0;
      for i := 0 to |es|
        invariant usable == Highest(es[..i], true) && any == Highest(es[..i], false)
      {
        assert es[..i + 1][..i] == es[..i];
        var end := (es[i].base + es[i].length) % 0x1_0000_0000_0000_0000;
        if es[i].usable && end > usable {
          usable := end;
        }
        if end > any {
          any := end;
        }
      }
      assert es[..|es|] == es;
    }

    method FindRegion(es: seq<Entry>, size: nat) returns (found: bool, i: nat)
      ensures found ==> FirstFit(es, size, i)
      ensures !found ==> forall j :: 0 <= j < |es| ==> !(es[j].usable && es[j].length >= size)
    {
      i := 0;
      while i < |es|
        invariant 0 <= i <= |es|
        invariant forall j :: 0 <= j < i ==> !(es[j].usable && es[j].length >= size)
      {
        if es[i].usable && es[i].length >= size {
          return true, i;
        }
        i := i + 1;
      }
      found := false;
    }

    /** Frees the frames of one usable entry. */
    method ClearEntry(e: Entry)
      requires Covers() && e.usable
      modifies bitmap
      ensures FreeSet() == old(FreeSet()) + (set f | 0 <= f < frames && InEntry(e, f))
    {
      var start, count := e.base / 4096, e.length / 4096;
      var f := start;
      while f < start + count
        invariant start <= f <= start + count
        invariant FreeSet() == old(FreeSet()) + set g | 0 <= g < frames && InEntry(e, g) && g < f
      {
        if f < frames {
          BitmapClear(f);
        }
        f := f + 1;
      }
    }

    method ClearUsable(es: seq<Entry>)
      requires Covers() && FreeSet() == {} && totalMem == 0
      modifies bitmap, this`totalMem
      ensures totalMem == Total(es) % 0x1_0000_0000_0000_0000
      ensures forall f :: f in FreeSet() <==> 0 <= f < frames && Usable(es, f)
    {
      for i := 0 to |es|
        invariant bitmap == old(bitmap)
        invariant totalMem == Total(es[..i]) % 0x1_0000_0000_0000_0000
        invariant forall f :: f in FreeSet() <==> 0 <= f < frames && Usable(es[..i], f)
      {
        assert es[..i + 1][..i] == es[..i];
        UsableStep(es, i);
        if es[i].usable {
          totalMem := (totalMem + es[i].length) % 0x1_0000_0000_0000_0000;
          ClearEntry(es[i]);
        }
      }
      assert es[..|es|] == es;
    }

    /** Marks the bitmap's own pages as used. */
    method MarkBitmap(first: nat, pages: nat)
      requires Covers() && first + pages <= frames
      modifies bitmap, this`usedMem
      ensures FreeSet() == Without(old(FreeSet()), first, pages)
    {
      hide Bit, Without;
      WithoutNone(FreeSet(), first);
      var k := 0;
      while k < pages
        invariant 0 <= k <= pages
        invariant bitmap == old(bitmap)
        invariant FreeSet() == Without(old(FreeSet()), first, k)
      {
        ghost var s0 := FreeSet();
        WithoutStep(old(FreeSet()), first, k);
        if !BitmapTest(first + k) {
          BitmapSet(first + k);
          usedMem := (usedMem + 4096) % 0x1_0000_0000_0000_0000;
        }
        assert FreeSet() == s0 - {first + k};
        k := k + 1;
      }
    }

    method CountFree() returns (n: nat)
      requires Covers()
      ensures n == |FreeSet()|
    {
      n := 0;
      ghost var seen: set<nat> := {};
      for f := 0 to frames
        invariant seen == set g | g in FreeSet() && g < f
        invariant n == |seen|
      {
        if !BitmapTest(f) {
          n := n + 1;
          seen := seen + {f};
        }
      }
      assert seen == FreeSet();
    }

    /** Frees the usable frames in an all-ones bitmap, except the bitmap's own. */
    method Populate(es: seq<Entry>, first: nat, pages: nat)
      requires Covers() && first + pages <= frames && totalMem == 0
      requires forall k :: 0 <= k < bitmap.Length ==> bitmap[k] == 0xFF
      modifies bitmap, this`totalMem, this`usedMem
      ensures totalMem == Total(es) % 0x1_0000_0000_0000_0000
      ensures usedMem == UsedBytes(totalMem, |FreeSet()|)
      ensures forall f :: f in FreeSet() <==> 0 <= f < frames && Usable(es, f) && !(first <= f < first + pages)
    {
      AllUsed();
      ClearUsable(es);
      MarkBitmap(first, pages);
      var free := CountFree();
      ghost var set0 := FreeSet();
      usedMem := (totalMem - 4096 * free) % 0x1_0000_0000_0000_0000;
      assert FreeSet() == set0;
    }

    /** Builds the bitmap.  Panics exactly when no usable region can hold it; otherwise a
        frame is free exactly when it is usable and not one of the bitmap's own pages. */
    method Init(es: seq<Entry>) returns (panicked: bool)
      requires totalMem == 0 && lastFree == 0
      requires InAddresses(es) && FrameCount(es) <= MAX_FRAMES
      requires forall f: nat :: f < FrameCount(es) ==> PageIn(ram.words, FrameWord(f))
      modifies this
      ensures panicked <==> forall i :: 0 <= i < |es| ==> !(es[i].usable && es[i].length >= BitmapSize(FrameCount(es)))
      ensures !panicked ==>
                && Valid() && fresh(bitmap)
                && frames == FrameCount(es) && totalMem == Total(es) % 0x1_0000_0000_0000_0000
                && maxPhys == Max(old(maxPhys), Highest(es, false))
                && bitmapPhys / 4096 + BitmapSize(frames) / 4096 <= frames
                && (exists i: nat :: FirstFit(es, BitmapSize(frames), i) && bitmapPhys == es[i].base)
                && forall f :: f in FreeSet() <==>
                      && 0 <= f < frames && Usable(es, f)
                      && !(bitmapPhys / 4096 <= f < bitmapPhys / 4096 + BitmapSize(frames) / 4096)
    {
      hide Bit, FrameWord, PageIn, UsedBytes;
      var highest, any := FindHighest(es);
      maxPhys := if any > maxPhys then any else maxPhys;
      frames := (highest + 4095) / 4096;
      var size := BitmapSize(frames);
      var found, i := FindRegion(es, size);
      if !found {
        return true;
      }
      bitmapPhys := es[i].base;
      bitmap := new bv8[size](_ => 0xFF);
      SizeCovers(frames);
      EntryInside(es, i, size);
      Populate(es, bitmapPhys / 4096, size / 4096);
      panicked := false;
    }

    lemma AllUsed()
      requires Covers() && forall k :: 0 <= k < bitmap.Length ==> bitmap[k] == 0xFF
      ensures FreeSet() == {}
    {
      forall f: nat | f < frames
        ensures !IsFree(f)
      {
        AllOnes(f % 8);
      }
    }

    /** The first free frame in `[lo, hi)`. */
    method Scan(lo: nat, hi: nat) returns (found: bool, i: nat)
      requires Covers() && hi <= frames
      ensures found ==> lo <= i < hi && IsFree(i) && forall f :: lo <= f < i ==> !IsFree(f)
      ensures !found ==> forall f :: lo <= f < hi ==> !IsFree(f)
    {
      i := lo;
      while i < hi
        invariant lo <= i
        invariant forall f :: lo <= f < i && f < hi ==> !IsFree(f)
      {
        if !BitmapTest(i) {
          return true, i;
        }
        i := i + 1;
      }
      found := false;
    }

    /** Takes the lowest free frame and zeroes it; 0 when there is none.  The search from
        the start of the bitmap never finds anything. */
    method Alloc() returns (phys: nat)
      requires Valid()
      modifies this`usedMem, this`lastFree, bitmap, ram
      ensures Valid()
      ensures Step(frames, old(FreeSet()), Op.Alloc(phys), FreeSet())
      ensures ram.words ==
              if old(FreeSet()) == {} then old(ram.words) else ZeroPage(old(ram.words), FrameWord(phys / 4096))
    {
      hide Bit, FrameWord, Slot, IsIndex, UsedBytes;
      var found, i := Scan(lastFree, frames);
      if !found {
        found, i := Scan(0, lastFree);
        assert !found;
        assert FreeSet() == {};
        return 0;
      }
      assert Lowest(FreeSet(), i);
      CountStep(totalMem, |FreeSet()|);
      BitmapSet(i);
      usedMem := (usedMem + 4096) % 0x1_0000_0000_0000_0000;
      lastFree := i + 1;
      phys := i * 4096;
      ram.words := ZeroPage(ram.words, FrameWord(i));
      assert FreeSet() == old(FreeSet()) - {i};
      assert phys / 4096 == i;
    }

    /** Gives a used frame back; other addresses are ignored. */
    method Free(phys: nat)
      requires Valid()
      modifies this`usedMem, this`lastFree, bitmap
      ensures Valid()
      ensures Step(frames, old(FreeSet()), Op.Free(phys), FreeSet())
    {
      hide Bit, FrameWord, Slot, PageIn, UsedBytes, HasRun, LowestRun, Without;
      var frame := phys / 4096;
      if frame >= frames {
        return;
      }
      if BitmapTest(frame) {
        CountStep(totalMem, |FreeSet()|);
        assert frame !in FreeSet();
        BitmapClear(frame);
        usedMem := (usedMem - 4096) % 0x1_0000_0000_0000_0000;
        if frame < lastFree {
          lastFree := frame;
        }
        assert FreeSet() == old(FreeSet()) + {frame};
        assert |FreeSet()| == |old(FreeSet())| + 1;
        assert forall f: nat :: f < lastFree ==> f !in FreeSet();
      } else {
        assert frame in FreeSet();
      }
    }

    /** Are the `count` frames from `i` on all free? */
    method RunIsFree(i: nat, count: nat) returns (ok: bool)
      requires Covers() && i + count <= frames
      ensures ok <==> HasRun(FreeSet(), i, count)
    {
      var j := 0;
      while j < count
        invariant 0 <= j <= count
        invariant HasRun(FreeSet(), i, j)
      {
        if BitmapTest(i + j) {
          assert i + j !in FreeSet();
          return false;
        }
        j := j + 1;
      }
      ok := true;
    }

    /** The lowest run of `count` free frames. */
    method FindRun(count: nat) returns (found: bool, i: nat)
      requires Covers() && frames <= MAX_FRAMES && 0 < count < 0x1_0000_0000_0000_0000
      ensures found ==> LowestRun(FreeSet(), i, count) && i + count <= frames
      ensures !found ==> forall f: nat :: !HasRun(FreeSet(), f, count)
    {
      i := 0;
      while (i + count) % 0x1_0000_0000_0000_0000 <= frames
        invariant i + count < 0x1_0000_0000_0000_0000
        invariant forall f: nat :: f < i ==> !HasRun(FreeSet(), f, count)
      {
        var ok := RunIsFree(i, count);
        if ok {
          return true, i;
        }
        i := i + 1;
      }
      NoLateRun(FreeSet(), frames, i, count);
      found := false;
    }

    /** Marks the `count` free frames from `i` on as used. */
    method TakeRun(i: nat, count: nat)
      requires Valid() && HasRun(FreeSet(), i, count) && i + count <= frames
      modifies this`usedMem, bitmap
      ensures Valid()
      ensures FreeSet() == Without(old(FreeSet()), i, count)
    {
      hide Bit, FrameWord, PageIn, Without, UsedBytes;
      WithoutNone(FreeSet(), i);
      var j := 0;
      while j < count
        invariant 0 <= j <= count
        invariant Valid()
        invariant FreeSet() == Without(old(FreeSet()), i, j)
        invariant bitmap == old(bitmap)
      {
        WithoutStep(old(FreeSet()), i, j);
        CountStep(totalMem, |FreeSet()|);
        label before:
        BitmapSet(i + j);
        usedMem := (usedMem + 4096) % 0x1_0000_0000_0000_0000;
        assert FreeSet() == old@before(FreeSet()) - {i + j};
        j := j + 1;
      }
    }

    /** Takes and zeroes the lowest run of `count` free frames; 0 when there is none. */
    method AllocPages(count: nat) returns (phys: nat)
      requires Valid() && count < 0x1_0000_0000_0000_0000
      modifies this`usedMem, bitmap, ram
      ensures Valid()
      ensures Step(frames, old(FreeSet()), Op.AllocPages(count, phys), FreeSet())
      ensures ram.words ==
              if count == 0 || forall f: nat :: !HasRun(old(FreeSet()), f, count) then old(ram.words)
              else ZeroRun(old(ram.words), phys / 4096, count)
    {
      hide Bit, FrameWord, Slot, ZeroRun, IsIndex;
      if count == 0 {
        return 0;
      }
      var found, i := FindRun(count);
      if !found {
        return 0;
      }
      TakeRun(i, count);
      phys := i * 4096;
      ghost var free := FreeSet();
      ZeroRunKeys(ram.words, i, count);
      ram.words := ZeroRun(ram.words, i, count);
      assert FreeSet() == free;
      assert phys / 4096 == i;
    }

    /** pmm_free_bytes: the bytes of the free frames, unless these are more than was counted. */
    method FreeBytes() returns (bytes: nat)
      requires Valid()
      ensures bytes == if 4096 * |FreeSet()| <= totalMem then 4096 * |FreeSet()| else 0
    {
      FewFree();
      UsedExact(totalMem, |FreeSet()|);
      bytes := if totalMem > usedMem then totalMem - usedMem else 0;
    }

    lemma FewFree()
      requires Valid()
      ensures |FreeSet()| <= frames <= MAX_FRAMES
    {
      FewBelow(FreeSet(), frames);
    }
  }

  lemma {:induction false} FewBelow(s: set<nat>, n: nat)
    requires forall f :: f in s ==> f < n
    ensures |s| <= n
    decreases n
  {
    if n > 0 {
      FewBelow(s - {n - 1}, n - 1);
      if n - 1 !in s {
        assert s - {n - 1} == s;
      }
    } else {
      assert s == {};
    }
  }

  /** What is counted as used, and what is left. */
  lemma UsedExact(total: nat, free: nat)
    requires total < 0x1_0000_0000_0000_0000 && free <= MAX_FRAMES
    ensures if 4096 * free <= total then UsedBytes(total, free) == total - 4096 * free
            else UsedBytes(total, free) > total
  {
  }

  lemma {:induction false} ZeroRunKeys(m: Memory, f: nat, n: nat)
    ensures ZeroRun(m, f, n).Keys == m.Keys
    decreases n
  {
    hide FrameWord;
    if n > 0 {
      ZeroRunKeys(ZeroPage(m, FrameWord(f)), f + 1, n - 1);
    }
  }

  /** A run cannot reach beyond the bitmap. */
  lemma NoLateRun(s: set<nat>, frames: nat, i: nat, count: nat)
    requires count > 0 && i + count > frames
    requires forall f :: f in s ==> f < frames
    ensures forall f: nat :: i <= f ==> !HasRun(s, f, count)
  {
    forall f: nat | i <= f
      ensures !HasRun(s, f, count)
    {
      assert f + count - 1 !in s;
    }
  }

  // ----- Usable frames of a page-aligned map -----

  ghost predicate WholeFrameIn(e: Entry, f: nat) {
    e.usable && e.base <= 4096 * f && 4096 * (f + 1) <= e.base + e.length
  }

  /** A frame of a usable entry lies wholly inside that entry, for every such frame, exactly
      when the entry holds no whole page or starts on a page boundary. */
  lemma WholeFrames(e: Entry)
    requires e.usable
    ensures (forall f: nat :: InEntry(e, f) ==> WholeFrameIn(e, f)) <==> e.length < 4096 || e.base % 4096 == 0
    ensures e.base % 4096 == 0 ==> forall f: nat :: WholeFrameIn(e, f) ==> InEntry(e, f)
  {
    assert InEntry(e, e.base / 4096) <==> e.length >= 4096;
    if e.length >= 4096 && e.base % 4096 != 0 {
      assert !WholeFrameIn(e, e.base / 4096);
    }
  }

  // ----- Whole runs -----

  /** A run of the allocator: the free sets before, between and after its calls. */
  ghost predicate IsRun(frames: nat, states: seq<set<nat>>, ops: seq<Op>) {
    && |states| == |ops| + 1
    && forall i :: 0 <= i < |ops| ==> Step(frames, states[i], ops[i], states[i + 1])
  }

  /** Call `i` of the run hands out frame `f`. */
  ghost predicate HandsOut(states: seq<set<nat>>, i: nat, f: nat)
    requires i + 1 < |states|
  {
    f in states[i] && f !in states[i + 1]
  }

  /** Between two calls that hand out the same frame, that frame is freed. */
  lemma {:induction false} NeverTwice(frames: nat, states: seq<set<nat>>, ops: seq<Op>, i: nat, j: nat, f: nat)
    requires IsRun(frames, states, ops) && i < j < |ops|
    requires HandsOut(states, i, f) && HandsOut(states, j, f)
    ensures exists k :: i < k < j && ops[k].Free? && ops[k].phys / 4096 == f
  {
    var k := i + 1;
    while f !in states[k + 1]
      invariant i < k < j && f !in states[k]
      decreases j - k
    {
      k := k + 1;
    }
    assert Step(frames, states[k], ops[k], states[k + 1]);
  }

  /** What a call hands out is exactly what it returns: one frame, or a run of `count`. */
  lemma HandsOutResult(frames: nat, states: seq<set<nat>>, ops: seq<Op>, i: nat, f: nat)
    requires IsRun(frames, states, ops) && i < |ops|
    ensures HandsOut(states, i, f) <==>
      match ops[i]
      case Alloc(phys) => states[i] != {} && f == phys / 4096
      case AllocPages(count, phys) =>
        (exists g: nat :: HasRun(states[i], g, count)) && phys / 4096 <= f < phys / 4096 + count
      case Free(_) => false
  {
    assert Step(frames, states[i], ops[i], states[i + 1]);
  }

  // ----- The pages of the bitmap -----

  /** All bytes of the bitmap lie in the frames that are marked for it, exactly when it is empty
      or starts on a page boundary. */
  lemma BitmapPages(base: nat, size: nat)
    requires size % 4096 == 0
    ensures (forall b: nat :: base <= b < base + size ==> InFrames(base / 4096, size / 4096, b)) <==>
            size == 0 || base % 4096 == 0
  {
    if size > 0 && base % 4096 != 0 {
      assert !InFrames(base / 4096, size / 4096, base + size - 1);
    }
  }

  /** Byte `b` lies in one of the `n` frames from `f` on. */
  predicate InFrames(f: nat, n: nat, b: nat) { f <= b / 4096 < f + n }

  /** One usable entry that does not start on a page boundary: the bitmap reaches into frame 2,
      which is usable and not marked. */
  lemma UnalignedBitmap()
    ensures var es := [Entry(0x1800, 0x4000, true)];
            && FrameCount(es) == 6 && BitmapSize(6) == 0x1000 && FirstFit(es, 0x1000, 0) && Usable(es, 2)
            && 0x1800 <= 0x2000 < 0x1800 + 0x1000 && !InFrames(0x1800 / 4096, 0x1000 / 4096, 0x2000)
  {
    var es := [Entry(0x1800, 0x4000, true)];
    assert es[..0] == [];
    assert InEntry(es[0], 2);
  }

  /** What one call, from the free set `s`, does to memory. */
  ghost predicate Zeroes(m: Memory, s: set<nat>, op: Op, m': Memory) {
    match op
    case Alloc(phys) => m' == if s == {} then m else ZeroPage(m, FrameWord(phys / 4096))
    case AllocPages(count, phys) =>
      m' == if count == 0 || forall f: nat :: !HasRun(s, f, count) then m else ZeroRun(m, phys / 4096, count)
    case Free(_) => m' == m
  }

  /** The words of frame `g` are the same. */
  ghost predicate SamePage(m: Memory, m': Memory, g: nat) {
    m'.Keys == m.Keys && forall a :: a in m && PageOf(a.addr) == FrameWord(g) ==> m'[a] == m[a]
  }

  lemma OtherPage(m: Memory, f: nat, g: nat)
    requires f != g && f < MAX_FRAMES && g < MAX_FRAMES
    ensures SamePage(m, ZeroPage(m, FrameWord(f)), g)
  {
    hide FrameWord, PageOf;
    if FrameWord(f) == FrameWord(g) {
      FrameWordInjective(f, g);
    }
  }

  lemma SamePageStep(m0: Memory, m1: Memory, m2: Memory, g: nat)
    requires SamePage(m0, m1, g) && SamePage(m1, m2, g)
    ensures SamePage(m0, m2, g)
  {
    hide FrameWord, PageOf;
  }

  lemma SamePageNone(m: Memory, g: nat)
    ensures SamePage(m, m, g)
  {
    hide FrameWord, PageOf;
  }

  lemma {:induction false} OtherPages(m: Memory, f: nat, n: nat, g: nat)
    requires !(f <= g < f + n) && f + n <= MAX_FRAMES && g < MAX_FRAMES
    ensures SamePage(m, ZeroRun(m, f, n), g)
    decreases n
  {
    hide FrameWord, PageOf, SamePage, ZeroPage;
    if n == 0 {
      SamePageNone(m, g);
    } else {
      var m1 := ZeroPage(m, FrameWord(f));
      OtherPage(m, f, g);
      OtherPages(m1, f + 1, n - 1, g);
      SamePageStep(m, m1, ZeroRun(m1, f + 1, n - 1), g);
    }
  }

  /** A call does not touch the page of a frame that is not free, and frees it only if it is
      the one given back. */
  lemma StepKeeps(frames: nat, s: set<nat>, op: Op, s': set<nat>, m: Memory, m': Memory, g: nat)
    requires Step(frames, s, op, s') && Zeroes(m, s, op, m') && frames <= MAX_FRAMES
    requires g < frames && g !in s && (forall f :: f in s ==> f < frames)
    requires op.Free? ==> op.phys / 4096 != g
    ensures g !in s' && SamePage(m, m', g) && forall f :: f in s' ==> f < frames
  {
    hide SamePage, FrameWord, ZeroPage, ZeroRun;
    SamePageNone(m, g);
    match op
    case Alloc(phys) =>
      if s != {} {
        OtherPage(m, phys / 4096, g);
      }
    case AllocPages(count, phys) =>
      if m' != m {
        assert phys / 4096 + (count - 1) in s;
        OtherPages(m, phys / 4096, count, g);
      }
    case Free(_) =>
  }

  /** Over every run in which no frame of the bitmap is given back, the allocator neither hands
      out a frame of the bitmap nor writes to its page. */
  lemma {:induction false} BitmapKept(frames: nat, states: seq<set<nat>>, ops: seq<Op>, mems: seq<Memory>, g: nat,
                                      k: nat)
    requires IsRun(frames, states, ops) && |mems| == |states| && frames <= MAX_FRAMES && k <= |ops|
    requires forall i :: 0 <= i < |ops| ==> Zeroes(mems[i], states[i], ops[i], mems[i + 1])
    requires g < frames && g !in states[0] && forall f :: f in states[0] ==> f < frames
    requires forall i :: 0 <= i < |ops| && ops[i].Free? ==> ops[i].phys / 4096 != g
    ensures g !in states[k] && SamePage(mems[0], mems[k], g)
    ensures forall f :: f in states[k] ==> f < frames
    decreases k
  {
    hide SamePage, Step, Zeroes;
    if k == 0 {
      SamePageNone(mems[0], g);
    } else {
      BitmapKept(frames, states, ops, mems, g, k - 1);
      StepKeeps(frames, states[k - 1], ops[k - 1], states[k], mems[k - 1], mems[k], g);
      SamePageStep(mems[0], mems[k - 1], mems[k], g);
    }
  }
}
