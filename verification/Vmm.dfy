/** The virtual memory manager (kernel/arch/x86_64/mm/vmm.c) over the frame allocator. */
module Vmm {
  import opened Common
  import opened Entries
  import opened Words
  import opened PageTables
  import opened Paths
  import P = Pmm

  /** Existing links stay as they are. */
  ghost predicate LinksKept(m: Memory, m': Memory, s: Shape) {
    forall t: Word, i: Word :: IsTable(s, t) && IsIndex(i) && Decode(Level(s, t), Entry(m, t, i)).Child? ==>
      Entry(m', t, i) == Entry(m, t, i)
  }

  ghost predicate SmallKept(m: Memory, m': Memory, root: Word) {
    forall v: Word :: Small(m, root, v, 4) ==> Small(m', root, v, 4)
  }

  /** Tables are only added, and only in frames that were free. */
  ghost predicate Grows(s: Shape, s': Shape, free: set<nat>, free': set<nat>, frames: nat) {
    && free' <= free
    && (forall t: Word :: IsTable(s, t) ==> IsTable(s', t) && Level(s', t) == Level(s, t))
    && (forall f: nat :: f < frames && f !in free && !IsTable(s, FrameWord(f)) ==> !IsTable(s', FrameWord(f)))
  }

  /** At most one table is new, and it is `c`. */
  ghost predicate OnlyNew(s: Shape, s': Shape, c: Word) {
    forall t: Word :: IsTable(s', t) && t != c ==> IsTable(s, t)
  }

  // ----- Linking a new table -----

  /** Memory after a zeroed page `c` is linked below entry `i` of `t`. */
  function Linked(m: Memory, t: Word, i: Word, flags: Word, c: Word): Memory {
    Store(ZeroPage(m, c), t, i, LinkTo(c, flags))
  }

  lemma BlankPage(m: Memory, root: Word, s: Shape, c: Word)
    requires Tree(m, root, s) && !IsTable(s, c) && Aligned(c) && PageIn(m, c)
    ensures Blank(ZeroPage(m, c), s, c)
  {
    hide Tree, Slot, IsIndex, Aligned, Entry;
    ZeroKeys(m, c);
    forall k: Word | IsIndex(k)
      ensures Entry(ZeroPage(m, c), c, k) == 0
    {
      ZeroedPage(m, c, k);
    }
  }

  /** The entries of a new table, and the links that were there before. */
  lemma NewEntries(m: Memory, root: Word, s: Shape, t: Word, i: Word, flags: Word, c: Word)
    requires Tree(m, root, s) && IsTable(s, t) && IsIndex(i) && Decode(Level(s, t), Entry(m, t, i)) == Absent
    requires !IsTable(s, c) && Aligned(c)
    ensures Entry(Linked(m, t, i, flags, c), t, i) == LinkTo(c, flags)
    ensures forall k: Word :: IsIndex(k) ==> Entry(Linked(m, t, i, flags, c), c, k) == 0
    ensures LinksKept(m, Linked(m, t, i, flags, c), s)
  {
    hide Tree, Decode, IsIndex, Aligned, Entry, Store, ZeroPage, LinkTo;
    var m1, e := ZeroPage(m, c), LinkTo(c, flags);
    ZeroSame(m, root, s, c);
    TableIn(m, root, s, t);
    EntryStore(m1, t, i, e, t, i);
    forall k: Word | IsIndex(k)
      ensures Entry(Store(m1, t, i, e), c, k) == 0
    {
      ZeroedPage(m, c, k);
      EntryStore(m1, t, i, e, c, k);
    }
    forall u: Word, k: Word | IsTable(s, u) && IsIndex(k) && Decode(Level(s, u), Entry(m, u, k)).Child?
      ensures Entry(Store(m1, t, i, e), u, k) == Entry(m, u, k)
    {
      TableIn(m, root, s, u);
      EntryStore(m1, t, i, e, u, k);
    }
  }

  /** Linking a fresh zeroed table keeps the tree and every translation. */
  lemma NewTable(m: Memory, root: Word, s: Shape, t: Word, i: Word, flags: Word, c: Word, virt: Word)
    requires Tree(m, root, s) && IsTable(s, t) && 1 < Level(s, t) <= 4 && IsIndex(i) &&
             Decode(Level(s, t), Entry(m, t, i)) == Absent
    requires !IsTable(s, c) && Aligned(c) && PageIn(m, c) && flags == TABLE_FLAGS && Reaches(m, root, virt, 4, t, i)
    ensures Opens(m, Linked(m, t, i, flags, c), root, virt, Level(s, t))
    ensures Tree(Linked(m, t, i, flags, c), root, Attach(s, t, i, c))
    ensures Flat(Linked(m, t, i, flags, c), root) == Flat(m, root)
    ensures SmallKept(m, Linked(m, t, i, flags, c), root)
    ensures LinksKept(m, Linked(m, t, i, flags, c), s)
    ensures Decode(Level(s, t), Entry(Linked(m, t, i, flags, c), t, i)) == Child(c)
    ensures forall k: Word :: IsIndex(k) ==> Entry(Linked(m, t, i, flags, c), c, k) == 0
  {
    hide Tree, Decode, IsIndex, Aligned, Entry, Flat, Small, LinksKept, PlainFlags, LinkTo, PageIn, Blank, Attach,
      SameTables, Opens, SameMissing, Reaches;
    var m1, e := ZeroPage(m, c), LinkTo(c, flags);
    ZeroSame(m, root, s, c);
    TreeSame(m, m1, root, s);
    FlatSame(m, m1, root, s);
    BlankPage(m, root, s, c);
    TableFlags();
    LinkToDecodes(Level(s, t), c, flags);
    NewEntries(m, root, s, t, i, flags, c);
    assert Entry(m1, t, i) == Entry(m, t, i) by { SameEntry(m, m1, s, t, i); }
    TreeLink(m1, root, s, t, i, e, c);
    FlatLink(m1, root, s, t, i, e, c);
    RootTable(m, root, s);
    TablesSame(m, m1, root, s);
    ReachesSame(m, m1, root, s, root, virt, 4, t, i);
    LinkOpens(m1, root, s, t, i, e, c, virt);
    OpensSame(m, m1, Linked(m, t, i, flags, c), root, virt, Level(s, t));
    forall v: Word | Small(m, root, v, 4)
      ensures Small(Linked(m, t, i, flags, c), root, v, 4)
    {
      WalkSame(m, m1, root, s, root, v, 4);
      WalkLink(m1, root, s, t, i, e, c, v);
    }
  }

  lemma SameEntry(m: Memory, m': Memory, s: Shape, t: Word, i: Word)
    requires SameTables(m, m', s) && IsTable(s, t) && IsIndex(i)
    ensures Entry(m', t, i) == Entry(m, t, i)
  {
  }

  /** Taking frame `f` for a table leaves the other frames as they were. */
  lemma OtherFrames(s: Shape, t: Word, i: Word, free: set<nat>, f: nat, frames: nat)
    requires IsTable(s, t) && Level(s, t) > 1 && f in free && f < frames <= MAX_FRAMES
    requires forall g: nat :: g in free ==> g < frames && !IsTable(s, FrameWord(g))
    ensures !IsTable(s, FrameWord(f))
    ensures IsTable(Attach(s, t, i, FrameWord(f)), FrameWord(f)) &&
            Level(Attach(s, t, i, FrameWord(f)), FrameWord(f)) == Level(s, t) - 1
    ensures Grows(s, Attach(s, t, i, FrameWord(f)), free, free - {f}, frames)
    ensures OnlyNew(s, Attach(s, t, i, FrameWord(f)), FrameWord(f))
    ensures forall g: nat :: g in free - {f} ==> !IsTable(Attach(s, t, i, FrameWord(f)), FrameWord(g))
  {
    hide FrameWord;
    forall g: nat | g < frames && g != f
      ensures FrameWord(g) != FrameWord(f)
    {
      if FrameWord(g) == FrameWord(f) {
        FrameWordInjective(f, g);
      }
    }
  }

  // ----- One path -----

  /** The frames that one level of the path of `v` takes. */
  function Cost(m: Memory, t: Word, v: Word, level: nat): nat
    requires 1 < level <= 4
  {
    if Next(m, t, v, level) == Absent then 1 else 0
  }

  lemma PathPresent(m: Memory, t: Word, v: Word, level: nat, c: Word)
    requires 1 < level <= 4 && Small(m, t, v, level) && Next(m, t, v, level) == Child(c)
    ensures Small(m, c, v, level - 1)
    ensures Missing(m, t, v, level) == Missing(m, c, v, level - 1)
  {
    hide Decode, Entry, Index;
  }

  lemma PathCreated(m: Memory, m': Memory, t: Word, c: Word, v: Word, level: nat)
    requires 1 < level <= 4 && Next(m, t, v, level) == Absent
    requires forall k: Word :: IsIndex(k) ==> Entry(m', c, k) == 0
    ensures Small(m', c, v, level - 1)
    ensures Missing(m, t, v, level) == Missing(m', c, v, level - 1) + 1
  {
    hide Decode, Entry, Index, IsIndex;
    assert Entry(m', c, Index(v, level - 1)) == 0;
    ZeroDecodes(level - 1);
  }

  /** `a` frames have been taken: what is then short. */
  lemma ShortStep(free: set<nat>, free': set<nat>, a: nat, r: nat)
    requires !P.Short(free, a) && free' <= free && |free'| == |free| - a
    ensures P.Short(free, a + r) <==> P.Short(free', r)
  {
    if a == 0 {
      SameSet(free, free');
    }
  }

  lemma SameSet(free: set<nat>, free': set<nat>)
    requires free' <= free && |free'| == |free|
    ensures free' == free
  {
    assert |free - free'| == 0;
  }

  /** `n` frames have been taken, and there were enough for that. */
  ghost predicate Spent(free0: set<nat>, free: set<nat>, n: nat) {
    free <= free0 && |free| == |free0| - n && !P.Short(free0, n)
  }

  lemma SpentEnough(free0: set<nat>, free: set<nat>, n: nat)
    requires Spent(free0, free, n)
    ensures !P.Short(free0, n)
  {
  }

  lemma SpentNow(free0: set<nat>, free: set<nat>, n: nat)
    requires free <= free0 && |free| == |free0| - n && !P.Short(free0, n)
    ensures Spent(free0, free, n)
  {
  }

  lemma NothingSpent(m: Memory, root: Word, base: nat, step: nat, free: set<nat>, large: bool)
    ensures Mapped(m, m, root, Every(base, step, 0))
    ensures TablesFor(m, root, Every(base, step, 0), large) == 0 && Spent(free, free, 0)
  {
    hide Mapped;
    MappedNone(m, root);
  }

  lemma SpendMore(free0: set<nat>, free: set<nat>, n: nat, r: nat)
    requires Spent(free0, free, n)
    ensures P.Short(free0, n + r) <==> P.Short(free, r)
  {
    hide P.Short;
    ShortStep(free0, free, n, r);
  }

  lemma StillSpent(free0: set<nat>, free: set<nat>, free': set<nat>, n: nat, r: nat)
    requires Spent(free0, free, n) && Spent(free, free', r)
    ensures Spent(free0, free', n + r)
  {
    hide P.Short;
    ShortStep(free0, free, n, r);
  }

  lemma ShortMore(free: set<nat>, a: nat, b: nat)
    requires P.Short(free, a) && a <= b
    ensures P.Short(free, b)
  {
  }

  lemma CostAtMost(m: Memory, t: Word, v: Word, level: nat)
    requires 2 < level <= 4
    ensures Cost(m, t, v, level) == 0 || (Cost(m, t, v, level) == 1 && Missing(m, t, v, level) == level - 1)
  {
    hide Decode, Entry, Index;
  }

  lemma LastCost(m: Memory, pd: Word, v: Word)
    requires Small(m, pd, v, 2)
    ensures Missing(m, pd, v, 2) == Cost(m, pd, v, 2)
  {
    hide Decode, Entry, Index;
  }

  lemma SameAt(m: Memory, m': Memory, root: Word, v: Word)
    requires SameMissing(m, m', root)
    ensures Missing(m', root, v, 4) == Missing(m, root, v, 4)
  {
    hide Missing;
  }

  lemma ReachStart(m: Memory, root: Word, v: Word)
    ensures Reaches(m, root, v, 4, root, Index(v, 4))
  {
    hide Index, Next;
  }

  lemma ReachNext(m: Memory, root: Word, pdpt: Word, v: Word)
    requires Next(m, root, v, 4) == Child(pdpt)
    ensures Reaches(m, root, v, 4, pdpt, Index(v, 3))
  {
    hide Index, Next;
    assert Reaches(m, pdpt, v, 3, pdpt, Index(v, 3));
  }

  lemma ReachNextTwo(m: Memory, root: Word, pdpt: Word, pd: Word, v: Word)
    requires Next(m, root, v, 4) == Child(pdpt) && Next(m, pdpt, v, 3) == Child(pd)
    ensures Reaches(m, root, v, 4, pd, Index(v, 2))
  {
    hide Index, Next;
    assert Reaches(m, pd, v, 2, pd, Index(v, 2));
    assert Reaches(m, pdpt, v, 3, pd, Index(v, 2));
  }

  lemma SmallNext(m: Memory, t: Word, v: Word, level: nat)
    requires 1 < level <= 4 && Small(m, t, v, level)
    ensures !Next(m, t, v, level).Leaf?
  {
    hide Decode, Entry, Index;
  }

  lemma ReachPath(m: Memory, t4: Word, t3: Word, t2: Word, t1: Word, v: Word)
    requires Next(m, t4, v, 4) == Child(t3) && Next(m, t3, v, 3) == Child(t2) && Next(m, t2, v, 2) == Child(t1)
    ensures Reaches(m, t4, v, 4, t1, Index(v, 1))
  {
    hide Index, Next;
    assert Reaches(m, t1, v, 1, t1, Index(v, 1));
    assert Reaches(m, t2, v, 2, t1, Index(v, 1));
    assert Reaches(m, t3, v, 3, t1, Index(v, 1));
  }

  /** A level-1 write keeps the tree and changes one page of the flat map. */
  lemma PteWritten(m: Memory, root: Word, s: Shape, t: Word, e: Word, v: Word)
    requires Tree(m, root, s) && IsTable(s, t) && Level(s, t) == 1 && Reaches(m, root, v, 4, t, Index(v, 1))
    ensures Tree(Store(m, t, Index(v, 1), e), root, s)
    ensures Flat(Store(m, t, Index(v, 1), e), root) ==
            if Decode(1, e) == Leaf then Flat(m, root)[VPage(Page(v)) := Mapping(Addr(e), Attributes(e))]
            else Flat(m, root) - {VPage(Page(v))}
    ensures SmallKept(m, Store(m, t, Index(v, 1), e), root) && SameMissing(m, Store(m, t, Index(v, 1), e), root)
  {
    hide Tree, Decode, Store, Walk, Reaches, Flat, Small, Entry, Index, Page, Addr, SameMissing, Attributes;
    PteSame(m, root, s, t, Index(v, 1), e);
    TreeLeaf(m, root, s, t, Index(v, 1), e);
    FlatPte(m, root, s, t, Index(v, 1), e, v);
    forall v': Word
      ensures Small(m, root, v', 4) ==> Small(Store(m, t, Index(v, 1), e), root, v', 4)
    {
      SmallPte(m, root, s, t, Index(v, 1), e, v');
    }
  }

  /** The flat map at the page of `v` is the walk of `v`. */
  lemma FlatAt(m: Memory, root: Word, v: Word)
    ensures VPage(Page(v)) in Flat(m, root) <==> Walk(m, root, v, 4).Some?
    ensures Walk(m, root, v, 4).Some? ==> Flat(m, root)[VPage(Page(v))] == Walk(m, root, v, 4).value
  {
    hide Walk, Page, IsPage, PageStart;
    WalkPage(m, root, v, 4);
  }

  // ----- Reading a translation -----

  /** The address `v` translates to, as the code computes it level by level; 0 if unmapped. */
  function WalkPhys(m: Memory, t: Word, v: Word, level: nat): Word
    requires 1 <= level <= 4
    decreases level
  {
    match Next(m, t, v, level)
    case Absent => 0
    case Child(c) => WalkPhys(m, c, v, level - 1)
    case Leaf => Inside(level, Entry(m, t, Index(v, level)), v)
  }

  lemma {:induction false} WalkPhysOffset(m: Memory, t: Word, v: Word, level: nat)
    requires 1 <= level <= 4
    ensures WalkPhys(m, t, v, level) == match Walk(m, t, v, level) case None => 0 case Some(p) => WithOffset(p.base, v)
    decreases level
  {
    hide Decode, Entry, Index, Inside, WithOffset, LeafBase, Attributes;
    match Next(m, t, v, level)
    case Absent =>
    case Child(c) => WalkPhysOffset(m, c, v, level - 1);
    case Leaf => LeafInside(level, Entry(m, t, Index(v, level)), v);
  }

  lemma PhysFlat(m: Memory, root: Word, v: Word)
    ensures WalkPhys(m, root, v, 4) ==
            if VPage(Page(v)) in Flat(m, root) then WithOffset(Flat(m, root)[VPage(Page(v))].base, v) else 0
  {
    hide Walk, WalkPhys, Flat, Page, WithOffset;
    FlatAt(m, root, v);
    WalkPhysOffset(m, root, v, 4);
  }

  // ----- Regions of pages -----

  /** The number of bytes in the pages of a region, in `u64` arithmetic. */
  function Rounded(size: nat): nat {
    (size + 4095) % 0x1_0000_0000_0000_0000 / 4096 * 4096
  }

  /** The pages cover the region and no page more, unless its size wraps around. */
  lemma RoundedExact(size: nat)
    requires size < 0x1_0000_0000_0000_0000
    ensures Rounded(size) % 4096 == 0
    ensures if size <= 0xFFFF_FFFF_FFFF_F000 then size <= Rounded(size) < size + 4096 else Rounded(size) == 0
  {
  }

  /** The address `o` bytes above `base`. */
  function AddressAt(base: nat, o: nat): Word { WordOf(base + o) }

  /** Page `k` of the region from `virt` on. */
  function RegionPage(virt: nat, k: nat): VPage { VPage(Page(WordOf(virt + 4096 * k))) }

  /** The frame that vmm_map gives a page. */
  function EntryFrame(phys: Word, flags: Word): Word { (phys | flags) & PHYS_ADDR_MASK }

  lemma FreshFrame(f: nat, flags: Word)
    requires f < MAX_FRAMES && NoAddress(flags)
    ensures EntryFrame(FrameWord(f), flags) == FrameWord(f)
  {
    hide FrameWord, NoAddress, Aligned;
    FrameWordAligned(f);
    PlainTarget(FrameWord(f), flags);
  }

  /** The flags that vmm_map gives a page. */
  function EntryFlags(flags: Word): Word { (flags | 1) & !PHYS_ADDR_MASK }

  /** The pages of the region are mapped to the frames `got`, with the flags asked for. */
  ghost predicate MapsTo(flat: imap<VPage, Mapping>, virt: nat, got: seq<nat>, flags: Word) {
    forall k :: 0 <= k < |got| ==>
      RegionPage(virt, k) in flat && flat[RegionPage(virt, k)] == Mapping(FrameWord(got[k]), EntryFlags(flags))
  }

  /** Outside the first `n` pages of the region, the two maps agree. */
  ghost predicate Elsewhere(flat: imap<VPage, Mapping>, flat0: imap<VPage, Mapping>, virt: nat, n: nat) {
    forall p :: (forall k :: 0 <= k < n ==> p != RegionPage(virt, k)) ==>
      (p in flat <==> p in flat0) && (p in flat ==> flat[p] == flat0[p])
  }

  /** The frames `got` are pairwise different, were free before, are not free now, and hold no table. */
  ghost predicate Fresh(got: seq<nat>, free0: set<nat>, free: set<nat>, s: Shape) {
    && (forall i, j :: 0 <= i < j < |got| ==> got[i] != got[j])
    && (forall i :: 0 <= i < |got| ==> got[i] in free0 && got[i] !in free && !IsTable(s, FrameWord(got[i])))
    && free <= free0
  }

  lemma RegionDistinct(virt: nat, j: nat, k: nat)
    requires j < k < 0x10_0000_0000
    ensures RegionPage(virt, j) != RegionPage(virt, k)
  {
    hide Page, WordOf;
    PagesDistinct(virt, j, k);
  }

  lemma NothingYet(flat: imap<VPage, Mapping>, virt: nat, free: set<nat>, s: Shape, flags: Word)
    ensures MapsTo(flat, virt, [], flags) && Elsewhere(flat, flat, virt, 0) && Fresh([], free, free, s)
  {
    hide RegionPage, FrameWord;
    assert forall p :: p in flat ==> flat[p] == flat[p];
  }

  lemma OneMore(flat: imap<VPage, Mapping>, flat0: imap<VPage, Mapping>, virt: nat, got: seq<nat>, f: nat, flags: Word)
    requires MapsTo(flat, virt, got, flags) && Elsewhere(flat, flat0, virt, |got|) && |got| < 0x10_0000_0000
    ensures var flat' := flat[RegionPage(virt, |got|) := Mapping(FrameWord(f), EntryFlags(flags))];
            MapsTo(flat', virt, got + [f], flags) && Elsewhere(flat', flat0, virt, |got + [f]|)
  {
    hide FrameWord, RegionPage, EntryFlags;
    var flat' := flat[RegionPage(virt, |got|) := Mapping(FrameWord(f), EntryFlags(flags))];
    forall k | 0 <= k < |got + [f]|
      ensures RegionPage(virt, k) in flat' &&
              flat'[RegionPage(virt, k)] == Mapping(FrameWord((got + [f])[k]), EntryFlags(flags))
    {
      if k < |got| {
        RegionDistinct(virt, k, |got|);
      }
    }
    forall p | forall k :: 0 <= k < |got + [f]| ==> p != RegionPage(virt, k)
      ensures (p in flat' <==> p in flat0) && (p in flat' ==> flat'[p] == flat0[p])
    {
      assert p != RegionPage(virt, |got|);
    }
  }

  lemma StillFresh(got: seq<nat>, f: nat, free0: set<nat>, free1: set<nat>, free2: set<nat>, free3: set<nat>, s: Shape,
                   s': Shape, frames: nat)
    requires Fresh(got, free0, free1, s) && f in free1 && free2 == free1 - {f} && !IsTable(s, FrameWord(f))
    requires Grows(s, s', free2, free3, frames) && f < frames && forall g :: g in free0 ==> g < frames
    ensures Fresh(got + [f], free0, free3, s') && free3 <= free1
  {
    hide FrameWord;
  }

  lemma SmallSame(m: Memory, root: Word)
    ensures SmallKept(m, m, root)
  {
    hide Small;
  }

  lemma SmallAt(m0: Memory, m1: Memory, root: Word, v: Word)
    requires SmallKept(m0, m1, root) && Small(m0, root, v, 4)
    ensures Small(m1, root, v, 4)
  {
    hide Small;
  }

  lemma SmallStep(m0: Memory, m1: Memory, m2: Memory, root: Word)
    requires SmallKept(m0, m1, root) && SmallKept(m1, m2, root)
    ensures SmallKept(m0, m2, root)
  {
    hide Small;
  }

  /** Zeroing a data page changes no translation. */
  lemma DataZeroed(m: Memory, root: Word, s: Shape, c: Word)
    requires Tree(m, root, s) && !IsTable(s, c)
    ensures Tree(ZeroPage(m, c), root, s) && Flat(ZeroPage(m, c), root) == Flat(m, root)
    ensures SmallKept(m, ZeroPage(m, c), root) && SameMissing(m, ZeroPage(m, c), root)
  {
    hide Tree, Flat, Small, ZeroPage, SameTables, SameMissing;
    TablesSame(m, ZeroPage(m, c), root, s) by { ZeroSame(m, root, s, c); }
    ZeroSame(m, root, s, c);
    TreeSame(m, ZeroPage(m, c), root, s);
    FlatSame(m, ZeroPage(m, c), root, s);
    RootTable(m, root, s);
    forall v: Word | Small(m, root, v, 4)
      ensures Small(ZeroPage(m, c), root, v, 4)
    {
      WalkSame(m, ZeroPage(m, c), root, s, root, v, 4);
    }
  }

  // ----- The first tables -----

  /** There are only tables of levels 2 to 4. */
  ghost predicate NoPageTables(s: Shape) {
    forall t: Word :: IsTable(s, t) ==> Level(s, t) >= 2
  }

  ghost predicate Unmapped(m: Memory, root: Word) {
    forall v: Word :: Walk(m, root, v, 4) == None
  }

  /** There is nothing but the PML4. */
  ghost predicate NoTables(m: Memory, root: Word) {
    forall v: Word :: Missing(m, root, v, 4) == 3
  }

  lemma RootNonzero(f: nat)
    requires 0 < f < MAX_FRAMES
    ensures FrameWord(f) != 0
  {
    hide WordOf;
    ZeroWord();
    if FrameWord(f) == FrameWord(0) {
      FrameWordInjective(f, 0);
    }
  }

  lemma ZeroWord()
    ensures FrameWord(0) == 0
  {
    hide Compose, Sixteen, Nine, Twelve;
    ZeroNine(0);
    ZeroTwelve(0);
    ZeroSixteen();
    ZeroCompose();
  }

  /** A zeroed page alone is a tree that maps nothing. */
  lemma EmptyRoot(m: Memory, r: Word)
    requires Aligned(r) && PageIn(m, r)
    ensures Tree(ZeroPage(m, r), r, Shape(map[At(r) := 4], map[]))
    ensures NoPageTables(Shape(map[At(r) := 4], map[])) && Unmapped(ZeroPage(m, r), r) && NoTables(ZeroPage(m, r), r)
  {
    hide Decode, Entry, IsIndex, Aligned, ZeroPage, Index, Slot;
    var s := Shape(map[At(r) := 4], map[]);
    ZeroKeys(m, r);
    ZeroDecodes(4);
    forall t: Word, i: Word | IsTable(s, t) && IsIndex(i)
      ensures Down(ZeroPage(m, r), s, t, i)
    {
      ZeroedPage(m, r, i);
    }
    forall v: Word
      ensures Walk(ZeroPage(m, r), r, v, 4) == None && Missing(ZeroPage(m, r), r, v, 4) == 3
    {
      ZeroedPage(m, r, Index(v, 4));
    }
  }

  lemma OnlyRoot(f: nat, free: set<nat>, frames: nat)
    requires f < frames <= MAX_FRAMES && f !in free && forall g :: g in free ==> g < frames
    ensures forall g: nat :: g in free ==> !IsTable(Shape(map[At(FrameWord(f)) := 4], map[]), FrameWord(g))
  {
    hide FrameWord;
    forall g: nat | g in free
      ensures FrameWord(g) != FrameWord(f)
    {
      if FrameWord(g) == FrameWord(f) {
        FrameWordInjective(f, g);
      }
    }
  }

  lemma StillNoPageTables(s: Shape, s': Shape, c: Word)
    requires OnlyNew(s, s', c) && IsTable(s', c) && Level(s', c) >= 2
    requires forall t: Word :: IsTable(s, t) ==> IsTable(s', t) && Level(s', t) == Level(s, t)
    ensures NoPageTables(s) ==> NoPageTables(s')
  {
  }

  lemma WalkFromFlat(m: Memory, m': Memory, root: Word)
    requires Flat(m', root) == Flat(m, root)
    ensures forall v: Word :: Walk(m', root, v, 4) == Walk(m, root, v, 4)
  {
    hide Walk, Flat, Page;
    forall v: Word
      ensures Walk(m', root, v, 4) == Walk(m, root, v, 4)
    {
      FlatAt(m, root, v);
      FlatAt(m', root, v);
    }
  }

  /** With no page tables below it, the level-2 entry of an unmapped address is empty. */
  lemma PdeReady(m: Memory, root: Word, s: Shape, pdpt: Word, pd: Word, v: Word)
    requires Tree(m, root, s) && NoPageTables(s) && Walk(m, root, v, 4) == None
    requires Next(m, root, v, 4) == Child(pdpt) && Next(m, pdpt, v, 3) == Child(pd) && IsTable(s, pd) &&
             Level(s, pd) == 2
    ensures Decode(2, Entry(m, pd, Index(v, 2))) == Absent
    ensures Reaches(m, root, v, 4, pd, Index(v, 2))
  {
    hide Decode, Entry, Index, Tree, LeafTo;
    ChildTable(m, root, s, pd, v, 2);
    assert Walk(m, pdpt, v, 3) == None;
    assert Walk(m, pd, v, 2) == None;
    assert Reaches(m, pd, v, 2, pd, Index(v, 2));
    assert Reaches(m, pdpt, v, 3, pd, Index(v, 2));
  }

  // ----- The direct map of physical memory -----

  /** The number of 2 MiB pages that cover `maxPhys` bytes, and at least 4 GiB. */
  function HhdmRegions(maxPhys: nat): nat {
    ((if maxPhys < 0x1_0000_0000 then 0x1_0000_0000 else maxPhys) + 0x1F_FFFF) / 0x20_0000
  }

  /** The large pages cover all physical memory and 4 GiB, and no page more. */
  lemma RegionsExact(maxPhys: nat)
    ensures var bytes := Max(maxPhys, 0x1_0000_0000);
            bytes <= 0x20_0000 * HhdmRegions(maxPhys) < bytes + 0x20_0000
  {
  }

  /** The first `n` 2 MiB pages are mapped at `hhdm`, and nothing else is. */
  ghost predicate DirectMap(m: Memory, root: Word, hhdm: nat, n: nat) {
    && (forall u: Word, i: nat :: i < n && SameRegion(u, WordOf(0x20_0000 * i + hhdm)) ==>
          Walk(m, root, u, 4) == Some(LeafTo(2, HugeTo(WordOf(0x20_0000 * i)), u)))
    && (forall u: Word ::
          (forall i: nat :: i < n ==> !SameRegion(u, WordOf(0x20_0000 * i + hhdm))) ==> Walk(m, root, u, 4) == None)
  }

  /** The `pages` pages from `virt` on lie outside the 2 MiB regions of the direct map. */
  ghost predicate Apart(virt: nat, pages: nat, hhdm: nat, n: nat) {
    forall k: nat, i: nat :: k < pages && i < n ==> !SameRegion(WordOf(virt + 4096 * k), WordOf(0x20_0000 * i + hhdm))
  }

  lemma DirectNothing(m: Memory, root: Word, hhdm: nat)
    requires Unmapped(m, root)
    ensures DirectMap(m, root, hhdm, 0)
  {
    hide Walk, SameRegion, WordOf;
  }

  lemma NextRegion(m: Memory, root: Word, hhdm: nat, n: nat)
    requires DirectMap(m, root, hhdm, n) && n < 0x800_0000
    ensures Walk(m, root, WordOf(0x20_0000 * n + hhdm), 4) == None
  {
    hide Walk, SameRegion, WordOf, LeafTo, HugeTo;
    forall i: nat | i < n
      ensures !SameRegion(WordOf(0x20_0000 * n + hhdm), WordOf(0x20_0000 * i + hhdm))
    {
      RegionsDistinct(hhdm, i, n);
      RegionSymmetric(WordOf(hhdm + 0x20_0000 * i), WordOf(hhdm + 0x20_0000 * n));
    }
  }

  lemma RegionSymmetric(u: Word, v: Word)
    ensures SameRegion(u, v) <==> SameRegion(v, u)
  {
    hide Index;
  }

  lemma RegionTransitive(u: Word, v: Word, w: Word)
    requires SameRegion(u, v) && SameRegion(u, w)
    ensures SameRegion(v, w)
  {
    hide Index;
  }

  lemma DirectMore(m: Memory, m': Memory, root: Word, hhdm: nat, n: nat)
    requires DirectMap(m, root, hhdm, n) && n < 0x800_0000
    requires forall u: Word :: Walk(m', root, u, 4) ==
               if SameRegion(u, WordOf(0x20_0000 * n + hhdm)) then Some(LeafTo(2, HugeTo(WordOf(0x20_0000 * n)), u))
               else Walk(m, root, u, 4)
    ensures DirectMap(m', root, hhdm, n + 1)
  {
    hide Walk, SameRegion, WordOf, LeafTo, HugeTo;
    forall u: Word, i: nat | i < n + 1 && SameRegion(u, WordOf(0x20_0000 * i + hhdm))
      ensures Walk(m', root, u, 4) == Some(LeafTo(2, HugeTo(WordOf(0x20_0000 * i)), u))
    {
      if i < n {
        RegionsDistinct(hhdm, i, n);
        if SameRegion(u, WordOf(0x20_0000 * n + hhdm)) {
          RegionTransitive(u, WordOf(0x20_0000 * i + hhdm), WordOf(0x20_0000 * n + hhdm));
        }
      }
    }
    forall u: Word | forall i: nat :: i < n + 1 ==> !SameRegion(u, WordOf(0x20_0000 * i + hhdm))
      ensures Walk(m', root, u, 4) == None
    {
      assert !SameRegion(u, WordOf(0x20_0000 * n + hhdm));
    }
  }

  /** The tables translate `v` to `w`. */
  ghost predicate TranslatesTo(m: Memory, root: Word, v: Word, w: Word) {
    VPage(Page(v)) in Flat(m, root) && WithOffset(Flat(m, root)[VPage(Page(v))].base, v) == w
  }

  /** A byte of the direct map lies in the region of its large page. */
  lemma DirectRegion(hhdm: nat, n: nat, p: nat, i: nat)
    requires hhdm % 0x20_0000 == 0 && p < 0x20_0000 * n && i == p / 0x20_0000
    ensures i < n && (p + hhdm) % 0x20_0000 == p % 0x20_0000
    ensures SameRegion(WordOf(p + hhdm), WordOf(0x20_0000 * i + hhdm))
  {
    hide WordOf, SameRegion;
    assert (p + hhdm) / 0x20_0000 == (0x20_0000 * i + hhdm) / 0x20_0000;
    RegionOf(p + hhdm, 0x20_0000 * i + hhdm);
  }

  /** Every byte of the direct map translates to itself minus `hhdm`. */
  lemma DirectTarget(m: Memory, root: Word, hhdm: nat, n: nat, p: nat)
    requires DirectMap(m, root, hhdm, n) && hhdm % 0x20_0000 == 0 && p < 0x20_0000 * n
    ensures TranslatesTo(m, root, WordOf(p + hhdm), WordOf(p))
  {
    hide Walk, WordOf, LeafBase, HugeTo, Flat, Page, WithOffset, SameRegion, Inside, Attributes;
    var i := p / 0x20_0000;
    DirectRegion(hhdm, n, p, i);
    FlatAt(m, root, WordOf(p + hhdm));
    LeafInside(2, HugeTo(WordOf(0x20_0000 * i)), WordOf(p + hhdm));
    HugeTarget(p, p + hhdm);
  }

  /** Pages of the kernel image, outside the direct map, have no large page on their path. */
  lemma KernelSmall(m: Memory, root: Word, hhdm: nat, n: nat, virt: nat, pages: nat)
    requires DirectMap(m, root, hhdm, n)
    requires Apart(virt, pages, hhdm, n)
    ensures forall k: nat :: k < pages ==> Small(m, root, WordOf(virt + 4096 * k), 4)
  {
    hide Walk, SameRegion, WordOf, Small, LeafTo, HugeTo;
    forall k: nat | k < pages
      ensures Small(m, root, WordOf(virt + 4096 * k), 4)
    {
      UnmappedSmall(m, root, WordOf(virt + 4096 * k), 4);
    }
  }

  /** Mapping the kernel image does not touch the direct map. */
  lemma KernelElsewhere(flat: imap<VPage, Mapping>, flat0: imap<VPage, Mapping>, hhdm: nat, n: nat, virt: nat,
                        pages: nat,
                        p: nat, i: nat)
    requires Elsewhere(flat, flat0, virt, pages)
    requires Apart(virt, pages, hhdm, n)
    requires i < n && SameRegion(WordOf(p + hhdm), WordOf(0x20_0000 * i + hhdm))
    ensures var q := VPage(Page(WordOf(p + hhdm)));
            (q in flat <==> q in flat0) && (q in flat ==> flat[q] == flat0[q])
  {
    hide SameRegion, WordOf, Page;
    forall k | 0 <= k < pages
      ensures VPage(Page(WordOf(p + hhdm))) != RegionPage(virt, k)
    {
      if Page(WordOf(p + hhdm)) == Page(WordOf(virt + 4096 * k)) {
        PageInRegion(WordOf(p + hhdm), WordOf(virt + 4096 * k));
        RegionTransitive(WordOf(p + hhdm), WordOf(virt + 4096 * k), WordOf(0x20_0000 * i + hhdm));
      }
    }
  }

  // ----- The frames of the first address space -----

  /** The frames that building the address space takes: the PML4, the tables of the direct map
      of `n` large pages, and those that the kernel's pages still lack then. */
  function InitFrames(hhdm: nat, n: nat, kernelVirt: nat, pages: nat): (k: nat)
    ensures k >= 1
  {
    var regions := Every(hhdm, 0x20_0000, n);
    1 + FreshTables([], regions, true) + FreshTables(regions, Every(kernelVirt, 4096, pages), false)
  }

  lemma InitFramesBound(hhdm: nat, n: nat, kernelVirt: nat, pages: nat)
    ensures InitFrames(hhdm, n, kernelVirt, pages) <= 1 + 2 * n + 3 * pages
  {
    hide Every, FreshTables;
    FreshBound([], Every(hhdm, 0x20_0000, n), true);
    FreshBound(Every(hhdm, 0x20_0000, n), Every(kernelVirt, 4096, pages), false);
  }

  lemma InitCosts(m0: Memory, m1: Memory, root: Word, hhdm: nat, n: nat, kernelVirt: nat, pages: nat)
    requires NoTables(m0, root)
    ensures var direct := TablesFor(m0, root, Every(hhdm, 0x20_0000, n), true);
            && 1 + direct <= InitFrames(hhdm, n, kernelVirt, pages)
            && (Mapped(m0, m1, root, Every(hhdm, 0x20_0000, n)) ==>
                  1 + direct + TablesFor(m1, root, Every(kernelVirt, 4096, pages), false)
                  == InitFrames(hhdm, n, kernelVirt, pages))
  {
    hide Missing, TablesFor, FreshTables, Every;
    FreshIs(m0, root, [], Every(hhdm, 0x20_0000, n), true);
    if Mapped(m0, m1, root, Every(hhdm, 0x20_0000, n)) {
      FreshIs(m1, root, Every(hhdm, 0x20_0000, n), Every(kernelVirt, 4096, pages), false);
    }
  }

  /** `u` lies neither in the direct map nor in a page of the kernel image. */
  ghost predicate Outside(u: Word, hhdm: nat, n: nat, virt: nat, pages: nat) {
    && (forall i: nat :: i < n ==> !SameRegion(u, WordOf(0x20_0000 * i + hhdm)))
    && (forall k: nat :: k < pages ==> VPage(Page(u)) != RegionPage(virt, k))
  }

  lemma NothingElse(m: Memory, flat: imap<VPage, Mapping>, root: Word, hhdm: nat, n: nat, virt: nat, pages: nat,
                    u: Word)
    requires DirectMap(m, root, hhdm, n) && Elsewhere(flat, Flat(m, root), virt, pages)
    requires Outside(u, hhdm, n, virt, pages)
    ensures VPage(Page(u)) !in flat
  {
    hide Walk, SameRegion, WordOf, Page, Flat, LeafTo, HugeTo, RegionPage;
    FlatAt(m, root, u);
  }

  // ----- Linear maps -----

  lemma RoundedPages(size: nat)
    ensures 4096 * (Rounded(size) / 4096) == Rounded(size)
  {
  }

  lemma KernelFlags()
    ensures NoAddress(0x103)
  {
  }

  /** The page address written for page `k` of a linear map. */
  function Target(phys: nat, k: nat, flags: Word): Word { EntryFrame(WordOf(phys + 4096 * k), flags) }

  ghost predicate Linear(flat: imap<VPage, Mapping>, virt: nat, phys: nat, n: nat, flags: Word) {
    forall k: nat :: k < n ==>
      RegionPage(virt, k) in flat && flat[RegionPage(virt, k)] == Mapping(Target(phys, k, flags), EntryFlags(flags))
  }

  lemma LinearNothing(flat: imap<VPage, Mapping>, virt: nat, phys: nat, flags: Word)
    ensures Linear(flat, virt, phys, 0, flags)
  {
  }

  lemma LinearMore(flat: imap<VPage, Mapping>, flat0: imap<VPage, Mapping>, virt: nat, phys: nat, n: nat, flags: Word)
    requires Linear(flat, virt, phys, n, flags) && Elsewhere(flat, flat0, virt, n) && n < 0x10_0000_0000
    ensures var flat' := flat[RegionPage(virt, n) := Mapping(Target(phys, n, flags), EntryFlags(flags))];
            Linear(flat', virt, phys, n + 1, flags) && Elsewhere(flat', flat0, virt, n + 1)
  {
    hide WordOf, Page, RegionPage, Target, EntryFlags;
    var flat' := flat[RegionPage(virt, n) := Mapping(Target(phys, n, flags), EntryFlags(flags))];
    forall k: nat | k < n + 1
      ensures RegionPage(virt, k) in flat' &&
              flat'[RegionPage(virt, k)] == Mapping(Target(phys, k, flags), EntryFlags(flags))
    {
      if k < n {
        RegionDistinct(virt, k, n);
      }
    }
    forall p | forall k :: 0 <= k < n + 1 ==> p != RegionPage(virt, k)
      ensures (p in flat' <==> p in flat0) && (p in flat' ==> flat'[p] == flat0[p])
    {
      assert p != RegionPage(virt, n);
    }
  }

  lemma LinearTarget(flat: imap<VPage, Mapping>, virt: nat, phys: nat, n: nat, flags: Word, o: nat)
    requires Linear(flat, virt, phys, n, flags) && virt % 4096 == 0 && phys % 4096 == 0 && o < 4096 * n
    requires phys + 4096 * n <= 4096 * MAX_FRAMES && NoAddress(flags)
    ensures var q := VPage(Page(WordOf(virt + o)));
            && q in flat && WithOffset(flat[q].base, WordOf(virt + o)) == WordOf(phys + o)
            && flat[q].flags == EntryFlags(flags)
  {
    hide Page, WithOffset, WordOf, NoAddress, EntryFlags;
    var k := o / 4096;
    assert RegionPage(virt, k) in flat;
    assert (virt + o) / 4096 == (virt + 4096 * k) / 4096;
    assert (virt + o) % 4096 == (phys + o) % 4096;
    assert phys + 4096 * k == 4096 * ((phys + o) / 4096);
    FrameWordAligned((phys + o) / 4096);
    PlainTarget(WordOf(phys + 4096 * k), flags);
    SamePageNumber(virt + o, virt + 4096 * k);
    SmallTarget(phys + o, virt + o);
  }

  // ----- Translations of the flat map -----

  /** The address that `v` translates to; 0 if unmapped. */
  ghost function Translation(flat: imap<VPage, Mapping>, v: Word): Word {
    if VPage(Page(v)) in flat then WithOffset(flat[VPage(Page(v))].base, v) else 0
  }

  /** 0 stands for no translation, and for physical byte 0, which the kernel maps too. */
  lemma ZeroExact(flat: imap<VPage, Mapping>, v: Word)
    ensures Translation(flat, v) == 0 <==> VPage(Page(v)) !in flat || (flat[VPage(Page(v))].base == 0 && v & 0xFFF == 0)
  {
    hide Page;
  }

  /** The first byte of the direct map is mapped, and translates to 0. */
  lemma FirstByteIsZero(m: Memory, root: Word, hhdm: nat, n: nat)
    requires DirectMap(m, root, hhdm, n) && hhdm % 0x20_0000 == 0 && n > 0
    ensures VPage(Page(WordOf(hhdm))) in Flat(m, root) && Translation(Flat(m, root), WordOf(hhdm)) == 0
  {
    hide DirectMap, Page, Flat, WithOffset, WordOf;
    DirectTarget(m, root, hhdm, n, 0);
    ZeroWord();
  }

  /** After vmm_map with flags that have no address bit, `virt` translates to the frame of `phys`
      plus its own offset; addresses of other pages translate as before. */
  lemma MapTranslates(flat: imap<VPage, Mapping>, virt: Word, phys: Word, flags: Word, u: Word)
    ensures var flat' := flat[VPage(Page(virt)) := Mapping(EntryFrame(phys, flags), EntryFlags(flags))];
            && (NoAddress(flags) ==> Translation(flat', virt) == WithOffset(phys & PHYS_ADDR_MASK, virt))
            && (Page(u) != Page(virt) ==> Translation(flat', u) == Translation(flat, u))
  {
    hide Page, WithOffset, NoAddress;
    FrameExact(phys, flags);
  }

  /** After vmm_unmap, `virt` translates to nothing, and other pages as before. */
  lemma UnmapTranslates(flat: imap<VPage, Mapping>, virt: Word, u: Word)
    ensures var flat' := flat - {VPage(Page(virt))};
            Translation(flat', virt) == 0 && (Page(u) != Page(virt) ==> Translation(flat', u) == Translation(flat, u))
  {
    hide Page, WithOffset;
  }

  // ----- Rights -----

  /** What the processor grants for `v` by the flat map: nothing in user mode, and otherwise what
      the flags of the page allow. */
  ghost function Granted(flat: imap<VPage, Mapping>, v: Word): Option<Rights> {
    if VPage(Page(v)) in flat then Some(Allows(flat[VPage(Page(v))].flags).(user := false)) else None
  }

  lemma GrantedExact(m: Memory, root: Word, s: Shape, v: Word)
    requires Tree(m, root, s)
    ensures Access(m, root, v, 4) == Granted(Flat(m, root), v)
  {
    hide Tree, Walk, Flat, Page, Access, Allows;
    AccessExact(m, root, s, v);
    FlatAt(m, root, v);
  }

  /** The rights that the flags of vmm_map ask for. */
  function Asked(flags: Word): Rights {
    Rights(flags & PAGE_WRITE != 0, flags & PAGE_USER != 0, flags & PAGE_NX == 0, flags & PAGE_GLOBAL != 0)
  }

  /** After vmm_map the page of `virt` has the rights that `flags` ask for, except that it is
      never usable in user mode; every other page has the rights it had. */
  ghost predicate Grants(m: Memory, m': Memory, root: Word, virt: Word, flags: Word) {
    forall u: Word ::
      Access(m', root, u, 4) ==
      if Page(u) == Page(virt) then Some(Asked(flags).(user := false)) else Access(m, root, u, 4)
  }

  /** So vmm_map gives what it was asked for exactly when that does not include user mode. */
  lemma AskedExact(m: Memory, m': Memory, root: Word, virt: Word, flags: Word)
    requires Grants(m, m', root, virt, flags)
    ensures Access(m', root, virt, 4) == Some(Asked(flags)) <==> flags & PAGE_USER == 0
  {
    hide Access, Page;
  }

  lemma MapGrants(flat: imap<VPage, Mapping>, virt: Word, base: Word, flags: Word, u: Word)
    ensures Granted(flat[VPage(Page(virt)) := Mapping(base, EntryFlags(flags))], u) ==
            if Page(u) == Page(virt) then Some(Asked(flags).(user := false)) else Granted(flat, u)
  {
    hide Page;
  }

  lemma MapRights(m: Memory, s: Shape, m': Memory, s': Shape, root: Word, virt: Word, base: Word, flags: Word)
    requires Tree(m, root, s) && Tree(m', root, s')
    requires Flat(m', root) == Flat(m, root)[VPage(Page(virt)) := Mapping(base, EntryFlags(flags))]
    ensures Grants(m, m', root, virt, flags)
  {
    hide Tree, Flat, Page, Access, Granted, Asked, EntryFlags;
    forall u: Word
      ensures Access(m', root, u, 4) ==
        if Page(u) == Page(virt) then Some(Asked(flags).(user := false)) else Access(m, root, u, 4)
    {
      GrantedExact(m, root, s, u);
      GrantedExact(m', root, s', u);
      MapGrants(Flat(m, root), virt, base, flags, u);
    }
  }

  /** Writable, executable and global, for the kernel only. */
  const KERNEL_RIGHTS := Rights(true, false, true, true)

  /** The pages of the direct map are as vmm_init asks. */
  lemma DirectRights(m: Memory, root: Word, hhdm: nat, n: nat, p: nat)
    requires DirectMap(m, root, hhdm, n) && hhdm % 0x20_0000 == 0 && p < 0x20_0000 * n && n <= 0x800_0000
    ensures Granted(Flat(m, root), WordOf(p + hhdm)) == Some(KERNEL_RIGHTS)
  {
    hide Walk, WordOf, LeafBase, HugeTo, Flat, Page, SameRegion, Allows, Attributes, Aligned;
    var i := p / 0x20_0000;
    DirectRegion(hhdm, n, p, i);
    FlatAt(m, root, WordOf(p + hhdm));
    FrameWordAligned(512 * i);
    assert 4096 * (512 * i) == 0x20_0000 * i;
    HugeDecodesLeaf(WordOf(0x20_0000 * i));
    HugeAllows();
  }

  lemma HugeAllows()
    ensures Allows(0x183).(user := false) == KERNEL_RIGHTS && Allows(EntryFlags(0x103)).(user := false) == KERNEL_RIGHTS
  {
  }

  // ----- Cached translations -----

  ghost predicate Agrees(tlb: imap<VPage, Mapping>, flat: imap<VPage, Mapping>, stale: set<VPage>) {
    forall k :: k in tlb && k !in stale ==> k in flat && tlb[k] == flat[k]
  }

  lemma OneStale(tlb: imap<VPage, Mapping>, flat: imap<VPage, Mapping>, flat': imap<VPage, Mapping>, p: VPage)
    requires Agrees(tlb, flat, {}) && flat' - {p} == flat - {p}
    ensures Agrees(tlb, flat', {p})
  {
    forall k | k in tlb && k != p
      ensures k in flat' && tlb[k] == flat'[k]
    {
      assert k in flat - {p};
      assert k in flat' - {p} && (flat' - {p})[k] == (flat - {p})[k];
    }
  }

  lemma Flushed(tlb: imap<VPage, Mapping>, flat: imap<VPage, Mapping>, p: VPage)
    requires Agrees(tlb, flat, {p})
    ensures Agrees(tlb - {p}, flat, {})
  {
  }

  class Vmm {
    const pmm: P.Pmm
    var root: Word                       // physical address of the PML4, 0 before Init
    ghost var shape: Shape
    ghost var tlb: imap<VPage, Mapping>     // translations the processor may have cached

    constructor (pmm: P.Pmm)
      requires pmm.Valid()
      ensures this.pmm == pmm && root == 0 && Valid()
    {
      this.pmm := pmm;
      root := 0;
      shape := Shape(map[], map[]);
      tlb := imap[];
    }

    ghost predicate Valid()
      reads this, pmm, pmm.bitmap, pmm.ram
    {
      && pmm.Valid()
      && (root != 0 ==>
          && Tree(pmm.ram.words, root, shape)
          && (forall f: nat :: f in pmm.FreeSet() ==> !IsTable(shape, FrameWord(f)))
          && Cached({}))
    }

    ghost function FlatMap(): imap<VPage, Mapping>
      reads this`root, pmm.ram
    {
      if root == 0 then imap[] else Flat(pmm.ram.words, root)
    }

    /** The address `v` translates to; 0 if unmapped. */
    ghost function Translate(v: Word): Word
      reads this`root, pmm.ram
    {
      Translation(FlatMap(), v)
    }

    /** What the processor grants for `v`, by a walk of the tables. */
    ghost function Permits(v: Word): Option<Rights>
      reads this`root, pmm.ram
    {
      if root == 0 then None else Access(pmm.ram.words, root, v, 4)
    }

    lemma PermitsGranted()
      requires Valid()
      ensures forall v: Word :: Permits(v) == Granted(FlatMap(), v)
    {
      hide Tree, Flat, Page, Access, Allows, P.Pmm.Valid, FrameWord;
      if root != 0 {
        forall v: Word
          ensures Permits(v) == Granted(FlatMap(), v)
        {
          GrantedExact(pmm.ram.words, root, shape, v);
        }
      }
    }

    /** Every cached translation, except perhaps of the pages in `stale`, is the current one. */
    ghost predicate Cached(stale: set<VPage>)
      reads this`root, this`tlb, pmm.ram
    {
      Agrees(tlb, FlatMap(), stale)
    }

    /** The processor may cache any present translation at any time. */
    ghost method Fill(stale: set<VPage>)
      requires Cached(stale)
      modifies this`tlb
      ensures Cached(stale)
    {
      hide Flat;
      var filled :| forall k :: k in filled ==>
        (k in tlb && filled[k] == tlb[k]) || (k in FlatMap() && filled[k] == FlatMap()[k]);
      tlb := filled;
    }

    ghost method Invlpg(v: Word)
      modifies this`tlb
      ensures tlb == old(tlb) - {VPage(Page(v))}
    {
      tlb := tlb - {VPage(Page(v))};
    }

    /** Writes entry `i` of table `t`. */
    method Write(t: Word, i: Word, e: Word)
      requires pmm.Valid() && At(Slot(t, i)) in pmm.ram.words
      modifies pmm.ram
      ensures pmm.Valid() && pmm.FreeSet() == old(pmm.FreeSet())
      ensures pmm.ram.words == Store(old(pmm.ram.words), t, i, e)
    {
      hide Slot, FrameWord, P.Bit, IsIndex;
      pmm.ram.words := pmm.ram.words[At(Slot(t, i)) := e];
      assert pmm.FreeSet() == old(pmm.FreeSet());
    }

    /** Allocates a zeroed page and links it below entry `i` of `t`, unless the allocator
        returns 0. */
    method AllocLinked(t: Word, i: Word, flags: Word) returns (phys: nat)
      requires pmm.Valid() && At(Slot(t, i)) in pmm.ram.words
      modifies pmm`usedMem, pmm`lastFree, pmm.bitmap, pmm.ram
      ensures phys == 0 <==> old(pmm.FreeSet()) == {} || 0 in old(pmm.FreeSet())
      ensures phys != 0 ==>
                && pmm.Valid() && phys / 4096 in old(pmm.FreeSet()) && phys / 4096 < pmm.frames <= MAX_FRAMES
                && pmm.FreeSet() == old(pmm.FreeSet()) - {phys / 4096}
                && PageIn(old(pmm.ram.words), FrameWord(phys / 4096))
                && pmm.ram.words == Linked(old(pmm.ram.words), t, i, flags, FrameWord(phys / 4096))
    {
      hide Slot, FrameWord, P.Bit, IsIndex;
      phys := pmm.Alloc();
      if phys != 0 {
        Write(t, i, LinkTo(FrameWord(phys / 4096), flags));
      }
    }

    /** The table below entry `i` of `t`; creates it if there is none.  Panics exactly when a
        frame is needed and the allocator returns 0. */
    method GetOrCreate(t: Word, i: Word, flags: Word, ghost virt: Word) returns (panicked: bool, child: Word)
      requires Valid() && root != 0 && IsTable(shape, t) && 1 < Level(shape, t) <= 4 && IsIndex(i) &&
               flags == TABLE_FLAGS
      requires !Decode(Level(shape, t), Entry(pmm.ram.words, t, i)).Leaf?
      requires i == Index(virt, Level(shape, t)) && Reaches(pmm.ram.words, root, virt, 4, t, i)
      modifies this`shape, pmm`usedMem, pmm`lastFree, pmm.bitmap, pmm.ram
      ensures panicked <==>
                old(Decode(Level(shape, t), Entry(pmm.ram.words, t, i))) == Absent && P.Short(old(pmm.FreeSet()), 1)
      ensures !panicked ==>
                && Valid() && FlatMap() == old(FlatMap())
                && Grows(old(shape), shape, old(pmm.FreeSet()), pmm.FreeSet(), pmm.frames)
                && IsTable(shape, child) && Level(shape, child) == old(Level(shape, t)) - 1
                && OnlyNew(old(shape), shape, child)
                && Decode(old(Level(shape, t)), Entry(pmm.ram.words, t, i)) == Child(child)
                && LinksKept(old(pmm.ram.words), pmm.ram.words, old(shape))
                && SmallKept(old(pmm.ram.words), pmm.ram.words, root)
                && Opens(old(pmm.ram.words), pmm.ram.words, root, virt, old(Level(shape, t)))
      ensures old(Decode(Level(shape, t), Entry(pmm.ram.words, t, i))) != Absent ==>
                pmm.ram.words == old(pmm.ram.words) && pmm.FreeSet() == old(pmm.FreeSet())
      ensures !panicked && old(Decode(Level(shape, t), Entry(pmm.ram.words, t, i))) == Absent ==>
                && |pmm.FreeSet()| == |old(pmm.FreeSet())| - 1 && 0 !in old(pmm.FreeSet())
                && forall k: Word :: IsIndex(k) ==> Entry(pmm.ram.words, child, k) == 0
    {
      hide Decode, Present, Addr, Tree, Flat, FrameWord, Grows, OnlyNew, LinksKept, SmallKept, Attach, Linked,
        P.Pmm.Valid, Entry, PlainFlags, IsIndex, Aligned, PageIn, Opens, Reaches, Index;
      ghost var m0, s0, free0 := pmm.ram.words, shape, pmm.FreeSet();
      var e := Entry(pmm.ram.words, t, i);
      PresentDecodes(Level(shape, t), e);
      if Present(e) {
        ExistingLink(m0, root, s0, t, i, free0, pmm.frames);
        PresentOpens(m0, root, s0, t, virt);
        return false, Addr(e);
      }
      TableSlot(m0, root, s0, t, i);
      var phys := AllocLinked(t, i, flags);
      if phys == 0 {
        return true, 0;
      }
      child := FrameWord(phys / 4096);
      panicked := false;
      FrameWordAligned(phys / 4096);
      FreeFrames();
      OtherFrames(s0, t, i, free0, phys / 4096, pmm.frames);
      NewTable(m0, root, s0, t, i, flags, child, virt);
      shape := Attach(shape, t, i, child);
    }

    /** Writes the level-1 entry of `v` and flushes its page.  Between the two, the
        processor may still use the old entry or already the new one. */
    method StorePte(t: Word, v: Word, e: Word)
      requires Valid() && root != 0 && IsTable(shape, t) && Level(shape, t) == 1
      requires Reaches(pmm.ram.words, root, v, 4, t, Index(v, 1))
      modifies this`tlb, pmm.ram
      ensures Valid() && pmm.FreeSet() == old(pmm.FreeSet())
      ensures FlatMap() ==
              if Decode(1, e) == Leaf then old(FlatMap())[VPage(Page(v)) := Mapping(Addr(e), Attributes(e))]
              else old(FlatMap()) - {VPage(Page(v))}
      ensures SmallKept(old(pmm.ram.words), pmm.ram.words, root) && SameMissing(old(pmm.ram.words), pmm.ram.words, root)
    {
      hide SameMissing, Index, Decode, SmallKept, Flat, Addr, FrameWord, Tree, Reaches, Page, P.Pmm.Valid, Slot, Store,
        IsIndex, Agrees;
      TableSlot(pmm.ram.words, root, shape, t, Index(v, 1));
      PteWritten(pmm.ram.words, root, shape, t, e, v);
      Fill({});
      ghost var flat0, p := FlatMap(), VPage(Page(v));
      Write(t, Index(v, 1), e);
      OneStale(tlb, flat0, FlatMap(), p);
      Fill({p});
      Flushed(tlb, FlatMap(), p);
      Invlpg(v);
      Fill({});
    }

    /** One level down on the path of `virt`, creating the table if need be. */
    method Descend(t: Word, ghost level: nat, i: Word, ghost virt: Word) returns (panicked: bool, child: Word)
      requires Valid() && root != 0 && IsTable(shape, t) && Level(shape, t) == level && 1 < level <= 4 &&
               i == Index(virt, level)
      requires Small(pmm.ram.words, t, virt, level) && Reaches(pmm.ram.words, root, virt, 4, t, i)
      modifies this`shape, pmm`usedMem, pmm`lastFree, pmm.bitmap, pmm.ram
      ensures panicked <==> P.Short(old(pmm.FreeSet()), Cost(old(pmm.ram.words), t, virt, level))
      ensures !panicked ==>
                && Valid() && FlatMap() == old(FlatMap())
                && Grows(old(shape), shape, old(pmm.FreeSet()), pmm.FreeSet(), pmm.frames)
                && IsTable(shape, child) && Level(shape, child) == level - 1
                && OnlyNew(old(shape), shape, child)
                && Small(pmm.ram.words, child, virt, level - 1)
                && Next(pmm.ram.words, t, virt, level) == Child(child)
                && LinksKept(old(pmm.ram.words), pmm.ram.words, old(shape))
                && SmallKept(old(pmm.ram.words), pmm.ram.words, root)
                && Opens(old(pmm.ram.words), pmm.ram.words, root, virt, level)
                && |pmm.FreeSet()| == |old(pmm.FreeSet())| - Cost(old(pmm.ram.words), t, virt, level)
                && Missing(old(pmm.ram.words), t, virt, level) ==
                   Missing(pmm.ram.words, child, virt, level - 1) + Cost(old(pmm.ram.words), t, virt, level)
    {
      hide Index, Decode, Flat, FrameWord, Small, Tree, Entry, Missing, P.Pmm.Valid, Cached, FlatMap, P.Pmm.FreeSet,
        LinksKept, SmallKept, IsIndex, PlainFlags, Opens, Reaches;
      ghost var m0 := pmm.ram.words;
      SmallNext(m0, t, virt, level);
      TableFlags();
      panicked, child := GetOrCreate(t, i, PAGE_WRITE | 1, virt);
      if panicked {
        return;
      }
      if Next(m0, t, virt, level) == Absent {
        PathCreated(m0, pmm.ram.words, t, child, virt, level);
      } else {
        PathPresent(m0, t, virt, level, child);
      }
    }

    /** The page directory for `virt`, with the table above it.  Panics exactly when the
        allocator cannot supply those that are missing. */
    method MakeUpper(virt: Word) returns (panicked: bool, pd: Word, ghost pdpt: Word)
      requires Valid() && root != 0 && Small(pmm.ram.words, root, virt, 4)
      modifies this`shape, pmm`usedMem, pmm`lastFree, pmm.bitmap, pmm.ram
      ensures panicked <==> P.Short(old(pmm.FreeSet()), ToMake(Missing(old(pmm.ram.words), root, virt, 4), true))
      ensures !panicked ==>
                && Valid() && FlatMap() == old(FlatMap())
                && Grows(old(shape), shape, old(pmm.FreeSet()), pmm.FreeSet(), pmm.frames)
                && (NoPageTables(old(shape)) ==> NoPageTables(shape))
                && IsTable(shape, pd) && Level(shape, pd) == 2 && Small(pmm.ram.words, pd, virt, 2)
                && IsTable(shape, pdpt) && Level(shape, pdpt) == 3
                && Next(pmm.ram.words, root, virt, 4) == Child(pdpt) && Next(pmm.ram.words, pdpt, virt, 3) == Child(pd)
                && SmallKept(old(pmm.ram.words), pmm.ram.words, root)
                && OpensUpper(old(pmm.ram.words), pmm.ram.words, root, virt)
                && |pmm.FreeSet()| == |old(pmm.FreeSet())| - ToMake(Missing(old(pmm.ram.words), root, virt, 4), true)
                && Missing(old(pmm.ram.words), root, virt, 4) ==
                   Missing(pmm.ram.words, pd, virt, 2) + ToMake(Missing(old(pmm.ram.words), root, virt, 4), true)
    {
      hide Index, Decode, Flat, FrameWord, Small, Tree, Reaches, Page, P.Pmm.Valid, Entry, Cached, FlatMap,
        P.Pmm.FreeSet, IsIndex, P.Short, Valid, Opens, OpensUpper, Missing, Cost, NoPageTables;
      ghost var m0, s0, free0 := pmm.ram.words, shape, pmm.FreeSet();
      ValidTree();
      RootTable(pmm.ram.words, root, shape);
      ReachStart(m0, root, virt);
      pd := 0;
      var upper;
      panicked, upper := Descend(root, 4, Index(virt, 4), virt);
      pdpt := upper;
      CostAtMost(m0, root, virt, 4);
      if panicked {
        ShortMore(free0, Cost(m0, root, virt, 4), ToMake(Missing(m0, root, virt, 4), true));
        return;
      }
      ghost var m1, s1, free1 := pmm.ram.words, shape, pmm.FreeSet();
      StillNoPageTables(s0, s1, upper);
      ReachNext(m1, root, upper, virt);
      CostAtMost(m1, upper, virt, 3);
      ShortStep(free0, free1, Cost(m0, root, virt, 4), Cost(m1, upper, virt, 3));
      panicked, pd := Descend(upper, 3, Index(virt, 3), virt);
      if panicked {
        return;
      }
      StillNoPageTables(s1, shape, pd);
      LinkStays(m1, pmm.ram.words, s1, root, virt, 4);
      OpensTwo(m0, m1, pmm.ram.words, root, virt);
    }

    /** The page table for `virt`, with the tables above it.  Panics exactly when the allocator
        cannot supply the tables that are missing; these are the frames it takes. */
    method MakePath(virt: Word) returns (panicked: bool, pt: Word)
      requires Valid() && root != 0 && Small(pmm.ram.words, root, virt, 4)
      modifies this`shape, pmm`usedMem, pmm`lastFree, pmm.bitmap, pmm.ram
      ensures panicked <==> P.Short(old(pmm.FreeSet()), Missing(old(pmm.ram.words), root, virt, 4))
      ensures !panicked ==>
                && Valid() && FlatMap() == old(FlatMap())
                && Grows(old(shape), shape, old(pmm.FreeSet()), pmm.FreeSet(), pmm.frames)
                && IsTable(shape, pt) && Level(shape, pt) == 1
                && Reaches(pmm.ram.words, root, virt, 4, pt, Index(virt, 1))
                && SmallKept(old(pmm.ram.words), pmm.ram.words, root)
                && Shares(old(pmm.ram.words), pmm.ram.words, root, virt)
                && |pmm.FreeSet()| == |old(pmm.FreeSet())| - Missing(old(pmm.ram.words), root, virt, 4)
    {
      hide Index, Decode, Flat, FrameWord, Small, Tree, Reaches, Page, P.Pmm.Valid, Entry, Cached, FlatMap,
        P.Pmm.FreeSet, IsIndex, P.Short, Valid, Opens, OpensUpper, Shares, Missing, Cost, NoPageTables;
      ghost var m0, free0 := pmm.ram.words, pmm.FreeSet();
      pt := 0;
      var pd;
      ghost var pdpt;
      panicked, pd, pdpt := MakeUpper(virt);
      if panicked {
        ShortMore(free0, ToMake(Missing(m0, root, virt, 4), true), Missing(m0, root, virt, 4));
        return;
      }
      ghost var m2, s2, free2 := pmm.ram.words, shape, pmm.FreeSet();
      ReachNextTwo(m2, root, pdpt, pd, virt);
      LastCost(m2, pd, virt);
      ShortStep(free0, free2, ToMake(Missing(m0, root, virt, 4), true), Missing(m2, pd, virt, 2));
      ValidTree();
      RootTable(m2, root, s2);
      panicked, pt := Descend(pd, 2, Index(virt, 2), virt);
      if panicked {
        return;
      }
      LinkStays(m2, pmm.ram.words, s2, root, virt, 4);
      LinkStays(m2, pmm.ram.words, s2, pdpt, virt, 3);
      ReachPath(pmm.ram.words, root, pdpt, pd, pt, virt);
      OpensAll(m0, m2, pmm.ram.words, root, virt);
    }

    lemma ValidTree()
      requires Valid() && root != 0
      ensures Tree(pmm.ram.words, root, shape)
    {
    }

    /** Maps the page of `virt` to the frame of `phys`.  Panics exactly when tables are
        missing on its path and the allocator cannot supply them. */
    method Map(virt: Word, phys: Word, flags: Word) returns (panicked: bool)
      requires Valid() && root != 0 && Small(pmm.ram.words, root, virt, 4)
      modifies this`shape, this`tlb, pmm`usedMem, pmm`lastFree, pmm.bitmap, pmm.ram
      ensures panicked <==> P.Short(old(pmm.FreeSet()), Missing(old(pmm.ram.words), root, virt, 4))
      ensures !panicked ==>
                && Valid()
                && FlatMap() ==
                   old(FlatMap())[VPage(Page(virt)) := Mapping(EntryFrame(phys, flags), EntryFlags(flags))]
                && Grows(old(shape), shape, old(pmm.FreeSet()), pmm.FreeSet(), pmm.frames)
                && SmallKept(old(pmm.ram.words), pmm.ram.words, root)
                && Shares(old(pmm.ram.words), pmm.ram.words, root, virt)
                && |pmm.FreeSet()| == |old(pmm.FreeSet())| - Missing(old(pmm.ram.words), root, virt, 4)
      ensures !panicked ==> Grants(old(pmm.ram.words), pmm.ram.words, root, virt, flags)
    {
      hide Index, Decode, Flat, FrameWord, Small, Tree, Reaches, Page, P.Pmm.Valid, Entry, Cached,
        P.Pmm.FreeSet, P.Short, Valid, Addr, MapTo, Grows, Missing, Shares, SameMissing, Attributes, Grants;
      ghost var m0, s0 := pmm.ram.words, shape;
      ValidTree();
      var pt;
      panicked, pt := MakePath(virt);
      if !panicked {
        ghost var m1 := pmm.ram.words;
        MapToDecodes(phys, flags);
        StorePte(pt, virt, MapTo(phys, flags));
        SharesSame(m0, m1, pmm.ram.words, root, virt);
        ValidTree();
        MapRights(m0, s0, pmm.ram.words, shape, root, virt, EntryFrame(phys, flags), flags);
      }
    }

    /** Unmaps the page of `virt`. */
    method Unmap(virt: Word)
      requires Valid() && (root != 0 ==> Small(pmm.ram.words, root, virt, 4))
      modifies this`tlb, pmm.ram
      ensures Valid() && FlatMap() == old(FlatMap()) - {VPage(Page(virt))}
      ensures pmm.FreeSet() == old(pmm.FreeSet())
    {
      hide Index, Decode, Present, Flat, Addr, FrameWord, Tree, Reaches, Page, P.Pmm.Valid, Entry, Small, Walk, Cached,
        IsIndex;
      if root == 0 {
        return;
      }
      ghost var m := pmm.ram.words;
      RootTable(m, root, shape);
      FlatAt(m, root, virt);
      var pml4e := Entry(pmm.ram.words, root, Index(virt, 4));
      StepDown(m, root, shape, root, virt, 4);
      if !Present(pml4e) {
        return;
      }
      var pdpt := Addr(pml4e);
      var pdpte := Entry(pmm.ram.words, pdpt, Index(virt, 3));
      StepDown(m, root, shape, pdpt, virt, 3);
      if !Present(pdpte) {
        return;
      }
      var pd := Addr(pdpte);
      var pde := Entry(pmm.ram.words, pd, Index(virt, 2));
      StepDown(m, root, shape, pd, virt, 2);
      if !Present(pde) {
        return;
      }
      var pt := Addr(pde);
      ReachPath(m, root, pdpt, pd, pt, virt);
      ZeroDecodes(1);
      StorePte(pt, virt, 0);
    }

    /** The physical address of `virt`, or 0. */
    method GetPhys(virt: Word) returns (phys: Word)
      ensures phys == Translate(virt)
      ensures phys == 0 <==>
                var p := VPage(Page(virt));
                p !in FlatMap() || (FlatMap()[p].base == 0 && virt & 0xFFF == 0)
    {
      hide Index, Decode, Present, Huge, Flat, Addr, Page, Entry, Inside, WithOffset;
      ZeroExact(FlatMap(), virt);
      if root == 0 {
        return 0;
      }
      PhysFlat(pmm.ram.words, root, virt);
      var pml4e := Entry(pmm.ram.words, root, Index(virt, 4));
      HugeDecodes(4, pml4e);
      if !Present(pml4e) {
        return 0;
      }
      var pdpt := Addr(pml4e);
      var pdpte := Entry(pmm.ram.words, pdpt, Index(virt, 3));
      HugeDecodes(3, pdpte);
      if !Present(pdpte) {
        return 0;
      }
      if Huge(pdpte) {
        return Inside(3, pdpte, virt);
      }
      var pd := Addr(pdpte);
      var pde := Entry(pmm.ram.words, pd, Index(virt, 2));
      HugeDecodes(2, pde);
      if !Present(pde) {
        return 0;
      }
      if Huge(pde) {
        return Inside(2, pde, virt);
      }
      var pt := Addr(pde);
      var pte := Entry(pmm.ram.words, pt, Index(virt, 1));
      HugeDecodes(1, pte);
      if !Present(pte) {
        return 0;
      }
      return Inside(1, pte, virt);
    }

    // ----- Regions -----

    /** Allocates a zeroed frame for data. */
    method AllocData() returns (phys: nat)
      requires Valid() && root != 0
      modifies pmm`usedMem, pmm`lastFree, pmm.bitmap, pmm.ram
      ensures phys == 0 <==> P.Short(old(pmm.FreeSet()), 1)
      ensures phys != 0 ==>
                && Valid() && FlatMap() == old(FlatMap())
                && phys / 4096 in old(pmm.FreeSet()) && phys / 4096 < pmm.frames <= MAX_FRAMES
                && pmm.FreeSet() == old(pmm.FreeSet()) - {phys / 4096}
                && !IsTable(shape, FrameWord(phys / 4096))
                && SmallKept(old(pmm.ram.words), pmm.ram.words, root)
                && SameMissing(old(pmm.ram.words), pmm.ram.words, root)
    {
      hide P.Bit, FrameWord, Tree, Flat, Agrees, SmallKept, ZeroPage, PageIn, P.Pmm.FreeSet, SameMissing;
      ghost var m0 := pmm.ram.words;
      phys := pmm.Alloc();
      if phys != 0 {
        DataZeroed(m0, root, shape, FrameWord(phys / 4096));
      }
    }

    /** Maps the page of `v` to a fresh frame.  Panics exactly when the allocator cannot supply it
        and the missing tables. */
    method MapFresh(v: Word, flags: Word) returns (panicked: bool, ghost f: nat)
      requires Valid() && root != 0 && NoAddress(flags) && Small(pmm.ram.words, root, v, 4)
      modifies this`shape, this`tlb, pmm`usedMem, pmm`lastFree, pmm.bitmap, pmm.ram
      ensures panicked <==> P.Short(old(pmm.FreeSet()), 1 + Missing(old(pmm.ram.words), root, v, 4))
      ensures !panicked ==>
                && Valid() && FlatMap() == old(FlatMap())[VPage(Page(v)) := Mapping(FrameWord(f), EntryFlags(flags))]
                && f in old(pmm.FreeSet()) && f < pmm.frames && !IsTable(old(shape), FrameWord(f))
                && Grows(old(shape), shape, old(pmm.FreeSet()) - {f}, pmm.FreeSet(), pmm.frames)
                && SmallKept(old(pmm.ram.words), pmm.ram.words, root)
                && Shares(old(pmm.ram.words), pmm.ram.words, root, v)
                && |pmm.FreeSet()| == |old(pmm.FreeSet())| - 1 - Missing(old(pmm.ram.words), root, v, 4)
    {
      hide P.Pmm.Valid, FrameWord, Tree, Flat, Small, P.Pmm.FreeSet, Page, NoAddress, Cached, FlatMap, Valid, Grows,
        Missing, Shares, SameMissing, P.Short, Grants, EntryFlags, EntryFrame, SmallKept, P.Pmm.IsFree, IsTable;
      ghost var m0, free0 := pmm.ram.words, pmm.FreeSet();
      var phys := AllocData();
      f := phys / 4096;
      if phys == 0 {
        ShortMore(free0, 1, 1 + Missing(m0, root, v, 4));
        return true, f;
      }
      ghost var m1, free1 := pmm.ram.words, pmm.FreeSet();
      SmallAt(m0, m1, root, v);
      SameAt(m0, m1, root, v);
      assert |free1| == |free0| - 1;
      ShortStep(free0, free1, 1, Missing(m0, root, v, 4));
      panicked := Map(v, FrameWord(phys / 4096), flags);
      if panicked {
        return;
      }
      SharesSame(m0, m1, pmm.ram.words, root, v);
      SmallStep(m0, m1, pmm.ram.words, root);
      FreshFrame(f, flags);
    }

    /** Gives each page of the region its own fresh frame.  Panics exactly when the allocator
        cannot supply these and the tables missing on their paths. */
    method MapRegion(virt: nat, size: nat, flags: Word) returns (panicked: bool, ghost got: seq<nat>)
      requires Valid() && root != 0 && NoAddress(flags) && Rounded(size) <= 0x1_0000_0000_0000
      requires forall k: nat :: 4096 * k < Rounded(size) ==> Small(pmm.ram.words, root, WordOf(virt + 4096 * k), 4)
      modifies this`shape, this`tlb, pmm`usedMem, pmm`lastFree, pmm.bitmap, pmm.ram
      ensures panicked <==>
                P.Short(old(pmm.FreeSet()), Rounded(size) / 4096
                  + TablesFor(old(pmm.ram.words), root, Every(virt, 4096, Rounded(size) / 4096), false))
      ensures !panicked ==>
                && Valid() && 4096 * |got| == Rounded(size)
                && MapsTo(FlatMap(), virt, got, flags) && Elsewhere(FlatMap(), old(FlatMap()), virt, |got|)
                && Fresh(got, old(pmm.FreeSet()), pmm.FreeSet(), shape)
    {
      hide P.Pmm.Valid, FrameWord, WordOf, Tree, Flat, Small, SmallKept, P.Pmm.FreeSet, Page, NoAddress, Cached,
        FlatMap, Valid, Grows, MapsTo, Elsewhere, Fresh, Missing, Mapped, TablesFor, Every, Shares, P.Short;
      var aligned := Rounded(size);
      var off := 0;
      panicked, got := false, [];
      ghost var m0, free0, n := pmm.ram.words, pmm.FreeSet(), aligned / 4096;
      NothingYet(FlatMap(), virt, free0, shape, flags);
      NothingSpent(m0, root, virt, 4096, free0, false);
      SmallSame(m0, root);
      FreeFrames();
      while off < aligned
        invariant off == 4096 * |got| <= aligned && !panicked
        invariant Valid() && SmallKept(m0, pmm.ram.words, root)
        invariant MapsTo(FlatMap(), virt, got, flags) && Elsewhere(FlatMap(), old(FlatMap()), virt, |got|)
        invariant Fresh(got, free0, pmm.FreeSet(), shape)
        invariant Mapped(m0, pmm.ram.words, root, Every(virt, 4096, |got|))
        invariant Spent(free0, pmm.FreeSet(), |got| + TablesFor(m0, root, Every(virt, 4096, |got|), false))
      {
        ghost var m1, flat1, free1, s1, f := pmm.ram.words, FlatMap(), pmm.FreeSet(), shape, 0;
        ghost var before := |got| + TablesFor(m0, root, Every(virt, 4096, |got|), false);
        SmallAt(m0, m1, root, WordOf(virt + 4096 * |got|));
        OneMoreTable(m0, m1, root, virt, 4096, |got|, n, false);
        SpendMore(free0, free1, before, 1 + Missing(m1, root, Spaced(virt, 4096, |got|), 4));
        panicked, f := MapFresh(WordOf(virt + off), flags);
        if panicked {
          ShortMore(free0, before + 1 + Missing(m1, root, Spaced(virt, 4096, |got|), 4),
                    n + TablesFor(m0, root, Every(virt, 4096, n), false));
          return;
        }
        SmallStep(m0, m1, pmm.ram.words, root);
        OneMore(flat1, old(FlatMap()), virt, got, f, flags);
        StillFresh(got, f, free0, free1, free1 - {f}, pmm.FreeSet(), s1, shape, pmm.frames);
        EveryMore(m0, m1, pmm.ram.words, root, virt, 4096, |got|);
        StillSpent(free0, free1, pmm.FreeSet(), before, 1 + Missing(m1, root, Spaced(virt, 4096, |got|), 4));
        got := got + [f];
        off := off + 4096;
      }
    }

    // ----- Initialisation -----

    /** Allocates an empty PML4. */
    method Start() returns (panicked: bool)
      requires Valid() && root == 0
      modifies this, pmm`usedMem, pmm`lastFree, pmm.bitmap, pmm.ram
      ensures panicked <==> P.Short(old(pmm.FreeSet()), 1)
      ensures !panicked ==>
                && Valid() && root != 0 && NoPageTables(shape) && Unmapped(pmm.ram.words, root) && tlb == imap[]
                && NoTables(pmm.ram.words, root) && Spent(old(pmm.FreeSet()), pmm.FreeSet(), 1)
    {
      hide P.Bit, FrameWord, Tree, Flat, ZeroPage, P.Pmm.FreeSet, NoPageTables, Unmapped, NoTables, IsTable,
        P.Pmm.Valid, Lookup;
      ghost var m0, free0 := pmm.ram.words, pmm.FreeSet();
      FreeFrames();
      PmmBacks(m0);
      var phys := pmm.Alloc();
      if phys == 0 {
        return true;
      }
      ghost var f := phys / 4096;
      root := FrameWord(phys / 4096);
      tlb := imap[];
      shape := Shape(map[At(root) := 4], map[]);
      FrameWordAligned(f);
      RootNonzero(f);
      EmptyRoot(m0, FrameWord(f));
      OnlyRoot(f, pmm.FreeSet(), pmm.frames);
      panicked := false;
    }

    lemma PmmBacks(m: Memory)
      requires pmm.Valid() && m == pmm.ram.words
      ensures pmm.frames <= MAX_FRAMES && forall f: nat :: f < pmm.frames ==> PageIn(m, FrameWord(f))
    {
    }

    /** Maps the 2 MiB region of `virt`, which is still unmapped, to `phys`.  Panics exactly when
        the allocator cannot supply the missing tables above the page directory entry. */
    method MapHuge(virt: Word, phys: Word) returns (panicked: bool)
      requires Valid() && root != 0 && NoPageTables(shape) && tlb == imap[]
      requires Walk(pmm.ram.words, root, virt, 4) == None
      modifies this`shape, pmm`usedMem, pmm`lastFree, pmm.bitmap, pmm.ram
      ensures panicked <==> P.Short(old(pmm.FreeSet()), ToMake(Missing(old(pmm.ram.words), root, virt, 4), true))
      ensures !panicked ==>
                && Valid() && NoPageTables(shape)
                && Shares(old(pmm.ram.words), pmm.ram.words, root, virt)
                && Spent(old(pmm.FreeSet()), pmm.FreeSet(), ToMake(Missing(old(pmm.ram.words), root, virt, 4), true))
      ensures !panicked ==>
                forall u: Word :: Walk(pmm.ram.words, root, u, 4) ==
                  if SameRegion(u, virt) then Some(LeafTo(2, HugeTo(phys), u))
                  else Walk(old(pmm.ram.words), root, u, 4)
    {
      hide Index, Decode, Flat, FrameWord, Small, Tree, Walk, Entry, P.Pmm.FreeSet, IsIndex, SameRegion, LeafTo,
        P.Pmm.Valid, Slot, HugeTo, SmallKept, P.Short, NoPageTables, Reaches, Lookup, Missing, ToMake, Opens,
        OpensUpper, Shares;
      ghost var m0 := pmm.ram.words;
      UnmappedSmall(m0, root, virt, 4);
      var pd;
      ghost var pdpt;
      panicked, pd, pdpt := MakeUpper(virt);
      if panicked {
        return;
      }
      ghost var m2 := pmm.ram.words;
      WalkFromFlat(m0, m2, root);
      PdeReady(m2, root, shape, pdpt, pd, virt);
      TableSlot(m2, root, shape, pd, Index(virt, 2));
      HugeDecodesLeaf(phys);
      forall u: Word {
        WalkPde(m2, root, shape, pd, Index(virt, 2), HugeTo(phys), virt, u);
      }
      TreeLeaf(m2, root, shape, pd, Index(virt, 2), HugeTo(phys));
      PdeOpens(m2, root, shape, pd, Index(virt, 2), HugeTo(phys), virt);
      Write(pd, Index(virt, 2), HugeTo(phys));
      OpensAll(m0, m2, pmm.ram.words, root, virt);
    }

    /** Maps the first `n` 2 MiB pages of physical memory at `hhdm`. */
    method MapHhdm(hhdm: nat, n: nat) returns (panicked: bool)
      requires Valid() && root != 0 && NoPageTables(shape) && Unmapped(pmm.ram.words, root)
      requires tlb == imap[] && n <= 0x800_0000
      modifies this`shape, pmm`usedMem, pmm`lastFree, pmm.bitmap, pmm.ram
      ensures panicked <==>
                P.Short(old(pmm.FreeSet()), TablesFor(old(pmm.ram.words), root, Every(hhdm, 0x20_0000, n), true))
      ensures !panicked ==>
                && Valid() && DirectMap(pmm.ram.words, root, hhdm, n)
                && Mapped(old(pmm.ram.words), pmm.ram.words, root, Every(hhdm, 0x20_0000, n))
                && Spent(old(pmm.FreeSet()), pmm.FreeSet(),
                         TablesFor(old(pmm.ram.words), root, Every(hhdm, 0x20_0000, n), true))
    {
      hide FrameWord, WordOf, Tree, Flat, P.Pmm.FreeSet, P.Pmm.Valid, NoPageTables, Unmapped, SameRegion, LeafTo,
        HugeTo, DirectMap, Lookup, Walk, Valid, Missing, ToMake, Mapped, TablesFor, Every, Shares, P.Short, Spent;
      ghost var m0, free0 := pmm.ram.words, pmm.FreeSet();
      DirectNothing(m0, root, hhdm);
      NothingSpent(m0, root, hhdm, 0x20_0000, free0, true);
      panicked := false;
      var phys, i := 0, 0;
      while i < n
        invariant i <= n && phys == 0x20_0000 * i && !panicked
        invariant Valid() && NoPageTables(shape) && DirectMap(pmm.ram.words, root, hhdm, i)
        invariant Mapped(m0, pmm.ram.words, root, Every(hhdm, 0x20_0000, i))
        invariant Spent(free0, pmm.FreeSet(), TablesFor(m0, root, Every(hhdm, 0x20_0000, i), true))
      {
        ghost var m1, free1 := pmm.ram.words, pmm.FreeSet();
        ghost var before := TablesFor(m0, root, Every(hhdm, 0x20_0000, i), true);
        ghost var more := ToMake(Missing(m1, root, Spaced(hhdm, 0x20_0000, i), 4), true);
        NextRegion(m1, root, hhdm, i);
        OneMoreTable(m0, m1, root, hhdm, 0x20_0000, i, n, true);
        SpendMore(free0, free1, before, more);
        panicked := MapHuge(WordOf(phys + hhdm), WordOf(phys));
        if panicked {
          ShortMore(free0, before + more, TablesFor(m0, root, Every(hhdm, 0x20_0000, n), true));
          return;
        }
        DirectMore(m1, pmm.ram.words, root, hhdm, i);
        EveryMore(m0, m1, pmm.ram.words, root, hhdm, 0x20_0000, i);
        StillSpent(free0, free1, pmm.FreeSet(), before, more);
        phys, i := phys + 0x20_0000, i + 1;
      }
      SpentEnough(free0, pmm.FreeSet(), TablesFor(m0, root, Every(hhdm, 0x20_0000, n), true));
    }

    /** Maps the `n` pages from `virt` on to the frames from `phys` on. */
    method MapLinear(virt: nat, phys: nat, n: nat, flags: Word) returns (panicked: bool)
      requires Valid() && root != 0 && n <= 0x10_0000_0000
      requires forall k: nat :: k < n ==> Small(pmm.ram.words, root, WordOf(virt + 4096 * k), 4)
      modifies this`shape, this`tlb, pmm`usedMem, pmm`lastFree, pmm.bitmap, pmm.ram
      ensures panicked <==>
                P.Short(old(pmm.FreeSet()), TablesFor(old(pmm.ram.words), root, Every(virt, 4096, n), false))
      ensures !panicked ==>
                Valid() && Linear(FlatMap(), virt, phys, n, flags) && Elsewhere(FlatMap(), old(FlatMap()), virt, n)
    {
      hide P.Pmm.Valid, FrameWord, WordOf, Tree, Flat, Small, SmallKept, P.Pmm.FreeSet, Page, Cached, FlatMap, Valid,
        Linear, Elsewhere, P.Short, Missing, Mapped, TablesFor, Every, Shares, Spent;
      panicked := false;
      var off, k := 0, 0;
      ghost var m0, free0 := pmm.ram.words, pmm.FreeSet();
      NothingYet(FlatMap(), virt, {}, shape, flags);
      NothingSpent(m0, root, virt, 4096, free0, false);
      LinearNothing(FlatMap(), virt, phys, flags);
      SmallSame(m0, root);
      while k < n
        invariant off == 4096 * k && k <= n && !panicked
        invariant Valid() && SmallKept(m0, pmm.ram.words, root)
        invariant Linear(FlatMap(), virt, phys, k, flags) && Elsewhere(FlatMap(), old(FlatMap()), virt, k)
        invariant Mapped(m0, pmm.ram.words, root, Every(virt, 4096, k))
        invariant Spent(free0, pmm.FreeSet(), TablesFor(m0, root, Every(virt, 4096, k), false))
      {
        ghost var m1, flat1, free1 := pmm.ram.words, FlatMap(), pmm.FreeSet();
        ghost var before := TablesFor(m0, root, Every(virt, 4096, k), false);
        ghost var more := Missing(m1, root, Spaced(virt, 4096, k), 4);
        SmallAt(m0, m1, root, WordOf(virt + 4096 * k));
        OneMoreTable(m0, m1, root, virt, 4096, k, n, false);
        SpendMore(free0, free1, before, more);
        panicked := Map(WordOf(virt + off), WordOf(phys + off), flags);
        if panicked {
          ShortMore(free0, before + more, TablesFor(m0, root, Every(virt, 4096, n), false));
          return;
        }
        SmallStep(m0, m1, pmm.ram.words, root);
        LinearMore(flat1, old(FlatMap()), virt, phys, k, flags);
        EveryMore(m0, m1, pmm.ram.words, root, virt, 4096, k);
        SpentNow(free1, pmm.FreeSet(), more);
        StillSpent(free0, free1, pmm.FreeSet(), before, more);
        off, k := off + 4096, k + 1;
      }
      SpentEnough(free0, pmm.FreeSet(), TablesFor(m0, root, Every(virt, 4096, n), false));
    }

    /** Builds the kernel's address space: all physical memory at `hhdm`, at least 4 GiB of
        it, and the kernel image at `kernelVirt`.  Panics exactly when the allocator cannot
        supply the PML4 and the tables for both. */
    method Init(hhdm: nat, kernelPhys: nat, kernelVirt: nat, kernelSize: nat) returns (panicked: bool)
      requires Valid() && root == 0 && hhdm % 0x20_0000 == 0
      requires HhdmRegions(pmm.maxPhys) <= 0x800_0000 && Rounded(kernelSize) <= 0x1_0000_0000_0000
      requires Apart(kernelVirt, Rounded(kernelSize) / 4096, hhdm, HhdmRegions(pmm.maxPhys))
      modifies this, pmm`usedMem, pmm`lastFree, pmm.bitmap, pmm.ram
      ensures panicked <==>
                P.Short(old(pmm.FreeSet()),
                        InitFrames(hhdm, HhdmRegions(pmm.maxPhys), kernelVirt, Rounded(kernelSize) / 4096))
      ensures !panicked ==> Valid() && root != 0
      ensures !panicked ==>
                forall p: nat :: p < 0x20_0000 * HhdmRegions(pmm.maxPhys) ==>
                  Translate(AddressAt(hhdm, p)) == WordOf(p) && Permits(AddressAt(hhdm, p)) == Some(KERNEL_RIGHTS)
      ensures !panicked && kernelPhys % 4096 == 0 && kernelVirt % 4096 == 0 &&
              kernelPhys + Rounded(kernelSize) <= 4096 * MAX_FRAMES ==>
                forall o: nat :: o < Rounded(kernelSize) ==>
                  && Translate(AddressAt(kernelVirt, o)) == AddressAt(kernelPhys, o)
                  && Permits(AddressAt(kernelVirt, o)) == Some(KERNEL_RIGHTS)
      ensures !panicked ==>
                forall u: Word :: Outside(u, hhdm, HhdmRegions(pmm.maxPhys), kernelVirt, Rounded(kernelSize) / 4096) ==>
                  VPage(Page(u)) !in FlatMap()
    {
      hide P.Pmm.Valid, FrameWord, WordOf, Tree, Flat, Small, P.Pmm.FreeSet, Page, Cached, Valid, Linear, Elsewhere,
        P.Short, NoPageTables, Unmapped, DirectMap, SameRegion, WithOffset, Apart, NoAddress, NoTables, Mapped,
        TablesFor, Every, Spent, InitFrames, Permits, Allows, EntryFlags, Outside;
      KernelFlags();
      HugeAllows();
      RoundedPages(kernelSize);
      var n, pages := HhdmRegions(pmm.maxPhys), Rounded(kernelSize) / 4096;
      ghost var free0 := pmm.FreeSet();
      panicked := Start();
      if panicked {
        ShortMore(free0, 1, InitFrames(hhdm, n, kernelVirt, pages));
        return;
      }
      ghost var m0, free1 := pmm.ram.words, pmm.FreeSet();
      ghost var direct := TablesFor(m0, root, Every(hhdm, 0x20_0000, n), true);
      SpendMore(free0, free1, 1, direct);
      InitCosts(m0, m0, root, hhdm, n, kernelVirt, pages);
      panicked := MapHhdm(hhdm, n);
      if panicked {
        ShortMore(free0, 1 + direct, InitFrames(hhdm, n, kernelVirt, pages));
        return;
      }
      ghost var m1 := pmm.ram.words;
      KernelSmall(m1, root, hhdm, n, kernelVirt, pages);
      InitCosts(m0, m1, root, hhdm, n, kernelVirt, pages);
      StillSpent(free0, free1, pmm.FreeSet(), 1, direct);
      SpendMore(free0, pmm.FreeSet(), 1 + direct, TablesFor(m1, root, Every(kernelVirt, 4096, pages), false));
      panicked := MapLinear(kernelVirt, kernelPhys, pages, 0x103);
      if panicked {
        return;
      }
      PermitsGranted();
      forall p: nat | p < 0x20_0000 * n
        ensures Translate(AddressAt(hhdm, p)) == WordOf(p) && Permits(AddressAt(hhdm, p)) == Some(KERNEL_RIGHTS)
      {
        DirectRights(m1, root, hhdm, n, p);
        DirectRegion(hhdm, n, p, p / 0x20_0000);
        DirectTarget(m1, root, hhdm, n, p);
        KernelElsewhere(FlatMap(), Flat(m1, root), hhdm, n, kernelVirt, pages, p, p / 0x20_0000);
      }
      if kernelPhys % 4096 == 0 && kernelVirt % 4096 == 0 && kernelPhys + Rounded(kernelSize) <= 4096 * MAX_FRAMES {
        forall o: nat | o < Rounded(kernelSize)
          ensures Translate(AddressAt(kernelVirt, o)) == AddressAt(kernelPhys, o)
          ensures Permits(AddressAt(kernelVirt, o)) == Some(KERNEL_RIGHTS)
        {
          LinearTarget(FlatMap(), kernelVirt, kernelPhys, pages, 0x103, o);
        }
      }
      forall u: Word | Outside(u, hhdm, n, kernelVirt, pages)
        ensures VPage(Page(u)) !in FlatMap()
      {
        NothingElse(m1, FlatMap(), root, hhdm, n, kernelVirt, pages, u);
      }
    }

    lemma FreeFrames()
      ensures forall f :: f in pmm.FreeSet() ==> f < pmm.frames
    {
    }
  }

  lemma ExistingLink(m: Memory, root: Word, s: Shape, t: Word, i: Word, free: set<nat>, frames: nat)
    requires Tree(m, root, s) && IsTable(s, t) && IsIndex(i) && Decode(Level(s, t), Entry(m, t, i)).Child?
    ensures IsTable(s, Decode(Level(s, t), Entry(m, t, i)).table) &&
            Level(s, Decode(Level(s, t), Entry(m, t, i)).table) == Level(s, t) - 1
    ensures Grows(s, s, free, free, frames) && LinksKept(m, m, s) && SmallKept(m, m, root) && OnlyNew(s, s, t)
    ensures OnlyNew(s, s, Decode(Level(s, t), Entry(m, t, i)).table)
  {
    hide Decode, Entry, IsIndex, FrameWord;
    assert Down(m, s, t, i);
  }

  lemma TableSlot(m: Memory, root: Word, s: Shape, t: Word, i: Word)
    requires Tree(m, root, s) && IsTable(s, t) && IsIndex(i)
    ensures At(Slot(t, i)) in m
  {
    hide Slot, IsIndex;
    assert PageIn(m, t);
  }

  lemma LinkStays(m: Memory, m': Memory, s: Shape, t: Word, v: Word, level: nat)
    requires LinksKept(m, m', s) && IsTable(s, t) && Level(s, t) == level && 1 <= level <= 4 &&
             Next(m, t, v, level).Child?
    ensures Next(m', t, v, level) == Next(m, t, v, level)
  {
    hide Decode, Entry, Index, IsIndex;
    assert Entry(m', t, Index(v, level)) == Entry(m, t, Index(v, level));
  }

  /** One level of the walk of `v`, on a path without large pages. */
  lemma StepDown(m: Memory, root: Word, s: Shape, t: Word, v: Word, level: nat)
    requires Tree(m, root, s) && IsTable(s, t) && Level(s, t) == level && 1 < level <= 4 && Small(m, t, v, level)
    ensures var e := Entry(m, t, Index(v, level));
            if Present(e)
            then Next(m, t, v, level) == Child(Addr(e)) && IsTable(s, Addr(e)) && Level(s, Addr(e)) == level - 1
                 && Small(m, Addr(e), v, level - 1) && Walk(m, t, v, level) == Walk(m, Addr(e), v, level - 1)
            else Walk(m, t, v, level) == None
  {
    hide Tree, Decode, Entry, Index, Present, Addr;
    PresentDecodes(level, Entry(m, t, Index(v, level)));
    SmallNext(m, t, v, level);
    ChildTable(m, root, s, t, v, level);
  }
}
