/** 64-bit words as page-table entries and virtual addresses: the bit fields that
    kernel/arch/x86_64/mm/vmm.c reads and writes.  All bit arithmetic of the page-table
    model is in this module. */
module Entries {

  type Word = bv64

  /** Bits 12-51 of a page-table entry. */
  const PHYS_ADDR_MASK: Word := 0x000F_FFFF_FFFF_F000

  const PAGE_WRITE: Word := 2
  const PAGE_USER: Word := 4
  const PAGE_GLOBAL: Word := 0x100
  const PAGE_NX: Word := 0x8000_0000_0000_0000

  /** What the kernel writes beside the address into an entry that links a table. */
  const TABLE_FLAGS: Word := PAGE_WRITE | 1

  // ----- Virtual addresses -----

  predicate IsIndex(i: Word) { i < 512 }

  /** The 9 bits of `v` that index a table of the given level (PT is level 1). */
  function Index(v: Word, level: nat): (i: Word)
    requires 1 <= level <= 4
    ensures IsIndex(i)
  {
    match level
    case 1 => (v >> 12) & 0x1FF
    case 2 => (v >> 21) & 0x1FF
    case 3 => (v >> 30) & 0x1FF
    case _ => (v >> 39) & 0x1FF
  }

  predicate IsPage(k: Word) { k <= 0xF_FFFF_FFFF }

  /** The virtual page number: bits 12-47. */
  function Page(v: Word): (k: Word)
    ensures IsPage(k)
  {
    (v >> 12) & 0xF_FFFF_FFFF
  }

  /** The lowest address of virtual page `k`. */
  function PageStart(k: Word): Word { k << 12 }

  // ----- Entries -----

  /** A page-aligned physical address of at most 52 bits. */
  predicate Aligned(t: Word) { t & PHYS_ADDR_MASK == t }

  predicate Present(e: Word) { e & 1 != 0 }

  predicate Huge(e: Word) { e & 0x80 != 0 }

  function Addr(e: Word): Word { e & PHYS_ADDR_MASK }

  /** An entry of a table of the given level: not present, the address of a table one level
      down, or a mapping of memory (PAGE_HUGE is not tested in the PML4). */
  datatype Meaning = Absent | Child(table: Word) | Leaf

  function Decode(level: nat, e: Word): (r: Meaning)
    ensures r.Child? ==> level > 1
  {
    if !Present(e) then Absent
    else if level > 1 && (level == 4 || e & 0x80 == 0) then Child(Addr(e))
    else Leaf
  }

  function Or(a: Word, b: Word): Word { a | b }

  /** The bits of an entry outside the address field. */
  function Attributes(e: Word): Word { e & !PHYS_ADDR_MASK }

  // Bits 12-29 and 12-20 of an address: the page within a 1 GiB or 2 MiB page.

  function Middle30(v: Word): Word { v & 0x3FFF_F000 }

  function Middle21(v: Word): Word { v & 0x1F_F000 }

  /** The 4 KiB page a leaf entry gives to `v`: inside a 1 GiB, 2 MiB or 4 KiB page. */
  function LeafBase(level: nat, e: Word, v: Word): Word {
    match level
    case 3 => Or(e & !0x3FFF_FFFF, Middle30(v))
    case 2 => Or(e & !0x1F_FFFF, Middle21(v))
    case _ => Addr(e)
  }

  /** What a page is mapped to: where it starts, and the flags of its entry. */
  datatype Mapping = Mapping(base: Word, flags: Word)

  function LeafTo(level: nat, e: Word, v: Word): Mapping {
    Mapping(LeafBase(level, e, v), Attributes(e))
  }

  /** The address of `v` inside the page that a leaf entry of the given level maps. */
  function Inside(level: nat, e: Word, v: Word): Word {
    match level
    case 3 => Or(e & !0x3FFF_FFFF, v & 0x3FFF_FFFF)
    case 2 => Or(e & !0x1F_FFFF, v & 0x1F_FFFF)
    case _ => WithOffset(Addr(e), v)
  }

  function WithOffset(base: Word, v: Word): Word { Or(base, v & 0xFFF) }

  /** The entry that links table `c`, as `get_or_create_table` writes it. */
  function LinkTo(c: Word, flags: Word): Word { c | flags | 1 }

  /** The level-1 entry that `vmm_map` writes. */
  function MapTo(phys: Word, flags: Word): Word { (phys & PHYS_ADDR_MASK) | flags | 1 }

  /** Flags that leave the address and the large-page bit alone. */
  predicate PlainFlags(flags: Word) { flags & (PHYS_ADDR_MASK | 0x80) == 0 }

  // ----- Addresses of entries -----

  function PageOf(a: Word): Word { a & !0xFFF }

  /** The address of entry `i` of the table in page `t`. */
  function Slot(t: Word, i: Word): Word { t + (i << 3) }

  // ----- Facts -----

  lemma SlotPage(p: Word, i: Word)
    requires Aligned(p) && IsIndex(i)
    ensures PageOf(Slot(p, i)) == p
  {
  }

  /** Different entries of page-aligned tables are different words. */
  lemma SlotInjective(p: Word, i: Word, q: Word, j: Word)
    requires Aligned(p) && Aligned(q) && IsIndex(i) && IsIndex(j)
    requires Slot(p, i) == Slot(q, j)
    ensures p == q && i == j
  {
  }

  lemma PageFromIndices(v: Word, v': Word)
    requires Index(v, 1) == Index(v', 1) && Index(v, 2) == Index(v', 2) && Index(v, 3) == Index(v', 3) &&
             Index(v, 4) == Index(v', 4)
    ensures Page(v) == Page(v')
  {
  }

  /** The same 2 MiB region. */
  predicate SameRegion(u: Word, v: Word) {
    Index(u, 2) == Index(v, 2) && Index(u, 3) == Index(v, 3) && Index(u, 4) == Index(v, 4)
  }

  lemma PageInRegion(u: Word, v: Word)
    requires Page(u) == Page(v)
    ensures SameRegion(u, v) && Index(u, 1) == Index(v, 1)
  {
    hide Page, Index, PageStart;
    IndexOfPage(u);
    IndexOfPage(v);
  }

  lemma IndexOfPage(v: Word)
    ensures Index(PageStart(Page(v)), 1) == Index(v, 1) && Index(PageStart(Page(v)), 2) == Index(v, 2)
    ensures Index(PageStart(Page(v)), 3) == Index(v, 3) && Index(PageStart(Page(v)), 4) == Index(v, 4)
  {
  }

  lemma MiddleOfPage(v: Word)
    ensures Middle30(PageStart(Page(v))) == Middle30(v)
    ensures Middle21(PageStart(Page(v))) == Middle21(v)
  {
  }

  lemma LeafOfPage(level: nat, e: Word, v: Word)
    ensures LeafTo(level, e, PageStart(Page(v))) == LeafTo(level, e, v)
  {
    hide Attributes, Or, Middle30, Middle21, PageStart, Page, Addr;
    MiddleOfPage(v);
  }

  lemma PageOfStart(k: Word)
    requires IsPage(k)
    ensures Page(PageStart(k)) == k
  {
  }

  lemma PresentDecodes(level: nat, e: Word)
    ensures Decode(level, e) == Absent <==> !Present(e)
    ensures Decode(level, e).Child? ==> Decode(level, e).table == Addr(e)
  {
  }

  lemma HugeDecodes(level: nat, e: Word)
    requires 1 <= level <= 4
    ensures Decode(level, e) ==
            if !Present(e) then Absent
            else if level == 4 || (level > 1 && !Huge(e)) then Child(Addr(e))
            else Leaf
  {
  }

  lemma LinkToDecodes(level: nat, c: Word, flags: Word)
    requires 1 < level <= 4 && Aligned(c) && PlainFlags(flags)
    ensures Decode(level, LinkTo(c, flags)) == Child(c) && Attributes(LinkTo(c, flags)) == flags | 1
  {
  }

  lemma MapToDecodes(phys: Word, flags: Word)
    ensures Decode(1, MapTo(phys, flags)) == Leaf
    ensures Addr(MapTo(phys, flags)) == (phys | flags) & PHYS_ADDR_MASK
    ensures Attributes(MapTo(phys, flags)) == (flags | 1) & !PHYS_ADDR_MASK
  {
  }

  /** Flags that leave the address alone. */
  predicate NoAddress(flags: Word) { flags & PHYS_ADDR_MASK == 0 }

  lemma PlainTarget(phys: Word, flags: Word)
    requires Aligned(phys) && NoAddress(flags)
    ensures (phys | flags) & PHYS_ADDR_MASK == phys
  {
  }

  /** The entry that `vmm_map` writes holds the frame of `phys` exactly when the flags add no
      address bit to it. */
  lemma FrameExact(phys: Word, flags: Word)
    ensures (phys | flags) & PHYS_ADDR_MASK == phys & PHYS_ADDR_MASK <==> flags & PHYS_ADDR_MASK & !phys == 0
    ensures NoAddress(flags) ==> (phys | flags) & PHYS_ADDR_MASK == phys & PHYS_ADDR_MASK
  {
    AddsNothing(phys, flags, PHYS_ADDR_MASK);
    if NoAddress(flags) {
      NoAddressBits(phys, flags);
    }
  }

  lemma AddsNothing(p: Word, f: Word, m: Word)
    ensures (p | f) & m == p & m <==> f & m & !p == 0
  {
    NewBits(p, f, m);
    Disjoint(p, f, m);
    OrDisjoint(p & m, f & m & !p);
  }

  lemma NewBits(p: Word, f: Word, m: Word)
    ensures (p | f) & m == (p & m) | (f & m & !p)
  {
  }

  lemma Disjoint(p: Word, f: Word, m: Word)
    ensures (p & m) & (f & m & !p) == 0
  {
  }

  lemma OrDisjoint(x: Word, y: Word)
    requires x & y == 0
    ensures x | y == x <==> y == 0
  {
    Absorb(x, y);
    if y == 0 {
      OrZero(x);
    }
  }

  lemma Absorb(x: Word, y: Word)
    ensures (x | y) & y == y
  {
  }

  lemma OrZero(x: Word)
    ensures x | 0 == x
  {
  }

  lemma NoAddressBits(phys: Word, flags: Word)
    requires NoAddress(flags)
    ensures (phys | flags) & PHYS_ADDR_MASK == phys & PHYS_ADDR_MASK
  {
    assert (phys | flags) & PHYS_ADDR_MASK == (phys & PHYS_ADDR_MASK) | (flags & PHYS_ADDR_MASK);
  }

  lemma TableFlags()
    ensures PlainFlags(PAGE_WRITE | 1)
  {
  }

  lemma ZeroDecodes(level: nat)
    ensures Decode(level, 0) == Absent
  {
  }

  // What `vmm_get_phys` returns for a leaf is its page with the offset of `v`.

  lemma OffsetBits(v: Word)
    ensures Or(Middle30(v), v & 0xFFF) == v & 0x3FFF_FFFF
    ensures Or(Middle21(v), v & 0xFFF) == v & 0x1F_FFFF
  {
  }

  lemma OrAssociative(a: Word, b: Word, c: Word)
    ensures Or(Or(a, b), c) == Or(a, Or(b, c))
  {
  }

  lemma LeafInside(level: nat, e: Word, v: Word)
    ensures WithOffset(LeafBase(level, e, v), v) == Inside(level, e, v)
  {
    hide Or, Middle30, Middle21, Addr;
    OffsetBits(v);
    OrAssociative(e & !0x3FFF_FFFF, Middle30(v), v & 0xFFF);
    OrAssociative(e & !0x1F_FFFF, Middle21(v), v & 0xFFF);
  }

  // ----- Words put together from the fields of an address -----

  predicate Fits9(i: Word) { i & 0x1FF == i }

  predicate Fits12(i: Word) { i & 0xFFF == i }

  predicate Fits16(i: Word) { i & 0xFFFF == i }

  /** Sign bits, the four table indices, and the offset. */
  function Compose(s: Word, i4: Word, i3: Word, i2: Word, i1: Word, o: Word): Word {
    (s << 48) | (i4 << 39) | (i3 << 30) | (i2 << 21) | (i1 << 12) | o
  }

  lemma ComposeIndex(s: Word, i4: Word, i3: Word, i2: Word, i1: Word, o: Word)
    requires Fits16(s) && Fits9(i4) && Fits9(i3) && Fits9(i2) && Fits9(i1) && Fits12(o)
    ensures Index(Compose(s, i4, i3, i2, i1, o), 1) == i1
    ensures Index(Compose(s, i4, i3, i2, i1, o), 2) == i2
    ensures Index(Compose(s, i4, i3, i2, i1, o), 3) == i3
    ensures Index(Compose(s, i4, i3, i2, i1, o), 4) == i4
  {
  }

  lemma ComposeInjective(s: Word, i4: Word, i3: Word, i2: Word, i1: Word, o: Word,
                         t: Word, j4: Word, j3: Word, j2: Word, j1: Word, p: Word)
    requires Fits16(s) && Fits9(i4) && Fits9(i3) && Fits9(i2) && Fits9(i1) && Fits12(o)
    requires Fits16(t) && Fits9(j4) && Fits9(j3) && Fits9(j2) && Fits9(j1) && Fits12(p)
    requires Compose(s, i4, i3, i2, i1, o) == Compose(t, j4, j3, j2, j1, p)
    ensures s == t && i4 == j4 && i3 == j3 && i2 == j2 && i1 == j1 && o == p
  {
  }

  lemma ComposeAligned(s: Word, i4: Word, i3: Word, i2: Word, i1: Word)
    requires s & 0xF == s && Fits9(i4) && Fits9(i3) && Fits9(i2) && Fits9(i1)
    ensures Aligned(Compose(s, i4, i3, i2, i1, 0))
  {
  }

  /** The entry for a 2 MiB page, as `vmm_init` writes it. */
  function HugeTo(phys: Word): Word { phys | 0x183 }

  lemma HugeDecodesLeaf(phys: Word)
    ensures Decode(2, HugeTo(phys)) == Leaf
    ensures Aligned(phys) ==> Attributes(HugeTo(phys)) == 0x183
  {
  }

  lemma ComposeHuge(s: Word, i4: Word, i3: Word, i2: Word, t: Word, j4: Word, j3: Word, j2: Word, i1: Word, o: Word)
    requires Fits16(s) && Fits9(i4) && Fits9(i3) && Fits9(i2)
    requires Fits16(t) && Fits9(j4) && Fits9(j3) && Fits9(j2) && Fits9(i1) && Fits12(o)
    ensures Inside(2, HugeTo(Compose(s, i4, i3, i2, 0, 0)), Compose(t, j4, j3, j2, i1, o)) ==
            Compose(s, i4, i3, i2, i1, o)
  {
  }

  lemma ComposeOffset(s: Word, i4: Word, i3: Word, i2: Word, i1: Word, t: Word, j4: Word, j3: Word, j2: Word, j1: Word,
                      o: Word)
    requires Fits12(o)
    ensures WithOffset(Compose(s, i4, i3, i2, i1, 0), Compose(t, j4, j3, j2, j1, o)) == Compose(s, i4, i3, i2, i1, o)
  {
  }

  lemma ZeroCompose()
    ensures Compose(0, 0, 0, 0, 0, 0) == 0
  {
  }
}
