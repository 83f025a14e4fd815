/** The four-level page tables of kernel/arch/x86_64/mm/vmm.c as a structure in physical
    memory: the walk, the flat map it computes, the tree invariant, and the effect of the
    three kinds of entry the kernel writes. */
module PageTables {
  import opened Common
  import opened Entries
  import opened Words

  function Entry(m: Memory, t: Word, i: Word): Word {
    if At(Slot(t, i)) in m then m[At(Slot(t, i))] else 0
  }

  /** What the entry for `v` in table `t` means. */
  function Next(m: Memory, t: Word, v: Word, level: nat): (r: Meaning)
    requires 1 <= level <= 4
    ensures r.Child? ==> level > 1
  {
    Decode(level, Entry(m, t, Index(v, level)))
  }

  // ----- The walk -----

  /** What the page of `v` is mapped to, as the walk from table `t` finds it. */
  function Walk(m: Memory, t: Word, v: Word, level: nat): Option<Mapping>
    requires 1 <= level <= 4
    decreases level
  {
    WalkEntry(m, Entry(m, t, Index(v, level)), v, level)
  }

  function WalkEntry(m: Memory, e: Word, v: Word, level: nat): Option<Mapping>
    requires 1 <= level <= 4
    decreases level, 0
  {
    match Decode(level, e)
    case Absent => None
    case Child(c) => Walk(m, c, v, level - 1)
    case Leaf => Some(LeafTo(level, e, v))
  }

  datatype VPage = VPage(num: Word)

  /** What virtual page `k` is mapped to. */
  function Lookup(m: Memory, root: Word, k: Word): Option<Mapping> {
    if IsPage(k) then Walk(m, root, PageStart(k), 4) else None
  }

  /** The flat map from virtual page numbers to pages and flags. */
  ghost function Flat(m: Memory, root: Word): imap<VPage, Mapping> {
    imap k: VPage | Lookup(m, root, k.num).Some? :: Lookup(m, root, k.num).value
  }

  /** No entry on the path of `v` above the page table is a large page. */
  predicate Small(m: Memory, t: Word, v: Word, level: nat)
    requires 1 <= level <= 4
    decreases level
  {
    SmallEntry(m, Entry(m, t, Index(v, level)), v, level)
  }

  predicate SmallEntry(m: Memory, e: Word, v: Word, level: nat)
    requires 1 <= level <= 4
    decreases level, 0
  {
    level == 1 ||
    match Decode(level, e)
    case Absent => true
    case Child(c) => Small(m, c, v, level - 1)
    case Leaf => false
  }

  // ----- The tree -----

  /** Ghost description of the tree: the level of each table, and where its parent links it. */
  datatype Shape = Shape(level: map<Loc, nat>, up: map<Loc, (Word, Word)>)

  predicate IsTable(s: Shape, t: Word) { At(t) in s.level }

  function Level(s: Shape, t: Word): nat
    requires IsTable(s, t)
  {
    s.level[At(t)]
  }

  /** The shape with a new table `c` below entry `j` of `w`. */
  function Attach(s: Shape, w: Word, j: Word, c: Word): Shape
    requires IsTable(s, w) && Level(s, w) > 0
  {
    Shape(s.level[At(c) := Level(s, w) - 1], s.up[At(c) := (w, j)])
  }

  ghost predicate Tables(m: Memory, root: Word, s: Shape) {
    && IsTable(s, root) && s.up.Keys == s.level.Keys - {At(root)}
    && (forall t: Word :: IsTable(s, t) ==> 1 <= Level(s, t) <= 4 && (Level(s, t) == 4 <==> t == root))
    && (forall t: Word :: IsTable(s, t) ==> Aligned(t) && PageIn(m, t))
  }

  /** Every link leads to the one child that names it as its parent, and takes no right away but
      that of user mode. */
  ghost predicate Down(m: Memory, s: Shape, t: Word, i: Word)
    requires IsTable(s, t)
  {
    match Decode(Level(s, t), Entry(m, t, i))
    case Child(c) =>
      && IsTable(s, c) && At(c) in s.up && Level(s, c) == Level(s, t) - 1 && s.up[At(c)] == (t, i)
      && Attributes(Entry(m, t, i)) == TABLE_FLAGS
    case _ => true
  }

  /** Every table but the root is linked by its parent. */
  ghost predicate Up(m: Memory, s: Shape, t: Word)
    requires IsTable(s, t) && At(t) in s.up
  {
    var (p, i) := s.up[At(t)];
    IsTable(s, p) && IsIndex(i) && Decode(Level(s, p), Entry(m, p, i)) == Child(t)
  }

  /** The tables form a tree: levels go down by one along links, each table other than the
      root has exactly one parent entry, and no table is shared. */
  ghost predicate Tree(m: Memory, root: Word, s: Shape) {
    && Tables(m, root, s)
    && (forall t: Word, i: Word :: IsTable(s, t) && IsIndex(i) ==> Down(m, s, t, i))
    && (forall t: Word :: At(t) in s.up && IsTable(s, t) ==> Up(m, s, t))
  }

  /** No table is shared: two entries that link the same table are the same entry. */
  lemma NoSharing(m: Memory, root: Word, s: Shape, t: Word, i: Word, t': Word, i': Word)
    requires Tree(m, root, s) && IsTable(s, t) && IsTable(s, t') && IsIndex(i) && IsIndex(i')
    requires Decode(Level(s, t), Entry(m, t, i)).Child? &&
             Decode(Level(s, t), Entry(m, t, i)) == Decode(Level(s, t'), Entry(m, t', i'))
    ensures t == t' && i == i'
  {
    hide Decode, IsIndex, Entry;
    assert Down(m, s, t, i) && Down(m, s, t', i');
  }

  lemma ChildTable(m: Memory, root: Word, s: Shape, t: Word, v: Word, level: nat)
    requires Tree(m, root, s) && IsTable(s, t) && Level(s, t) == level
    ensures 1 <= level <= 4
    ensures Next(m, t, v, level).Child? ==>
              var c := Next(m, t, v, level).table;
              IsTable(s, c) && At(c) in s.up && Level(s, c) == level - 1 && s.up[At(c)] == (t, Index(v, level))
  {
    hide Decode, IsIndex, Entry, Index;
    assert Down(m, s, t, Index(v, level));
  }

  lemma RootTable(m: Memory, root: Word, s: Shape)
    requires Tree(m, root, s)
    ensures IsTable(s, root) && Level(s, root) == 4
  {
  }

  lemma TableIn(m: Memory, root: Word, s: Shape, t: Word)
    requires Tree(m, root, s) && IsTable(s, t)
    ensures Aligned(t) && PageIn(m, t) && 1 <= Level(s, t) <= 4
  {
    hide Aligned, PageIn;
  }

  // ----- Which virtual addresses pass through an entry -----

  predicate Reaches(m: Memory, t: Word, v: Word, level: nat, w: Word, i: Word)
    requires 1 <= level <= 4
    decreases level
  {
    || (t == w && Index(v, level) == i)
    || (Next(m, t, v, level).Child? && Reaches(m, Next(m, t, v, level).table, v, level - 1, w, i))
  }

  lemma {:induction false} ReachLevel(m: Memory, root: Word, s: Shape, t: Word, v: Word, level: nat, w: Word, i: Word)
    requires Tree(m, root, s) && IsTable(s, t) && Level(s, t) == level && IsTable(s, w)
    requires 1 <= level <= 4 && Reaches(m, t, v, level, w, i)
    ensures Level(s, w) <= level
    ensures Level(s, w) == level ==> t == w && Index(v, level) == i
    decreases level
  {
    hide Tree, Next, Index;
    if !(t == w && Index(v, level) == i) {
      ChildTable(m, root, s, t, v, level);
      ReachLevel(m, root, s, Next(m, t, v, level).table, v, level - 1, w, i);
    }
  }

  lemma ReachStep(m: Memory, t: Word, v: Word, level: nat, w: Word, i: Word)
    requires 1 <= level <= 4 && Reaches(m, t, v, level, w, i) && t != w
    ensures Next(m, t, v, level).Child? && Reaches(m, Next(m, t, v, level).table, v, level - 1, w, i)
  {
  }

  ghost predicate AgreeFrom(v: Word, v': Word, lo: nat, hi: nat)
    requires 1 <= lo && hi <= 4
  {
    forall k :: lo <= k <= hi ==> Index(v, k) == Index(v', k)
  }

  /** In a tree, two addresses that pass through the same entry of table `w` agree in all
      indices from the level of `w` up. */
  lemma {:induction false} ReachUnique(m: Memory, root: Word, s: Shape, t: Word, v: Word, t': Word, v': Word,
                                       level: nat, w: Word, i: Word)
    requires Tree(m, root, s) && IsTable(s, t) && IsTable(s, t') && Level(s, t) == Level(s, t') == level &&
             IsTable(s, w)
    requires 1 <= level <= 4 && Reaches(m, t, v, level, w, i) && Reaches(m, t', v', level, w, i)
    ensures 1 <= Level(s, w) <= level && t == t' && AgreeFrom(v, v', Level(s, w), level)
    decreases level
  {
    hide Tree, Next, Index, Reaches;
    TableIn(m, root, s, w);
    ReachLevel(m, root, s, t, v, level, w, i);
    ReachLevel(m, root, s, t', v', level, w, i);
    if level > Level(s, w) {
      ReachStep(m, t, v, level, w, i);
      ReachStep(m, t', v', level, w, i);
      ChildTable(m, root, s, t, v, level);
      ChildTable(m, root, s, t', v', level);
      ReachUnique(m, root, s, Next(m, t, v, level).table, v, Next(m, t', v', level).table, v', level - 1, w, i);
    }
  }

  // ----- The walk depends on the page number only -----

  lemma {:induction false} WalkPage(m: Memory, t: Word, v: Word, level: nat)
    requires 1 <= level <= 4
    ensures Walk(m, t, PageStart(Page(v)), level) == Walk(m, t, v, level)
    decreases level
  {
    hide Decode, Index, LeafTo, Page, PageStart, Entry;
    IndexOfPage(v);
    var e := Entry(m, t, Index(v, level));
    assert Index(PageStart(Page(v)), level) == Index(v, level);
    match Decode(level, e)
    case Absent =>
    case Child(c) =>
      WalkPage(m, c, v, level - 1);
    case Leaf =>
      LeafOfPage(level, e, v);
  }

  lemma {:induction false} ReachesPage(m: Memory, t: Word, v: Word, level: nat, w: Word, i: Word)
    requires 1 <= level <= 4
    ensures Reaches(m, t, PageStart(Page(v)), level, w, i) == Reaches(m, t, v, level, w, i)
    decreases level
  {
    hide Decode, Index, Page, PageStart, Entry;
    IndexOfPage(v);
    assert Index(PageStart(Page(v)), level) == Index(v, level);
    if Next(m, t, v, level).Child? {
      ReachesPage(m, Next(m, t, v, level).table, v, level - 1, w, i);
    }
  }

  // ----- Changes outside the tables -----

  ghost predicate SameTables(m: Memory, m': Memory, s: Shape) {
    && (forall t: Word :: IsTable(s, t) ==> PageIn(m', t))
    && (forall t: Word, i: Word :: IsTable(s, t) && IsIndex(i) ==> Entry(m', t, i) == Entry(m, t, i))
  }

  lemma {:induction false} WalkSame(m: Memory, m': Memory, root: Word, s: Shape, t: Word, v: Word, level: nat)
    requires Tree(m, root, s) && SameTables(m, m', s) && IsTable(s, t) && Level(s, t) == level && 1 <= level <= 4
    ensures Walk(m', t, v, level) == Walk(m, t, v, level)
    ensures Small(m', t, v, level) == Small(m, t, v, level)
    decreases level
  {
    hide Tree, Decode, Index, LeafTo, Entry, IsIndex;
    ChildTable(m, root, s, t, v, level);
    assert Entry(m', t, Index(v, level)) == Entry(m, t, Index(v, level));
    if Next(m, t, v, level).Child? {
      WalkSame(m, m', root, s, Next(m, t, v, level).table, v, level - 1);
    }
  }

  lemma TreeSame(m: Memory, m': Memory, root: Word, s: Shape)
    requires Tree(m, root, s) && SameTables(m, m', s)
    ensures Tree(m', root, s)
  {
    hide Decode, Entry, IsIndex, Aligned, PageIn;
    forall t: Word, i: Word | IsTable(s, t) && IsIndex(i)
      ensures Down(m', s, t, i)
    {
      assert Down(m, s, t, i);
    }
    forall t: Word | At(t) in s.up && IsTable(s, t)
      ensures Up(m', s, t)
    {
      assert Up(m, s, t);
    }
  }

  lemma FlatSame(m: Memory, m': Memory, root: Word, s: Shape)
    requires Tree(m, root, s) && SameTables(m, m', s)
    ensures Flat(m', root) == Flat(m, root)
  {
    hide Tree, Walk, IsPage, PageStart, SameTables;
    RootTable(m, root, s);
    forall k: Word
      ensures Lookup(m', root, k) == Lookup(m, root, k)
    {
      WalkSame(m, m', root, s, root, PageStart(k), 4);
    }
  }

  /** Zeroing a page that is no table leaves the tables alone. */
  lemma ZeroSame(m: Memory, root: Word, s: Shape, c: Word)
    requires Tree(m, root, s) && !IsTable(s, c)
    ensures SameTables(m, ZeroPage(m, c), s)
  {
    hide Tree, Slot, PageOf, Aligned;
    forall t: Word | IsTable(s, t)
      ensures PageIn(ZeroPage(m, c), t)
    {
      TableIn(m, root, s, t);
    }
    forall t: Word, i: Word | IsTable(s, t) && IsIndex(i)
      ensures Entry(ZeroPage(m, c), t, i) == Entry(m, t, i)
    {
      TableIn(m, root, s, t);
      SlotPage(t, i);
    }
  }

  lemma ZeroedPage(m: Memory, c: Word, i: Word)
    requires Aligned(c) && IsIndex(i)
    ensures Entry(ZeroPage(m, c), c, i) == 0
  {
    hide Slot, PageOf, Aligned;
    SlotPage(c, i);
  }

  // ----- Writing one entry of a table -----

  function Store(m: Memory, w: Word, j: Word, e: Word): Memory {
    m[At(Slot(w, j)) := e]
  }

  lemma EntryStore(m: Memory, w: Word, j: Word, e: Word, t: Word, i: Word)
    requires Aligned(w) && Aligned(t) && IsIndex(i) && IsIndex(j)
    ensures Entry(Store(m, w, j, e), t, i) == if t == w && i == j then e else Entry(m, t, i)
  {
    hide Slot, Aligned, IsIndex;
    if Slot(t, i) == Slot(w, j) {
      SlotInjective(t, i, w, j);
    }
  }

  /** Addresses that do not pass through the written entry keep their translation. */
  lemma {:induction false} WalkMiss(m: Memory, root: Word, s: Shape, w: Word, j: Word, e: Word, t: Word, v: Word,
                                    level: nat)
    requires Tree(m, root, s) && IsTable(s, t) && Level(s, t) == level && IsTable(s, w) && IsIndex(j)
    requires 1 <= level <= 4 && !Reaches(m, t, v, level, w, j)
    ensures Walk(Store(m, w, j, e), t, v, level) == Walk(m, t, v, level)
    ensures Small(Store(m, w, j, e), t, v, level) == Small(m, t, v, level)
    decreases level
  {
    hide Tree, Decode, Index, LeafTo, Entry, IsIndex, Store;
    TableIn(m, root, s, t);
    TableIn(m, root, s, w);
    EntryStore(m, w, j, e, t, Index(v, level));
    ChildTable(m, root, s, t, v, level);
    if Next(m, t, v, level).Child? {
      WalkMiss(m, root, s, w, j, e, Next(m, t, v, level).table, v, level - 1);
    }
  }

  /** Addresses that pass through the written entry are translated by it. */
  lemma {:induction false} WalkHit(m: Memory, root: Word, s: Shape, w: Word, j: Word, e: Word, t: Word, v: Word,
                                   level: nat)
    requires Tree(m, root, s) && IsTable(s, t) && Level(s, t) == level && IsTable(s, w) && IsIndex(j)
    requires 1 <= level <= 4 && Reaches(m, t, v, level, w, j)
    ensures 1 <= Level(s, w) <= 4
    ensures Walk(Store(m, w, j, e), t, v, level) == WalkEntry(Store(m, w, j, e), e, v, Level(s, w))
    ensures Small(Store(m, w, j, e), t, v, level) == SmallEntry(Store(m, w, j, e), e, v, Level(s, w))
    ensures Walk(m, t, v, level) == WalkEntry(m, Entry(m, w, j), v, Level(s, w))
    decreases level
  {
    hide Tree, Decode, Index, LeafTo, Entry, IsIndex, Store;
    TableIn(m, root, s, t);
    TableIn(m, root, s, w);
    EntryStore(m, w, j, e, t, Index(v, level));
    ReachLevel(m, root, s, t, v, level, w, j);
    if !(t == w && Index(v, level) == j) {
      ChildTable(m, root, s, t, v, level);
      WalkHit(m, root, s, w, j, e, Next(m, t, v, level).table, v, level - 1);
    }
  }

  /** A leaf written where there was no link keeps the tree. */
  lemma TreeLeaf(m: Memory, root: Word, s: Shape, w: Word, j: Word, e: Word)
    requires Tree(m, root, s) && IsTable(s, w) && IsIndex(j)
    requires !Decode(Level(s, w), Entry(m, w, j)).Child? && !Decode(Level(s, w), e).Child?
    ensures Tree(Store(m, w, j, e), root, s)
  {
    hide Decode, Entry, IsIndex, Aligned;
    var m' := Store(m, w, j, e);
    forall t: Word, i: Word | IsTable(s, t) && IsIndex(i)
      ensures Down(m', s, t, i)
    {
      assert Down(m, s, t, i);
      EntryStore(m, w, j, e, t, i);
    }
    forall t: Word | At(t) in s.up && IsTable(s, t)
      ensures Up(m', s, t)
    {
      assert Up(m, s, t);
      EntryStore(m, w, j, e, s.up[At(t)].0, s.up[At(t)].1);
    }
  }

  /** A page that can become a table: not a table yet, and zeroed. */
  ghost predicate Blank(m: Memory, s: Shape, c: Word) {
    !IsTable(s, c) && Aligned(c) && PageIn(m, c) && forall i: Word :: IsIndex(i) ==> Entry(m, c, i) == 0
  }

  /** Attaching `c` keeps what `Down` says about the entries that stay as they are. */
  lemma AttachDown(m: Memory, m': Memory, s: Shape, w: Word, j: Word, c: Word, t: Word, i: Word)
    requires IsTable(s, w) && Level(s, w) > 1 && !IsTable(s, c) && IsTable(s, t)
    requires Down(m, s, t, i) && Entry(m', t, i) == Entry(m, t, i)
    ensures IsTable(Attach(s, w, j, c), t) && Down(m', Attach(s, w, j, c), t, i)
  {
    hide Decode, Entry;
    assert Level(Attach(s, w, j, c), t) == Level(s, t);
  }

  lemma LinkDown(m: Memory, root: Word, s: Shape, w: Word, j: Word, e: Word, c: Word, t: Word, i: Word)
    requires Tree(m, root, s) && IsTable(s, w) && Level(s, w) > 1 && IsIndex(j) && IsIndex(i)
    requires !IsTable(s, c) && Aligned(c) && Entry(m, c, i) == 0
    requires Decode(Level(s, w), e) == Child(c) && Attributes(e) == TABLE_FLAGS
    requires IsTable(Attach(s, w, j, c), t)
    ensures Down(Store(m, w, j, e), Attach(s, w, j, c), t, i)
  {
    hide Tree, Decode, Entry, IsIndex, Aligned, Store, PageIn;
    TableIn(m, root, s, w);
    if t == c {
      EntryStore(m, w, j, e, c, i);
      ZeroDecodes(Level(s, w) - 1);
    } else if t == w && i == j {
      EntryStore(m, w, j, e, t, i);
    } else {
      TableIn(m, root, s, t);
      EntryStore(m, w, j, e, t, i);
      DownAt(m, root, s, t, i);
      AttachDown(m, Store(m, w, j, e), s, w, j, c, t, i);
    }
  }

  lemma DownAt(m: Memory, root: Word, s: Shape, t: Word, i: Word)
    requires Tree(m, root, s) && IsTable(s, t) && IsIndex(i)
    ensures Down(m, s, t, i)
  {
  }

  lemma UpAt(m: Memory, root: Word, s: Shape, t: Word)
    requires Tree(m, root, s) && IsTable(s, t) && At(t) in s.up
    ensures Up(m, s, t)
  {
  }

  lemma LinkUp(m: Memory, root: Word, s: Shape, w: Word, j: Word, e: Word, c: Word, t: Word)
    requires Tree(m, root, s) && IsTable(s, w) && Level(s, w) > 1 && IsIndex(j) && !IsTable(s, c)
    requires Decode(Level(s, w), Entry(m, w, j)) == Absent && Decode(Level(s, w), e) == Child(c)
    requires IsTable(Attach(s, w, j, c), t) && At(t) in Attach(s, w, j, c).up
    ensures Up(Store(m, w, j, e), Attach(s, w, j, c), t)
  {
    hide Tree, Decode, Entry, IsIndex, Aligned, Store, PageIn;
    TableIn(m, root, s, w);
    if t == c {
      EntryStore(m, w, j, e, w, j);
    } else {
      UpAt(m, root, s, t);
      TableIn(m, root, s, s.up[At(t)].0);
      EntryStore(m, w, j, e, s.up[At(t)].0, s.up[At(t)].1);
    }
  }

  lemma LinkTables(m: Memory, root: Word, s: Shape, w: Word, j: Word, e: Word, c: Word)
    requires Tables(m, root, s) && IsTable(s, w) && Level(s, w) > 1
    requires !IsTable(s, c) && Aligned(c) && PageIn(m, c)
    ensures Tables(Store(m, w, j, e), root, Attach(s, w, j, c))
  {
    hide IsIndex, Aligned, Slot;
    var s' := Attach(s, w, j, c);
    forall t: Word | IsTable(s', t)
      ensures 1 <= Level(s', t) <= 4 && (Level(s', t) == 4 <==> t == root) && Aligned(t) && PageIn(Store(m, w, j, e), t)
    {
      assert t == c || IsTable(s, t);
    }
  }

  /** Linking a blank page extends the tree. */
  lemma TreeLink(m: Memory, root: Word, s: Shape, w: Word, j: Word, e: Word, c: Word)
    requires Tree(m, root, s) && Blank(m, s, c) && IsTable(s, w) && Level(s, w) > 1 && IsIndex(j)
    requires Decode(Level(s, w), Entry(m, w, j)) == Absent
    requires Decode(Level(s, w), e) == Child(c) && Attributes(e) == TABLE_FLAGS
    ensures Tree(Store(m, w, j, e), root, Attach(s, w, j, c))
  {
    hide Decode, Entry, IsIndex, Aligned, Down, Up, Tables, Attach, Store, PageIn;
    var m', s' := Store(m, w, j, e), Attach(s, w, j, c);
    LinkTables(m, root, s, w, j, e, c);
    forall t: Word, i: Word | IsTable(s', t) && IsIndex(i)
      ensures Down(m', s', t, i)
    {
      LinkDown(m, root, s, w, j, e, c, t, i);
    }
    forall t: Word | At(t) in s'.up && IsTable(s', t)
      ensures Up(m', s', t)
    {
      LinkUp(m, root, s, w, j, e, c, t);
    }
  }

  /** ... and changes no translation. */
  lemma WalkLink(m: Memory, root: Word, s: Shape, w: Word, j: Word, e: Word, c: Word, v: Word)
    requires Tree(m, root, s) && Blank(m, s, c) && IsTable(s, w) && Level(s, w) > 1 && IsIndex(j)
    requires Decode(Level(s, w), Entry(m, w, j)) == Absent && Decode(Level(s, w), e) == Child(c)
    ensures Walk(Store(m, w, j, e), root, v, 4) == Walk(m, root, v, 4)
    ensures Small(m, root, v, 4) ==> Small(Store(m, w, j, e), root, v, 4)
  {
    hide Tree, Decode, Index, LeafTo, Entry, Reaches, Aligned, IsIndex, Store;
    RootTable(m, root, s);
    TableIn(m, root, s, w);
    if Reaches(m, root, v, 4, w, j) {
      WalkHit(m, root, s, w, j, e, root, v, 4);
      EntryStore(m, w, j, e, c, Index(v, Level(s, w) - 1));
      ZeroDecodes(Level(s, w) - 1);
    } else {
      WalkMiss(m, root, s, w, j, e, root, v, 4);
    }
  }

  // ----- The kinds of write, as changes of the flat map -----

  lemma FlatLink(m: Memory, root: Word, s: Shape, w: Word, j: Word, e: Word, c: Word)
    requires Tree(m, root, s) && Blank(m, s, c) && IsTable(s, w) && Level(s, w) > 1 && IsIndex(j)
    requires Decode(Level(s, w), Entry(m, w, j)) == Absent && Decode(Level(s, w), e) == Child(c)
    ensures Flat(Store(m, w, j, e), root) == Flat(m, root)
  {
    hide Tree, Walk, Small, IsPage, PageStart, Store, Blank, Decode, Entry;
    forall k: Word
      ensures Lookup(Store(m, w, j, e), root, k) == Lookup(m, root, k)
    {
      WalkLink(m, root, s, w, j, e, c, PageStart(k));
    }
  }

  /** `v` and `v'` meet in an entry of a level-1 table only if they are in the same page. */
  lemma SamePage(m: Memory, root: Word, s: Shape, w: Word, j: Word, v: Word, v': Word)
    requires Tree(m, root, s) && IsTable(s, w) && Level(s, w) == 1
    requires Reaches(m, root, v, 4, w, j) && Reaches(m, root, v', 4, w, j)
    ensures Page(v) == Page(v')
  {
    hide Tree, Reaches, Page, Index;
    RootTable(m, root, s);
    ReachUnique(m, root, s, root, v, root, v', 4, w, j);
    PageFromIndices(v, v');
  }

  /** The effect of `e` on page `k`, when `e` is written to the level-1 entry for `v`. */
  lemma LookupPte(m: Memory, root: Word, s: Shape, w: Word, j: Word, e: Word, v: Word, k: Word)
    requires Tree(m, root, s) && IsTable(s, w) && Level(s, w) == 1 && IsIndex(j) && Reaches(m, root, v, 4, w, j)
    ensures Lookup(Store(m, w, j, e), root, k) ==
            if k == Page(v) then WalkEntry(m, e, v, 1) else Lookup(m, root, k)
  {
    hide Tree, Page, IsPage, PageStart, Index, Reaches, Walk, Store, Entry, IsIndex;
    if IsPage(k) {
      var u := PageStart(k);
      PageOfStart(k);
      RootTable(m, root, s);
      if Reaches(m, root, u, 4, w, j) {
        SamePage(m, root, s, w, j, v, u);
        WalkHit(m, root, s, w, j, e, root, u, 4);
      } else {
        WalkMiss(m, root, s, w, j, e, root, u, 4);
        ReachesPage(m, root, v, 4, w, j);
      }
    }
  }

  /** Writing a level-1 entry updates, or removes, exactly one page of the flat map. */
  lemma FlatPte(m: Memory, root: Word, s: Shape, w: Word, j: Word, e: Word, v: Word)
    requires Tree(m, root, s) && IsTable(s, w) && Level(s, w) == 1 && IsIndex(j) && Reaches(m, root, v, 4, w, j)
    ensures Flat(Store(m, w, j, e), root) ==
            if Decode(1, e) == Leaf then Flat(m, root)[VPage(Page(v)) := Mapping(Addr(e), Attributes(e))]
            else Flat(m, root) - {VPage(Page(v))}
  {
    hide Tree, Page, Lookup, Walk, Reaches, Decode, Addr, Store, Attributes;
    forall k: VPage
      ensures Lookup(Store(m, w, j, e), root, k.num) ==
              if k.num == Page(v) then WalkEntry(m, e, v, 1) else Lookup(m, root, k.num)
    {
      LookupPte(m, root, s, w, j, e, v, k.num);
    }
  }

  lemma SmallPte(m: Memory, root: Word, s: Shape, w: Word, j: Word, e: Word, v: Word)
    requires Tree(m, root, s) && IsTable(s, w) && Level(s, w) == 1 && IsIndex(j)
    ensures Small(m, root, v, 4) ==> Small(Store(m, w, j, e), root, v, 4)
  {
    hide Tree, Walk, Reaches, Small, Store, Entry, IsIndex, Decode;
    RootTable(m, root, s);
    if Reaches(m, root, v, 4, w, j) {
      WalkHit(m, root, s, w, j, e, root, v, 4);
    } else {
      WalkMiss(m, root, s, w, j, e, root, v, 4);
    }
  }

  // ----- Mapping a 2 MiB page -----

  lemma {:induction false} ReachesRegion(m: Memory, root: Word, s: Shape, t: Word, u: Word, v: Word, level: nat,
                                         w: Word, i: Word)
    requires Tree(m, root, s) && IsTable(s, t) && Level(s, t) == level && IsTable(s, w) && Level(s, w) == 2
    requires SameRegion(u, v) && 1 <= level <= 4 && Reaches(m, t, v, level, w, i)
    ensures Reaches(m, t, u, level, w, i)
    decreases level
  {
    hide Tree, Decode, Entry, Index;
    ReachLevel(m, root, s, t, v, level, w, i);
    assert Index(u, level) == Index(v, level);
    if !(t == w && Index(v, level) == i) {
      ChildTable(m, root, s, t, v, level);
      ReachesRegion(m, root, s, Next(m, t, v, level).table, u, v, level - 1, w, i);
    }
  }

  /** The effect of a large-page entry `e`, written to the level-2 entry for `v`. */
  lemma WalkPde(m: Memory, root: Word, s: Shape, w: Word, j: Word, e: Word, v: Word, u: Word)
    requires Tree(m, root, s) && IsTable(s, w) && Level(s, w) == 2 && IsIndex(j) && Reaches(m, root, v, 4, w, j)
    requires Decode(2, e) == Leaf
    ensures Walk(Store(m, w, j, e), root, u, 4) ==
            if SameRegion(u, v) then Some(LeafTo(2, e, u)) else Walk(m, root, u, 4)
  {
    hide Tree, Index, Reaches, Walk, Store, Entry, IsIndex, LeafTo, Decode;
    RootTable(m, root, s);
    if Reaches(m, root, u, 4, w, j) {
      ReachUnique(m, root, s, root, u, root, v, 4, w, j);
      WalkHit(m, root, s, w, j, e, root, u, 4);
    } else {
      if SameRegion(u, v) {
        ReachesRegion(m, root, s, root, u, v, 4, w, j);
      }
      WalkMiss(m, root, s, w, j, e, root, u, 4);
    }
  }

  /** A path that ends without a translation has no large page on it. */
  lemma {:induction false} UnmappedSmall(m: Memory, t: Word, v: Word, level: nat)
    requires 1 <= level <= 4 && Walk(m, t, v, level) == None
    ensures Small(m, t, v, level)
    decreases level
  {
    hide Decode, Entry, Index, LeafTo;
    if Next(m, t, v, level).Child? {
      UnmappedSmall(m, Next(m, t, v, level).table, v, level - 1);
    }
  }

  // ----- The rights of a page -----

  datatype Rights = Rights(write: bool, user: bool, execute: bool, global: bool)

  /** What the flags of one entry allow. */
  function Allows(e: Word): Rights {
    Rights(e & PAGE_WRITE != 0, e & PAGE_USER != 0, e & PAGE_NX == 0, e & PAGE_GLOBAL != 0)
  }

  /** What the processor grants for `v`: to write, to use it in user mode and to execute only
      where every entry on the path allows it; a page is global by its last entry. */
  function Access(m: Memory, t: Word, v: Word, level: nat): Option<Rights>
    requires 1 <= level <= 4
    decreases level
  {
    var a := Allows(Entry(m, t, Index(v, level)));
    match Next(m, t, v, level)
    case Absent => None
    case Child(c) =>
      (match Access(m, c, v, level - 1)
       case None => None
       case Some(r) =>
         Some(Rights(a.write && r.write, a.user && r.user, a.execute && r.execute, r.global)))
    case Leaf => Some(a)
  }

  /** Only the flags of an entry matter. */
  lemma AllowsFlags(e: Word)
    ensures Allows(Attributes(e)) == Allows(e)
  {
  }

  /** A link allows everything but use in user mode. */
  lemma LinkAllows(e: Word)
    requires Attributes(e) == TABLE_FLAGS
    ensures Allows(e).write && !Allows(e).user && Allows(e).execute
  {
    AllowsFlags(e);
  }

  /** In the kernel's tree a page is granted what the flags of its own entry allow, except use
      in user mode, which no table above it allows. */
  lemma {:induction false} AccessWalk(m: Memory, root: Word, s: Shape, t: Word, v: Word, level: nat)
    requires Tree(m, root, s) && IsTable(s, t) && Level(s, t) == level && 1 <= level <= 4
    ensures Access(m, t, v, level).Some? <==> Walk(m, t, v, level).Some?
    ensures Walk(m, t, v, level).Some? ==>
              var r, a := Access(m, t, v, level).value, Allows(Walk(m, t, v, level).value.flags);
              r == if Next(m, t, v, level).Child? then a.(user := false) else a
    decreases level
  {
    hide Tree, Decode, Entry, Index, Allows, Attributes, LeafBase, IsIndex;
    var e := Entry(m, t, Index(v, level));
    ChildTable(m, root, s, t, v, level);
    AllowsFlags(e);
    if Next(m, t, v, level).Child? {
      assert Attributes(e) == TABLE_FLAGS by { DownAt(m, root, s, t, Index(v, level)); }
      LinkAllows(e);
      AccessWalk(m, root, s, Next(m, t, v, level).table, v, level - 1);
    }
  }

  /** Use in user mode is granted nowhere, everything else as the entry of the page says. */
  lemma AccessExact(m: Memory, root: Word, s: Shape, v: Word)
    requires Tree(m, root, s)
    ensures Access(m, root, v, 4) ==
            match Walk(m, root, v, 4) case None => None case Some(p) => Some(Allows(p.flags).(user := false))
  {
    hide Tree, Walk, Access, Allows, Entry, Index;
    RootTable(m, root, s);
    AccessWalk(m, root, s, root, v, 4);
    RootLinks(m, root, v);
  }

  /** The PML4 holds no pages. */
  lemma RootLinks(m: Memory, root: Word, v: Word)
    ensures Walk(m, root, v, 4).Some? ==> Next(m, root, v, 4).Child?
  {
    hide Entry, Index, Attributes;
  }
}
