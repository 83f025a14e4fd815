/** How many page tables a mapping needs (kernel/arch/x86_64/mm/vmm.c): the tables missing on the
    path of an address, and what each write does to that number for every other address. */
module Paths {
  import opened Common
  import opened Entries
  import opened Words
  import opened PageTables

  /** How many tables are missing on the path of `v` below table `t`. */
  function Missing(m: Memory, t: Word, v: Word, level: nat): (n: nat)
    requires 1 <= level <= 4
    ensures n < level
    decreases level
  {
    MissingEntry(m, Entry(m, t, Index(v, level)), v, level)
  }

  function MissingEntry(m: Memory, e: Word, v: Word, level: nat): (n: nat)
    requires 1 <= level <= 4
    ensures n < level
    decreases level, 0
  {
    if level == 1 then 0
    else
      match Decode(level, e)
      case Absent => level - 1
      case Child(c) => Missing(m, c, v, level - 1)
      case Leaf => 0
  }

  /** The tables below the deepest one that the paths of `u` and `v` can share. */
  function Dist(u: Word, v: Word): nat {
    if Index(u, 4) != Index(v, 4) then 3
    else if Index(u, 3) != Index(v, 3) then 2
    else if Index(u, 2) != Index(v, 2) then 1
    else 0
  }

  lemma DistAgrees(u: Word, v: Word, level: nat)
    requires 2 <= level <= 4
    ensures Dist(u, v) <= level - 2 <==> AgreeFrom(u, v, level, 4)
  {
    hide Index;
    if Dist(u, v) > level - 2 {
      assert Index(u, Dist(u, v) + 1) != Index(v, Dist(u, v) + 1);
    }
  }

  // ----- Writes and the number of missing tables -----

  lemma {:induction false} MissingSame(m: Memory, m': Memory, root: Word, s: Shape, t: Word, v: Word, level: nat)
    requires Tree(m, root, s) && SameTables(m, m', s) && IsTable(s, t) && Level(s, t) == level && 1 <= level <= 4
    ensures Missing(m', t, v, level) == Missing(m, t, v, level)
    decreases level
  {
    hide Tree, Decode, Index, Entry, IsIndex;
    ChildTable(m, root, s, t, v, level);
    assert Entry(m', t, Index(v, level)) == Entry(m, t, Index(v, level));
    if Next(m, t, v, level).Child? {
      MissingSame(m, m', root, s, Next(m, t, v, level).table, v, level - 1);
    }
  }

  lemma {:induction false} MissingMiss(m: Memory, root: Word, s: Shape, w: Word, j: Word, e: Word, t: Word, v: Word,
                                       level: nat)
    requires Tree(m, root, s) && IsTable(s, t) && Level(s, t) == level && IsTable(s, w) && IsIndex(j)
    requires 1 <= level <= 4 && !Reaches(m, t, v, level, w, j)
    ensures Missing(Store(m, w, j, e), t, v, level) == Missing(m, t, v, level)
    decreases level
  {
    hide Tree, Decode, Index, Entry, IsIndex, Store;
    TableIn(m, root, s, t);
    TableIn(m, root, s, w);
    EntryStore(m, w, j, e, t, Index(v, level));
    ChildTable(m, root, s, t, v, level);
    if Next(m, t, v, level).Child? {
      MissingMiss(m, root, s, w, j, e, Next(m, t, v, level).table, v, level - 1);
    }
  }

  lemma {:induction false} MissingHit(m: Memory, root: Word, s: Shape, w: Word, j: Word, e: Word, t: Word, v: Word,
                                      level: nat)
    requires Tree(m, root, s) && IsTable(s, t) && Level(s, t) == level && IsTable(s, w) && IsIndex(j)
    requires 1 <= level <= 4 && Reaches(m, t, v, level, w, j)
    ensures 1 <= Level(s, w) <= 4
    ensures Missing(Store(m, w, j, e), t, v, level) == MissingEntry(Store(m, w, j, e), e, v, Level(s, w))
    ensures Missing(m, t, v, level) == MissingEntry(m, Entry(m, w, j), v, Level(s, w))
    decreases level
  {
    hide Tree, Decode, Index, Entry, IsIndex, Store;
    TableIn(m, root, s, t);
    TableIn(m, root, s, w);
    EntryStore(m, w, j, e, t, Index(v, level));
    ReachLevel(m, root, s, t, v, level, w, j);
    if !(t == w && Index(v, level) == j) {
      ChildTable(m, root, s, t, v, level);
      MissingHit(m, root, s, w, j, e, Next(m, t, v, level).table, v, level - 1);
    }
  }

  /** Addresses that agree with `v` down to the level of `w` pass through the same entry of `w`. */
  lemma {:induction false} ReachesAgree(m: Memory, root: Word, s: Shape, t: Word, u: Word, v: Word, level: nat,
                                        w: Word, i: Word)
    requires Tree(m, root, s) && IsTable(s, t) && Level(s, t) == level && IsTable(s, w) && 1 <= Level(s, w)
    requires 1 <= level <= 4 && Reaches(m, t, v, level, w, i) && AgreeFrom(u, v, Level(s, w), level)
    ensures Reaches(m, t, u, level, w, i)
    decreases level
  {
    hide Tree, Decode, Entry, Index;
    ReachLevel(m, root, s, t, v, level, w, i);
    assert Index(u, level) == Index(v, level);
    if !(t == w && Index(v, level) == i) {
      ChildTable(m, root, s, t, v, level);
      ReachesAgree(m, root, s, Next(m, t, v, level).table, u, v, level - 1, w, i);
    }
  }

  /** On the path of `virt`, the addresses that share entry `i` of `w` are those close enough. */
  lemma SharesEntry(m: Memory, root: Word, s: Shape, virt: Word, w: Word, i: Word, u: Word)
    requires Tree(m, root, s) && IsTable(s, w) && 2 <= Level(s, w) <= 4 && Reaches(m, root, virt, 4, w, i)
    ensures Reaches(m, root, u, 4, w, i) <==> Dist(virt, u) <= Level(s, w) - 2
  {
    hide Tree, Reaches, Dist, Index;
    RootTable(m, root, s);
    DistAgrees(virt, u, Level(s, w));
    if Reaches(m, root, u, 4, w, i) {
      ReachUnique(m, root, s, root, virt, root, u, 4, w, i);
    } else if AgreeFrom(virt, u, Level(s, w), 4) {
      AgreeSymmetric(virt, u, Level(s, w));
      ReachesAgree(m, root, s, root, u, virt, 4, w, i);
    }
  }

  lemma AgreeSymmetric(u: Word, v: Word, lo: nat)
    requires 1 <= lo && AgreeFrom(u, v, lo, 4)
    ensures AgreeFrom(v, u, lo, 4)
  {
    hide Index;
  }

  lemma {:induction false} ReachesSame(m: Memory, m': Memory, root: Word, s: Shape, t: Word, v: Word, level: nat,
                                       w: Word, i: Word)
    requires Tree(m, root, s) && SameTables(m, m', s) && IsTable(s, t) && Level(s, t) == level && 1 <= level <= 4
    requires Reaches(m, t, v, level, w, i)
    ensures Reaches(m', t, v, level, w, i)
    decreases level
  {
    hide Tree, Decode, Index, Entry, IsIndex;
    ChildTable(m, root, s, t, v, level);
    assert Entry(m', t, Index(v, level)) == Entry(m, t, Index(v, level));
    if !(t == w && Index(v, level) == i) {
      ReachesSame(m, m', root, s, Next(m, t, v, level).table, v, level - 1, w, i);
    }
  }

  // ----- For all addresses -----

  /** The path of `virt` is there down to a table of level `level - 1`, and tables were made for
      nothing else. */
  ghost predicate Opens(m: Memory, m': Memory, root: Word, virt: Word, level: nat)
    requires 2 <= level <= 4
  {
    forall v: Word :: Missing(m', root, v, 4) ==
      if Dist(virt, v) <= level - 2 then Min(Missing(m, root, v, 4), level - 2) else Missing(m, root, v, 4)
  }

  ghost predicate SameMissing(m: Memory, m': Memory, root: Word) {
    forall v: Word :: Missing(m', root, v, 4) == Missing(m, root, v, 4)
  }

  /** After `u` has been mapped, an address lacks the tables that it lacked, or those below
      the last that it shares with `u`, whichever are fewer. */
  ghost predicate Shares(m: Memory, m': Memory, root: Word, u: Word) {
    forall v: Word :: Missing(m', root, v, 4) == Min(Missing(m, root, v, 4), Dist(u, v))
  }

  /** Linking a blank page to an empty entry on the path of `virt`. */
  lemma LinkOpens(m: Memory, root: Word, s: Shape, w: Word, j: Word, e: Word, c: Word, virt: Word)
    requires Tree(m, root, s) && Blank(m, s, c) && IsTable(s, w) && 2 <= Level(s, w) <= 4 && IsIndex(j)
    requires Decode(Level(s, w), Entry(m, w, j)) == Absent && Decode(Level(s, w), e) == Child(c)
    requires Reaches(m, root, virt, 4, w, j)
    ensures Opens(m, Store(m, w, j, e), root, virt, Level(s, w))
  {
    hide Tree, Decode, Index, Entry, Reaches, IsIndex, Store, Missing, Dist, Blank;
    forall v: Word
      ensures Missing(Store(m, w, j, e), root, v, 4) ==
        if Dist(virt, v) <= Level(s, w) - 2 then Min(Missing(m, root, v, 4), Level(s, w) - 2)
        else Missing(m, root, v, 4)
    {
      SharesEntry(m, root, s, virt, w, j, v);
      RootTable(m, root, s);
      if Reaches(m, root, v, 4, w, j) {
        MissingHit(m, root, s, w, j, e, root, v, 4);
        BlankMissing(m, root, s, w, j, e, c, v);
      } else {
        MissingMiss(m, root, s, w, j, e, root, v, 4);
      }
    }
  }

  lemma BlankMissing(m: Memory, root: Word, s: Shape, w: Word, j: Word, e: Word, c: Word, v: Word)
    requires Tree(m, root, s) && Blank(m, s, c) && IsTable(s, w) && 2 <= Level(s, w) <= 4 && IsIndex(j)
    requires Decode(Level(s, w), Entry(m, w, j)) == Absent && Decode(Level(s, w), e) == Child(c)
    ensures MissingEntry(Store(m, w, j, e), e, v, Level(s, w)) == Level(s, w) - 2
    ensures MissingEntry(m, Entry(m, w, j), v, Level(s, w)) == Level(s, w) - 1
  {
    hide Tree, Decode, Index, Entry, IsIndex, Store, Aligned;
    TableIn(m, root, s, w);
    EntryStore(m, w, j, e, c, Index(v, Level(s, w) - 1));
    ZeroDecodes(Level(s, w) - 1);
  }

  /** A link that is there already. */
  lemma PresentOpens(m: Memory, root: Word, s: Shape, w: Word, virt: Word)
    requires Tree(m, root, s) && IsTable(s, w) && 2 <= Level(s, w) <= 4 && Next(m, w, virt, Level(s, w)).Child?
    requires Reaches(m, root, virt, 4, w, Index(virt, Level(s, w)))
    ensures Opens(m, m, root, virt, Level(s, w))
  {
    hide Tree, Decode, Index, Entry, Reaches, Missing, Dist;
    var j := Index(virt, Level(s, w));
    forall v: Word
      ensures Missing(m, root, v, 4) ==
        if Dist(virt, v) <= Level(s, w) - 2 then Min(Missing(m, root, v, 4), Level(s, w) - 2)
        else Missing(m, root, v, 4)
    {
      SharesEntry(m, root, s, virt, w, j, v);
      RootTable(m, root, s);
      if Reaches(m, root, v, 4, w, j) {
        MissingHit(m, root, s, w, j, Entry(m, w, j), root, v, 4);
      }
    }
  }

  /** Writing a level-1 entry. */
  lemma PteSame(m: Memory, root: Word, s: Shape, w: Word, j: Word, e: Word)
    requires Tree(m, root, s) && IsTable(s, w) && Level(s, w) == 1 && IsIndex(j)
    ensures SameMissing(m, Store(m, w, j, e), root)
  {
    hide Tree, Reaches, Missing, Store, Entry, IsIndex, Decode;
    RootTable(m, root, s);
    forall v: Word
      ensures Missing(Store(m, w, j, e), root, v, 4) == Missing(m, root, v, 4)
    {
      if Reaches(m, root, v, 4, w, j) {
        MissingHit(m, root, s, w, j, e, root, v, 4);
      } else {
        MissingMiss(m, root, s, w, j, e, root, v, 4);
      }
    }
  }

  lemma TablesSame(m: Memory, m': Memory, root: Word, s: Shape)
    requires Tree(m, root, s) && SameTables(m, m', s)
    ensures SameMissing(m, m', root)
  {
    hide Tree, SameTables, Missing;
    RootTable(m, root, s);
    forall v: Word
      ensures Missing(m', root, v, 4) == Missing(m, root, v, 4)
    {
      MissingSame(m, m', root, s, root, v, 4);
    }
  }

  /** Writing a large page to the level-2 entry of `virt`. */
  lemma PdeOpens(m: Memory, root: Word, s: Shape, w: Word, j: Word, e: Word, virt: Word)
    requires Tree(m, root, s) && IsTable(s, w) && Level(s, w) == 2 && IsIndex(j) && Decode(2, e) == Leaf
    requires Reaches(m, root, virt, 4, w, j)
    ensures Opens(m, Store(m, w, j, e), root, virt, 2)
  {
    hide Tree, Decode, Index, Entry, Reaches, IsIndex, Store, Missing, Dist;
    forall v: Word
      ensures Missing(Store(m, w, j, e), root, v, 4) == if Dist(virt, v) <= 0 then 0 else Missing(m, root, v, 4)
    {
      SharesEntry(m, root, s, virt, w, j, v);
      RootTable(m, root, s);
      if Reaches(m, root, v, 4, w, j) {
        MissingHit(m, root, s, w, j, e, root, v, 4);
      } else {
        MissingMiss(m, root, s, w, j, e, root, v, 4);
      }
    }
  }

  lemma DistSmall(u: Word, v: Word)
    ensures Dist(u, v) <= 3
  {
    hide Index;
  }

  /** The path of `virt` is there down to a page directory. */
  ghost predicate OpensUpper(m: Memory, m': Memory, root: Word, virt: Word) {
    forall v: Word :: Missing(m', root, v, 4) ==
      Min(Missing(m, root, v, 4), if Dist(virt, v) == 0 then 1 else Dist(virt, v))
  }

  lemma OpensTwo(m0: Memory, m1: Memory, m2: Memory, root: Word, virt: Word)
    requires Opens(m0, m1, root, virt, 4) && Opens(m1, m2, root, virt, 3)
    ensures OpensUpper(m0, m2, root, virt)
  {
    hide Missing, Dist;
    forall v: Word
      ensures Missing(m2, root, v, 4) == Min(Missing(m0, root, v, 4), if Dist(virt, v) == 0 then 1 else Dist(virt, v))
    {
      DistSmall(virt, v);
      assert Missing(m1, root, v, 4) ==
        if Dist(virt, v) <= 2 then Min(Missing(m0, root, v, 4), 2) else Missing(m0, root, v, 4);
    }
  }

  /** The three levels together. */
  lemma OpensAll(m0: Memory, m2: Memory, m3: Memory, root: Word, virt: Word)
    requires OpensUpper(m0, m2, root, virt) && Opens(m2, m3, root, virt, 2)
    ensures Shares(m0, m3, root, virt)
  {
    hide Missing, Dist;
    forall v: Word
      ensures Missing(m3, root, v, 4) == Min(Missing(m0, root, v, 4), Dist(virt, v))
    {
      assert Missing(m2, root, v, 4) == Min(Missing(m0, root, v, 4), if Dist(virt, v) == 0 then 1 else Dist(virt, v));
    }
  }

  lemma OpensSame(m0: Memory, m1: Memory, m2: Memory, root: Word, virt: Word, level: nat)
    requires 2 <= level <= 4 && SameMissing(m0, m1, root) && Opens(m1, m2, root, virt, level)
    ensures Opens(m0, m2, root, virt, level)
  {
    hide Missing, Dist;
  }

  lemma SharesSame(m0: Memory, m1: Memory, m2: Memory, root: Word, u: Word)
    requires (Shares(m0, m1, root, u) && SameMissing(m1, m2, root)) ||
             (SameMissing(m0, m1, root) && Shares(m1, m2, root, u))
    ensures Shares(m0, m2, root, u)
  {
    hide Missing, Dist;
  }

  // ----- Lists of addresses -----

  /** The tables that `v` lacks, of `base`, after the addresses `us` have been mapped. */
  function Need(base: nat, us: seq<Word>, v: Word): (n: nat)
    ensures n <= base
  {
    if us == [] then base else Min(Need(base, us[..|us| - 1], v), Dist(us[|us| - 1], v))
  }

  /** The tables of an address that a mapping has to make when `missing` are missing: all of
      them, or for a large page, which has no page table, one fewer. */
  function ToMake(missing: nat, large: bool): nat {
    if large && missing > 0 then missing - 1 else missing
  }

  /** The tables that mapping `us`, one after the other, takes. */
  function TablesFor(m: Memory, root: Word, us: seq<Word>, large: bool): nat {
    if us == [] then 0
    else
      var u, before := us[|us| - 1], us[..|us| - 1];
      TablesFor(m, root, before, large) + ToMake(Need(Missing(m, root, u, 4), before, u), large)
  }

  ghost predicate Mapped(m0: Memory, m: Memory, root: Word, us: seq<Word>) {
    forall v: Word :: Missing(m, root, v, 4) == Need(Missing(m0, root, v, 4), us, v)
  }

  lemma MappedNone(m: Memory, root: Word)
    ensures Mapped(m, m, root, [])
  {
    hide Missing;
  }

  lemma MappedMore(m0: Memory, m: Memory, m': Memory, root: Word, us: seq<Word>, u: Word)
    requires Mapped(m0, m, root, us) && Shares(m, m', root, u)
    ensures Mapped(m0, m', root, us + [u])
  {
    hide Missing, Dist;
    assert (us + [u])[..|us|] == us;
  }

  /** Tables for a longer list are no fewer. */
  lemma {:induction false} TablesMonotone(m: Memory, root: Word, us: seq<Word>, k: nat, large: bool)
    requires k <= |us|
    ensures TablesFor(m, root, us[..k], large) <= TablesFor(m, root, us, large)
    decreases |us|
  {
    hide Missing, Need, ToMake;
    if k < |us| {
      TablesMonotone(m, root, us[..|us| - 1], k, large);
      assert us[..|us| - 1][..k] == us[..k];
    } else {
      assert us[..k] == us;
    }
  }

  /** At most three tables for each page, or two for each large page. */
  lemma {:induction false} TablesBound(m: Memory, root: Word, us: seq<Word>, large: bool)
    ensures TablesFor(m, root, us, large) <= (if large then 2 else 3) * |us|
    decreases |us|
  {
    hide Missing, Need;
    if us != [] {
      TablesBound(m, root, us[..|us| - 1], large);
    }
  }

  /** The addresses from `base` on, `step` apart. */
  function Spaced(base: nat, step: nat, k: nat): Word { WordOf(base + step * k) }

  function Every(base: nat, step: nat, n: nat): (us: seq<Word>)
    ensures |us| == n
  {
    if n == 0 then [] else Every(base, step, n - 1) + [Spaced(base, step, n - 1)]
  }

  lemma {:induction false} EveryAt(base: nat, step: nat, n: nat, k: nat)
    requires k < n
    ensures Every(base, step, n)[k] == Spaced(base, step, k)
    ensures Every(base, step, n)[..k] == Every(base, step, k)
  {
    hide Spaced;
    if k < n - 1 {
      EveryAt(base, step, n - 1, k);
    }
  }

  /** What the next address takes. */
  lemma NextTables(m0: Memory, m: Memory, root: Word, us: seq<Word>, u: Word, large: bool)
    requires Mapped(m0, m, root, us)
    ensures TablesFor(m0, root, us + [u], large) ==
            TablesFor(m0, root, us, large) + ToMake(Missing(m, root, u, 4), large)
  {
    hide Missing, Need, ToMake;
    assert (us + [u])[..|us|] == us;
  }

  lemma EveryMonotone(m: Memory, root: Word, base: nat, step: nat, k: nat, n: nat, large: bool)
    requires k <= n
    ensures TablesFor(m, root, Every(base, step, k), large) <= TablesFor(m, root, Every(base, step, n), large)
  {
    hide Missing, TablesFor, Spaced, Every;
    if k < n {
      EveryAt(base, step, n, k);
      TablesMonotone(m, root, Every(base, step, n), k, large);
    }
  }

  lemma OneMoreTable(m0: Memory, m: Memory, root: Word, base: nat, step: nat, k: nat, n: nat, large: bool)
    requires Mapped(m0, m, root, Every(base, step, k)) && k < n
    ensures TablesFor(m0, root, Every(base, step, k + 1), large) ==
            TablesFor(m0, root, Every(base, step, k), large) + ToMake(Missing(m, root, Spaced(base, step, k), 4), large)
    ensures TablesFor(m0, root, Every(base, step, k + 1), large) <= TablesFor(m0, root, Every(base, step, n), large)
  {
    hide Missing, TablesFor, Spaced, Mapped, ToMake;
    NextTables(m0, m, root, Every(base, step, k), Spaced(base, step, k), large);
    EveryMonotone(m0, root, base, step, k + 1, n, large);
  }

  lemma EveryMore(m0: Memory, m: Memory, m': Memory, root: Word, base: nat, step: nat, k: nat)
    requires Mapped(m0, m, root, Every(base, step, k)) && Shares(m, m', root, Spaced(base, step, k))
    ensures Mapped(m0, m', root, Every(base, step, k + 1))
  {
    hide Mapped, Shares, Spaced;
    MappedMore(m0, m, m', root, Every(base, step, k), Spaced(base, step, k));
  }

  /** The tables for `us` in an address space where only `done` has been mapped. */
  function FreshTables(done: seq<Word>, us: seq<Word>, large: bool): nat {
    if us == [] then 0
    else
      var u, before := us[|us| - 1], us[..|us| - 1];
      FreshTables(done, before, large) + ToMake(Need(3, done + before, u), large)
  }

  lemma {:induction false} FreshIs(m: Memory, root: Word, done: seq<Word>, us: seq<Word>, large: bool)
    requires forall v: Word :: Missing(m, root, v, 4) == Need(3, done, v)
    ensures TablesFor(m, root, us, large) == FreshTables(done, us, large)
    decreases |us|
  {
    hide Missing, Need, ToMake;
    if us != [] {
      FreshIs(m, root, done, us[..|us| - 1], large);
      NeedAppend(3, done, us[..|us| - 1], us[|us| - 1]);
    }
  }

  lemma {:induction false} FreshBound(done: seq<Word>, us: seq<Word>, large: bool)
    ensures FreshTables(done, us, large) <= (if large then 2 else 3) * |us|
    decreases |us|
  {
    hide Need;
    if us != [] {
      FreshBound(done, us[..|us| - 1], large);
    }
  }

  lemma {:induction false} NeedAppend(base: nat, a: seq<Word>, b: seq<Word>, v: Word)
    ensures Need(base, a + b, v) == Need(Need(base, a, v), b, v)
    decreases |b|
  {
    hide Dist;
    if b == [] {
      assert a + b == a;
    } else {
      assert (a + b)[..|a + b| - 1] == a + b[..|b| - 1];
      NeedAppend(base, a, b[..|b| - 1], v);
    }
  }
}
