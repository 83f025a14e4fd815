/** The kernel heap (kernel/arch/x86_64/mm/heap.c): a doubly linked block list kept in the
    heap's own memory. */
module Heap {
  import opened Common
  import opened HeapBytes
  import opened HeapBlocks

  const HEAP_MAGIC: nat := 0xDEAD_BEEF

  // ----- Block lists in memory -----

  function HeaderFor(bs: Blocks, i: nat): Header
    requires i < |bs|
  {
    Header(HEAP_MAGIC, if bs[i].used then 1 else 0, bs[i].size,
           if i == 0 then 0 else bs[i - 1].addr,
           if i + 1 == |bs| then 0 else bs[i + 1].addr)
  }

  /** Memory holds the headers of a block list that tiles `[start, end)`. */
  ghost predicate Holds(m: Bytes, bs: Blocks, start: nat, end: nat) {
    && 0 < start && end <= |m| <= 0x1_0000_0000_0000_0000
    && Tiled(bs, start, end)
    && (forall i :: 0 <= i < |bs| ==> bs[i].addr + 32 <= |m| && At(m, bs[i].addr) == HeaderFor(bs, i))
  }

  /** The header before `p` is that of a used block, as far as kfree can tell. */
  ghost predicate LooksLive(m: Bytes, p: nat) {
    32 <= p <= |m| && At(m, p - 32).magic == HEAP_MAGIC && At(m, p - 32).used != 0
  }

  predicate InRange(x: int, a: nat, n: nat) { a <= x < a + n }

  /** Only the header at `a` differs. */
  ghost predicate OnlyAt(m: Bytes, m': Bytes, a: nat) {
    |m'| == |m| && forall x :: 0 <= x < |m| && !InRange(x, a, 32) ==> m'[x] == m[x]
  }

  ghost predicate InHeader(bs: Blocks, x: int) {
    exists i :: 0 <= i < |bs| && InRange(x, bs[i].addr, 32)
  }

  /** Only bytes of headers, of the old or the new list, differ. */
  ghost predicate OnlyHeaders(m: Bytes, m': Bytes, bs: Blocks, bs': Blocks) {
    |m'| == |m| && forall x :: 0 <= x < |m| && !InHeader(bs, x) && !InHeader(bs', x) ==> m'[x] == m[x]
  }

  lemma HeaderFits(m: Bytes, bs: Blocks, start: nat, end: nat, i: nat)
    requires Holds(m, bs, start, end) && i < |bs|
    ensures Fits(HeaderFor(bs, i)) && start <= bs[i].addr && End(bs[i]) <= end
  {
    Inside(bs, start, end, i);
    AtFits(m, bs[i].addr);
  }

  /** Headers of different blocks do not overlap. */
  lemma FarApart(bs: Blocks, start: nat, end: nat, i: nat, j: nat)
    requires Tiled(bs, start, end) && i < |bs| && j < |bs| && i != j
    ensures bs[i].addr + 32 <= bs[j].addr || bs[j].addr + 32 <= bs[i].addr
  {
    if i < j {
      Ordered(bs, start, end, i, j);
    } else {
      Ordered(bs, start, end, j, i);
    }
  }

  lemma SameHeader(m: Bytes, m': Bytes, a: nat)
    requires a + 32 <= |m| && |m'| == |m| && forall x :: 0 <= x < |m| && InRange(x, a, 32) ==> m'[x] == m[x]
    ensures At(m', a) == At(m, a)
  {
    hide HeaderOf;
    assert m'[a..a + 32] == m[a..a + 32];
  }

  /** The payload of a live block has no byte of any header. */
  lemma PayloadApart(bs: Blocks, start: nat, end: nat, b: Block, x: int)
    requires Tiled(bs, start, end) && b in bs && InRange(x, b.addr + 32, b.size)
    ensures !InHeader(bs, x)
  {
    var k :| 0 <= k < |bs| && bs[k] == b;
    forall i | 0 <= i < |bs|
      ensures !InRange(x, bs[i].addr, 32)
    {
      if i < k {
        Ordered(bs, start, end, i, k);
      } else if k < i {
        Ordered(bs, start, end, k, i);
      }
    }
  }

  /** Payloads of different blocks are disjoint. */
  lemma PayloadsDisjoint(bs: Blocks, start: nat, end: nat, i: nat, j: nat, x: int)
    requires Tiled(bs, start, end) && i < |bs| && j < |bs| && i != j && InRange(x, bs[i].addr + 32, bs[i].size)
    ensures !InRange(x, bs[j].addr + 32, bs[j].size)
  {
    if i < j {
      Ordered(bs, start, end, i, j);
    } else {
      Ordered(bs, start, end, j, i);
    }
  }

  /** Bytes `[a, a + n)` are the same. */
  ghost predicate SameBytes(m: Bytes, m': Bytes, a: nat, n: nat) {
    |m'| == |m| && forall x :: 0 <= x < |m| && InRange(x, a, n) ==> m'[x] == m[x]
  }

  /** A block that both lists have keeps its payload when only headers change. */
  lemma PayloadKept(m: Bytes, m': Bytes, bs: Blocks, bs': Blocks, start: nat, end: nat, b: Block, b': Block)
    requires Tiled(bs, start, end) && Tiled(bs', start, end) && OnlyHeaders(m, m', bs, bs')
    requires b in bs && b' in bs' && b.addr == b'.addr && b'.size <= b.size
    ensures SameBytes(m, m', b'.addr + 32, b'.size)
  {
    forall x | 0 <= x < |m| && InRange(x, b'.addr + 32, b'.size)
      ensures m'[x] == m[x]
    {
      PayloadApart(bs, start, end, b, x);
      PayloadApart(bs', start, end, b', x);
    }
  }

  // ----- The list operations in memory -----

  /** The headers of a split list, from those of the list. */
  lemma SplitHeader(bs: Blocks, i: nat, n: nat, k: nat)
    requires i < |bs| && bs[i].size >= n + 48 && k < |Split(bs, i, n)|
    ensures var r, a := Split(bs, i, n), bs[i].addr + 32 + n;
      && |r| == |bs| + 1
      && (k < i ==> r[k].addr == bs[k].addr && HeaderFor(r, k) == HeaderFor(bs, k))
      && (k == i ==> r[k].addr == bs[i].addr && HeaderFor(r, k) == HeaderFor(bs, i).(next := a, size := n))
      && (k == i + 1 ==>
            && r[k].addr == a
            && HeaderFor(r, k) == Header(HEAP_MAGIC, 0, bs[i].size - (32 + n), bs[i].addr, HeaderFor(bs, i).next))
      && (k == i + 2 ==> r[k].addr == bs[i + 1].addr && HeaderFor(r, k) == HeaderFor(bs, i + 1).(prev := a))
      && (k > i + 2 ==> r[k].addr == bs[k - 1].addr && HeaderFor(r, k) == HeaderFor(bs, k - 1))
  {
  }

  /** Splitting: the new header, the back link of the block after it, and the cut block. */
  lemma SplitHolds(m: Bytes, m': Bytes, bs: Blocks, start: nat, end: nat, i: nat, n: nat)
    requires Holds(m, bs, start, end) && i < |bs| && n % 16 == 0 && bs[i].size >= n + 48 && |m'| == |m|
    requires var b, a := bs[i], bs[i].addr + 32 + n;
      && a + 32 <= |m|
      && At(m', a) == Header(HEAP_MAGIC, 0, b.size - (32 + n), b.addr, HeaderFor(bs, i).next)
      && At(m', b.addr) == HeaderFor(bs, i).(next := a, size := n)
      && (i + 1 < |bs| ==> At(m', bs[i + 1].addr) == HeaderFor(bs, i + 1).(prev := a))
    requires forall k :: 0 <= k < |bs| && k != i && k != i + 1 ==> At(m', bs[k].addr) == At(m, bs[k].addr)
    ensures Holds(m', Split(bs, i, n), start, end)
  {
    hide At, Tiled, Split, HeaderFor;
    SplitTiles(bs, start, end, i, n);
    var r := Split(bs, i, n);
    forall k | 0 <= k < |r|
      ensures r[k].addr + 32 <= |m'| && At(m', r[k].addr) == HeaderFor(r, k)
    {
      SplitHeader(bs, i, n, k);
    }
  }

  lemma MarkLength(bs: Blocks, i: nat, used: bool)
    requires i < |bs|
    ensures |Mark(bs, i, used)| == |bs|
  {
  }

  lemma MarkHeader(bs: Blocks, i: nat, used: bool, k: nat)
    requires i < |bs| && k < |Mark(bs, i, used)|
    ensures var r := Mark(bs, i, used);
      && |r| == |bs| && r[k].addr == bs[k].addr
      && HeaderFor(r, k) == if k == i then HeaderFor(bs, i).(used := if used then 1 else 0) else HeaderFor(bs, k)
  {
  }

  lemma MarkHolds(m: Bytes, m': Bytes, bs: Blocks, start: nat, end: nat, i: nat, used: bool)
    requires Holds(m, bs, start, end) && i < |bs| && |m'| == |m|
    requires At(m', bs[i].addr) == HeaderFor(bs, i).(used := if used then 1 else 0)
    requires forall k :: 0 <= k < |bs| && k != i ==> At(m', bs[k].addr) == At(m, bs[k].addr)
    ensures Holds(m', Mark(bs, i, used), start, end)
  {
    hide At, Tiled, HeaderFor, Mark;
    MarkTiles(bs, start, end, i, used);
    var r := Mark(bs, i, used);
    MarkLength(bs, i, used);
    forall k | 0 <= k < |r|
      ensures r[k].addr + 32 <= |m'| && At(m', r[k].addr) == HeaderFor(r, k)
    {
      MarkHeader(bs, i, used, k);
    }
  }

  lemma MergeHeader(bs: Blocks, i: nat, k: nat)
    requires i + 1 < |bs| && k < |Merge(bs, i)|
    ensures var r := Merge(bs, i);
      && |r| == |bs| - 1
      && (k < i ==> r[k].addr == bs[k].addr && HeaderFor(r, k) == HeaderFor(bs, k))
      && (k == i ==> r[k].addr == bs[i].addr
                     && HeaderFor(r, k) ==
                        HeaderFor(bs, i).(size := bs[i].size + 32 + bs[i + 1].size, next := HeaderFor(bs, i + 1).next))
      && (k == i + 1 ==> r[k].addr == bs[i + 2].addr && HeaderFor(r, k) == HeaderFor(bs, i + 2).(prev := bs[i].addr))
      && (k > i + 1 ==> r[k].addr == bs[k + 1].addr && HeaderFor(r, k) == HeaderFor(bs, k + 1))
  {
  }

  lemma MergeHolds(m: Bytes, m': Bytes, bs: Blocks, start: nat, end: nat, i: nat)
    requires Holds(m, bs, start, end) && i + 1 < |bs| && |m'| == |m|
    requires At(m', bs[i].addr) ==
             HeaderFor(bs, i).(size := bs[i].size + 32 + bs[i + 1].size, next := HeaderFor(bs, i + 1).next)
    requires i + 2 < |bs| ==> At(m', bs[i + 2].addr) == HeaderFor(bs, i + 2).(prev := bs[i].addr)
    requires forall k :: 0 <= k < |bs| && k != i && k != i + 1 && k != i + 2 ==> At(m', bs[k].addr) == At(m, bs[k].addr)
    ensures Holds(m', Merge(bs, i), start, end)
  {
    hide At, Tiled, Merge, HeaderFor;
    MergeTiles(bs, start, end, i);
    var r := Merge(bs, i);
    forall k | 0 <= k < |r|
      ensures r[k].addr + 32 <= |m'| && At(m', r[k].addr) == HeaderFor(r, k)
    {
      MergeHeader(bs, i, k);
    }
  }

  /** Only headers at addresses in `s` differ. */
  ghost predicate Changed(m: Bytes, m': Bytes, s: set<nat>) {
    |m'| == |m| && forall x :: 0 <= x < |m| && (forall a :: a in s ==> !InRange(x, a, 32)) ==> m'[x] == m[x]
  }

  lemma ChangedMore(m: Bytes, m': Bytes, m'': Bytes, s: set<nat>, a: nat)
    requires Changed(m, m', s) && OnlyAt(m', m'', a)
    ensures Changed(m, m'', s + {a})
  {
    forall x | 0 <= x < |m| && forall b :: b in s + {a} ==> !InRange(x, b, 32)
      ensures m''[x] == m[x]
    {
      assert a in s + {a};
      assert forall b :: b in s ==> b in s + {a};
    }
  }

  lemma UnchangedHeader(m: Bytes, m': Bytes, s: set<nat>, b: nat)
    requires Changed(m, m', s) && b + 32 <= |m| && forall a :: a in s ==> a + 32 <= b || b + 32 <= a
    ensures At(m', b) == At(m, b)
  {
    SameHeader(m, m', b);
  }

  lemma KeptHeader(m: Bytes, m': Bytes, a: nat, b: nat)
    requires OnlyAt(m, m', a) && b + 32 <= |m| && (a + 32 <= b || b + 32 <= a)
    ensures At(m', b) == At(m, b)
  {
    SameHeader(m, m', b);
  }

  lemma ChangedHeaders(m: Bytes, m': Bytes, s: set<nat>, bs: Blocks, bs': Blocks)
    requires Changed(m, m', s)
    requires forall a :: a in s ==>
               (exists i :: 0 <= i < |bs| && bs[i].addr == a) || exists i :: 0 <= i < |bs'| && bs'[i].addr == a
    ensures OnlyHeaders(m, m', bs, bs')
  {
    forall x | 0 <= x < |m| && !InHeader(bs, x) && !InHeader(bs', x)
      ensures m'[x] == m[x]
    {
    }
  }

  class Heap {
    const mem: array<Byte>
    var head: nat          // address of the first block, 0 before Init
    ghost var end: nat
    ghost var blocks: Blocks

    constructor (mem: array<Byte>)
      ensures this.mem == mem && head == 0 && Valid()
    {
      this.mem := mem;
      head := 0;
      end := 0;
      blocks := [];
    }

    ghost predicate Valid()
      reads this, mem
    {
      head != 0 ==> Holds(mem[..], blocks, head, end)
    }

    // ----- Fields of headers -----

    method Load(a: nat, f: Field) returns (v: nat)
      requires a + 32 <= mem.Length
      ensures v == Get(At(mem[..], a), f)
    {
      hide HeaderOf;
      v := Value(mem[a + Offset(f)..a + Offset(f) + Width(f)]);
      FieldRead(mem[..], a, f);
      assert mem[..][a + Offset(f)..a + Offset(f) + Width(f)] == mem[a + Offset(f)..a + Offset(f) + Width(f)];
    }

    method Save(a: nat, f: Field, v: nat)
      requires a + 32 <= mem.Length && v < (if Width(f) == 4 then 0x1_0000_0000 else 0x1_0000_0000_0000_0000)
      modifies mem
      ensures At(mem[..], a) == Set(At(old(mem[..]), a), f, v)
      ensures OnlyAt(old(mem[..]), mem[..], a)
    {
      hide HeaderOf, Value, Encode, HeaderBytes;
      ghost var m := mem[..];
      StoreBytes(a + Offset(f), Encode(v, Width(f)));
      FieldWrite(m, a, f, v);
      AtFits(m, a);
      PutSame(m, a, Set(At(m, a), f, v));
    }

    method StoreBytes(a: nat, s: Bytes)
      requires a + |s| <= mem.Length
      modifies mem
      ensures mem[..] == Write(old(mem[..]), a, s)
    {
      var k := 0;
      while k < |s|
        invariant 0 <= k <= |s|
        invariant forall x :: 0 <= x < mem.Length ==> mem[x] == if a <= x < a + k then s[x - a] else old(mem[..])[x]
      {
        mem[a + k] := s[k];
        k := k + 1;
      }
      forall x | 0 <= x < mem.Length
        ensures mem[x] == Write(old(mem[..]), a, s)[x]
      {
        WriteAt(old(mem[..]), a, s, x);
      }
    }

    method NewHeader(a: nat, h: Header)
      requires a + 32 <= mem.Length && Fits(h)
      modifies mem
      ensures At(mem[..], a) == h && OnlyAt(old(mem[..]), mem[..], a)
    {
      hide At;
      Save(a, Magic, h.magic);
      Save(a, Used, h.used);
      Save(a, Size, h.size);
      Save(a, Prev, h.prev);
      Save(a, Next, h.next);
    }

    /** Puts the header of a free block of `room` bytes at `a`, links it after `blk`, and cuts `blk` to `size`. */
    method Cut(blk: nat, a: nat, next: nat, room: nat, size: nat)
      requires blk + 32 <= a && a + 32 <= mem.Length <= 0x1_0000_0000_0000_0000 && room < 0x1_0000_0000_0000_0000 &&
               size < 0x1_0000_0000_0000_0000
      requires next != 0 ==> a + 32 <= next && next + 32 <= mem.Length
      modifies mem
      ensures Changed(old(mem[..]), mem[..], Links(blk, a, next))
      ensures At(mem[..], a) == Header(HEAP_MAGIC, 0, room, blk, next)
      ensures At(mem[..], blk) == At(old(mem[..]), blk).(next := a, size := size)
      ensures next != 0 ==> At(mem[..], next) == At(old(mem[..]), next).(prev := a)
    {
      hide At, Changed;
      ghost var m0 := mem[..];
      NewHeader(a, Header(HEAP_MAGIC, 0, room, blk, next));
      ghost var m1 := mem[..];
      NoChange(m0);
      ChangedMore(m0, m0, m1, {}, a);
      KeptHeader(m0, m1, a, blk);
      ghost var s := {} + {a};
      if next != 0 {
        KeptHeader(m0, m1, a, next);
        Save(next, Prev, a);
        ChangedMore(m0, m1, mem[..], s, next);
        s := s + {next};
        KeptHeader(m1, mem[..], next, a);
        KeptHeader(m1, mem[..], next, blk);
      }
      ghost var m2 := mem[..];
      Save(blk, Next, a);
      ghost var m3 := mem[..];
      Save(blk, Size, size);
      ChangedMore(m0, m2, m3, s, blk);
      ChangedMore(m0, m3, mem[..], s + {blk}, blk);
      KeptHeader(m2, m3, blk, a);
      KeptHeader(m3, mem[..], blk, a);
      if next != 0 {
        KeptHeader(m2, m3, blk, next);
        KeptHeader(m3, mem[..], blk, next);
      }
      assert s + {blk} + {blk} == Links(blk, a, next);
    }

    /** Splits block `i`, which is at `blk`, if it is much larger than `size`. */
    method MaybeSplit(blk: nat, size: nat, ghost i: nat)
      requires head != 0 && Valid() && i < |blocks| && blocks[i].addr == blk && size % 16 == 0
      modifies mem, this`blocks
      ensures Valid() && blocks == Split(old(blocks), i, size)
      ensures OnlyHeaders(old(mem[..]), mem[..], old(blocks), blocks)
    {
      hide At, Tiled, Fits, Changed, OnlyHeaders;
      ghost var m0, bs := mem[..], blocks;
      HeaderFits(m0, bs, head, end, i);
      var room := Load(blk, Size);
      if room >= size + 48 {
        var next := Load(blk, Next);
        SplitFar(bs, head, end, i, size);
        NewFits(m0, bs, head, end, i, size);
        Cut(blk, blk + 32 + size, next, room - (32 + size), size);
        SplitDone(m0, mem[..], bs, head, end, i, size);
        blocks := Split(bs, i, size);
      } else {
        SameHeaders(m0, bs);
      }
    }

    /** Sets the used flag of block `i`, which is at `blk`. */
    method SetUsed(blk: nat, used: bool, ghost i: nat)
      requires head != 0 && Valid() && i < |blocks| && blocks[i].addr == blk
      modifies mem, this`blocks
      ensures Valid() && blocks == Mark(old(blocks), i, used)
      ensures OnlyHeaders(old(mem[..]), mem[..], old(blocks), blocks)
    {
      hide At, Tiled, OnlyHeaders, HeaderFor;
      ghost var m0, bs := mem[..], blocks;
      Save(blk, Used, if used then 1 else 0);
      OneHeader(m0, mem[..], bs, head, end, i);
      MarkHolds(m0, mem[..], bs, head, end, i, used);
      blocks := Mark(bs, i, used);
      HeaderTouched(m0, mem[..], bs, blocks, i);
    }

    /** Joins block `i`, which is at `a`, with the block after it, at `b`. */
    method Join(a: nat, b: nat, ghost i: nat)
      requires head != 0 && Valid() && i + 1 < |blocks| && blocks[i].addr == a && blocks[i + 1].addr == b
      modifies mem, this`blocks
      ensures Valid() && blocks == Merge(old(blocks), i)
      ensures b + 32 <= mem.Length && At(mem[..], b).magic == 0
      ensures OnlyHeaders(old(mem[..]), mem[..], old(blocks), blocks)
    {
      hide At, Tiled, OnlyHeaders, Fits, Changed;
      ghost var m0, bs := mem[..], blocks;
      JoinFits(m0, bs, head, end, i);
      var sizeA := Load(a, Size);
      var sizeB := Load(b, Size);
      var next := Load(b, Next);
      Absorb(a, b, next, sizeA + 32 + sizeB);
      MergeDone(m0, mem[..], bs, head, end, i);
      blocks := Merge(bs, i);
    }

    /** Gives block `a` the size `size` and the successor `next`, and invalidates `b`. */
    method Absorb(a: nat, b: nat, next: nat, size: nat)
      requires a + 32 <= b && b + 32 <= mem.Length <= 0x1_0000_0000_0000_0000 && size < 0x1_0000_0000_0000_0000
      requires next != 0 ==> b + 32 <= next && next + 32 <= mem.Length
      modifies mem
      ensures Changed(old(mem[..]), mem[..], Links(a, b, next))
      ensures At(mem[..], a) == At(old(mem[..]), a).(next := next, size := size) && At(mem[..], b).magic == 0
      ensures next != 0 ==> At(mem[..], next) == At(old(mem[..]), next).(prev := a)
    {
      hide At, Changed;
      ghost var m0 := mem[..];
      NoChange(m0);
      Save(a, Size, size);
      ghost var m1 := mem[..];
      ChangedMore(m0, m0, m1, {}, a);
      Save(a, Next, next);
      ghost var m2 := mem[..];
      ChangedMore(m0, m1, m2, {} + {a}, a);
      ghost var s := {} + {a} + {a};
      if next != 0 {
        KeptHeader(m0, m1, a, next);
        KeptHeader(m1, m2, a, next);
        Save(next, Prev, a);
        ChangedMore(m0, m2, mem[..], s, next);
        s := s + {next};
        KeptHeader(m2, mem[..], next, a);
      }
      ghost var m3 := mem[..];
      Save(b, Magic, 0);
      ChangedMore(m0, m3, mem[..], s, b);
      KeptHeader(m3, mem[..], b, a);
      if next != 0 {
        KeptHeader(m3, mem[..], b, next);
      }
      assert s + {b} == Links(a, b, next);
    }

    /** One free block for the whole heap.  Panics exactly when it cannot hold a header and a byte. */
    method Init(heapStart: nat, heapSize: nat) returns (panicked: bool)
      requires 0 < heapStart && heapStart + heapSize <= mem.Length <= 0x1_0000_0000_0000_0000 &&
               heapStart + 15 < 0x1_0000_0000_0000_0000
      modifies mem, this
      ensures panicked <==> heapSize <= (heapStart + 15) / 16 * 16 - heapStart + 32
      ensures !panicked ==>
                && head == (heapStart + 15) / 16 * 16 && end == heapStart + heapSize && Valid()
                && blocks == [Block(head, end - head - 32, false)]
    {
      hide At;
      var start := (heapStart + 15) / 16 * 16;
      var wasted := start - heapStart;
      if heapSize <= wasted + 32 {
        return true;
      }
      head := start;
      NewHeader(start, Header(HEAP_MAGIC, 0, heapSize - wasted - 32, 0, 0));
      end := heapStart + heapSize;
      blocks := [Block(start, heapSize - wasted - 32, false)];
      panicked := false;
    }

    // ----- Allocation -----

    /** No block can be handed out for `size` bytes. */
    ghost predicate Refuses(size: nat)
      reads this
    {
      size == 0 || head == 0 || FirstFit(blocks, RoundUp(size)) == |blocks|
    }

    /** Where the payload of the lowest adequate free block starts. */
    ghost function Chosen(size: nat): nat
      requires !Refuses(size)
      reads this
    {
      blocks[FirstFit(blocks, RoundUp(size))].addr + 32
    }

    /** Hands out the lowest adequate free block; 0 exactly when there is none. */
    method Kmalloc(size: nat) returns (p: nat)
      requires Valid() && size < 0x1_0000_0000_0000_0000
      modifies mem, this`blocks
      ensures Valid()
      ensures old(Refuses(size)) ==> p == 0 && blocks == old(blocks) && mem[..] == old(mem[..])
      ensures !old(Refuses(size)) ==>
                && p == old(Chosen(size))
                && blocks == Alloc(old(blocks), RoundUp(size))
                && OnlyHeaders(old(mem[..]), mem[..], old(blocks), blocks)
    {
      hide At, Tiled, OnlyHeaders, Alloc, Split;
      if size == 0 || head == 0 {
        return 0;
      }
      var aligned := RoundUp(size);
      var cur;
      ghost var i;
      cur, i := FindFit(aligned);
      if cur == 0 {
        return 0;
      }
      p := Take(cur, aligned, i);
    }

    /** Walks the list to the first adequate free block. */
    method FindFit(aligned: nat) returns (cur: nat, ghost i: nat)
      requires head != 0 && Valid()
      ensures i == FirstFit(blocks, aligned)
      ensures var fit := FirstFit(blocks, aligned); cur == if fit < |blocks| then blocks[fit].addr else 0
      ensures cur == 0 <==> FirstFit(blocks, aligned) == |blocks|
    {
      hide At, Tiled, FirstFit;
      cur, i := head, 0;
      FirstAddress(mem[..], blocks, head, end);
      while cur != 0
        invariant i <= |blocks| && cur == if i < |blocks| then blocks[i].addr else 0
        invariant i < |blocks| ==> cur != 0
        invariant forall k :: 0 <= k < i ==> !Adequate(blocks[k], aligned)
        decreases |blocks| - i
      {
        HeaderFits(mem[..], blocks, head, end, i);
        var magic := Load(cur, Magic);
        assert magic == HEAP_MAGIC;  // the corruption check never fires
        var used := Load(cur, Used);
        var room := Load(cur, Size);
        if used == 0 && room >= aligned {
          FitFound(blocks, aligned, i);
          return;
        }
        cur := Load(cur, Next);
        NextAddress(mem[..], blocks, head, end, i);
        i := i + 1;
      }
    }

    method Take(blk: nat, size: nat, ghost i: nat) returns (p: nat)
      requires head != 0 && Valid() && i < |blocks| && blocks[i].addr == blk && size % 16 == 0 &&
               FirstFit(blocks, size) == i
      modifies mem, this`blocks
      ensures Valid() && p == blk + 32 && blocks == Alloc(old(blocks), size)
      ensures OnlyHeaders(old(mem[..]), mem[..], old(blocks), blocks)
    {
      hide At, Tiled, OnlyHeaders, Holds;
      ghost var m0, bs := mem[..], blocks;
      MaybeSplit(blk, size, i);
      ghost var m1, bs1 := mem[..], blocks;
      SetUsed(blk, true, i);
      MarkAddresses(bs1, i, true);
      HeadersCompose(m0, m1, mem[..], bs, bs1, blocks);
      p := blk + 32;
    }

    // ----- Release -----

    /** Releases the block at `p`, block `i`, and joins it with its free neighbours.  Panics
        exactly when the header before `p` is not that of a used block; in particular when
        `p` has just been released. */
    method Kfree(p: nat, ghost i: nat) returns (panicked: bool)
      requires Valid() && (p != 0 ==> 32 <= p <= mem.Length)
      requires p != 0 && LooksLive(mem[..], p) ==>
               head != 0 && i < |blocks| && blocks[i].used && blocks[i].addr + 32 == p
      modifies mem, this`blocks
      ensures Valid()
      ensures panicked <==> p != 0 && !LooksLive(old(mem[..]), p)
      ensures p == 0 || panicked ==> blocks == old(blocks) && mem[..] == old(mem[..])
      ensures p != 0 && !panicked ==>
                && blocks == Free(old(blocks), i) && OnlyHeaders(old(mem[..]), mem[..], old(blocks), blocks)
                && !LooksLive(mem[..], p)
    {
      hide At, Tiled, OnlyHeaders, Mark, Merge, Holds;
      if p == 0 {
        return false;
      }
      var magic := Load(p - 32, Magic);
      if magic != HEAP_MAGIC {
        return true;
      }
      var used := Load(p - 32, Used);
      if used == 0 {
        return true;
      }
      Release(p - 32, i);
      panicked := false;
    }

    /** Clears the used flag of block `i`, at `blk`, and joins it with its free neighbours. */
    method Release(blk: nat, ghost i: nat)
      requires Valid() && head != 0 && i < |blocks| && blocks[i].used && blocks[i].addr == blk
      modifies mem, this`blocks
      ensures Valid() && blocks == Free(old(blocks), i) && OnlyHeaders(old(mem[..]), mem[..], old(blocks), blocks)
      ensures !LooksLive(mem[..], blk + 32)
    {
      hide At, Tiled, OnlyHeaders, Mark, Merge, MergeNext, MergePrev, Holds, Addresses, LooksLive, HeaderFor;
      ghost var m0, bs := mem[..], blocks;
      HeaderFits(m0, bs, head, end, i);
      SetUsed(blk, false, i);
      ghost var m1, bs1 := mem[..], blocks;
      MarkAddresses(bs, i, false);
      MarkLength(bs, i, false);
      MarkHeader(bs, i, false, i);
      JoinNext(blk, i);
      ghost var m2, bs2 := mem[..], blocks;
      HeadersCompose(m0, m1, m2, bs, bs1, bs2);
      MergeAddresses(bs1, i);
      JoinPrev(blk, i);
      HeadersCompose(m0, m2, mem[..], bs, bs2, blocks);
      FreedNext(bs, i);
      ReleasedDead(mem[..], bs2, blocks, head, end, i);
    }

    method JoinNext(blk: nat, ghost i: nat)
      requires head != 0 && Valid() && i < |blocks| && blocks[i].addr == blk
      modifies mem, this`blocks
      ensures Valid() && blocks == MergeNext(old(blocks), i) && blocks[i].addr == blk
      ensures OnlyHeaders(old(mem[..]), mem[..], old(blocks), blocks)
    {
      hide At, Tiled, OnlyHeaders;
      SameHeaders(mem[..], blocks);
      HeaderFits(mem[..], blocks, head, end, i);
      NextAddress(mem[..], blocks, head, end, i);
      var next := Load(blk, Next);
      if next != 0 {
        var used := Load(next, Used);
        if used == 0 {
          var magic := Load(next, Magic);
          assert magic == HEAP_MAGIC;
          Join(blk, next, i);
        }
      }
    }

    method JoinPrev(blk: nat, ghost i: nat)
      requires head != 0 && Valid() && i < |blocks| && blocks[i].addr == blk
      modifies mem, this`blocks
      ensures Valid() && blocks == MergePrev(old(blocks), i)
      ensures i > 0 && !old(blocks[i - 1].used) ==> blk + 32 <= mem.Length && At(mem[..], blk).magic == 0
      ensures OnlyHeaders(old(mem[..]), mem[..], old(blocks), blocks)
    {
      hide At, Tiled, OnlyHeaders, Merge;
      SameHeaders(mem[..], blocks);
      HeaderFits(mem[..], blocks, head, end, i);
      if i > 0 {
        HeaderFits(mem[..], blocks, head, end, i - 1);
      }
      var prev := Load(blk, Prev);
      if prev != 0 {
        var used := Load(prev, Used);
        if used == 0 {
          var magic := Load(prev, Magic);
          assert magic == HEAP_MAGIC;
          Join(prev, blk, i - 1);
        }
      }
    }

    // ----- Contents -----

    method Zero(a: nat, n: nat)
      requires a + n <= mem.Length
      modifies mem
      ensures forall x :: a <= x < a + n ==> mem[x] == 0
      ensures forall x :: 0 <= x < mem.Length && !InRange(x, a, n) ==> mem[x] == old(mem[x])
    {
      var k := 0;
      while k < n
        invariant 0 <= k <= n
        invariant forall x :: a <= x < a + k ==> mem[x] == 0
        invariant forall x :: 0 <= x < mem.Length && !(a <= x < a + k) ==> mem[x] == old(mem[x])
      {
        mem[a + k] := 0;
        k := k + 1;
      }
    }

    method Copy(dst: nat, src: nat, n: nat)
      requires dst + n <= mem.Length && src + n <= mem.Length && (dst + n <= src || src + n <= dst)
      modifies mem
      ensures Copied(old(mem[..]), mem[..], src, dst, n)
      ensures forall x :: 0 <= x < mem.Length && !InRange(x, dst, n) ==> mem[x] == old(mem[x])
    {
      ghost var m := mem[..];
      var k := 0;
      while k < n
        invariant 0 <= k <= n
        invariant forall x :: dst <= x < dst + k ==> mem[x] == m[x - dst + src]
        invariant forall x :: 0 <= x < mem.Length && !(dst <= x < dst + k) ==> mem[x] == m[x]
      {
        mem[dst + k] := mem[src + k];
        k := k + 1;
      }
    }

    /** `kmalloc` of the product, in `u64` arithmetic, with the bytes zeroed. */
    method Kcalloc(count: nat, size: nat) returns (p: nat)
      requires Valid() && count * size % 0x1_0000_0000_0000_0000 <= 0xFFFF_FFFF_FFFF_FFF0
      modifies mem, this`blocks
      ensures Valid()
      ensures var total := count * size % 0x1_0000_0000_0000_0000;
        && (p == 0 <==> old(Refuses(total)))
        && (p == 0 ==> blocks == old(blocks) && mem[..] == old(mem[..]))
        && (p != 0 ==>
            && p == old(Chosen(total)) && blocks == Alloc(old(blocks), RoundUp(total))
            && p + total <= mem.Length && forall x :: p <= x < p + total ==> mem[x] == 0)
      ensures OthersKept(old(mem[..]), mem[..], old(blocks), blocks, 0)
    {
      hide At, Tiled, OnlyHeaders, Alloc, OthersKept, Holds;
      ghost var m0, bs := mem[..], blocks;
      var total := count * size % 0x1_0000_0000_0000_0000;
      p := Kmalloc(total);
      if p == 0 {
        OthersSame(m0, bs);
        return;
      }
      ghost var m1, b := mem[..], Block(p - 32, RoundUp(total), true);
      b := AllocBlock(m0, m1, bs, head, end, RoundUp(total));
      RoundUpEnough(total);
      Zero(p, total);
      PayloadWritten(m1, mem[..], blocks, head, end, b);
      AllocOthers(m0, m1, mem[..], bs, head, end, RoundUp(total), b);
    }

    /** Grows or shrinks live block `i`.  The first bytes survive, whether the block stays or
        moves; on failure nothing changes. */
    method Krealloc(p: nat, newSize: nat, ghost i: nat) returns (q: nat)
      requires Valid() && newSize < 0x1_0000_0000_0000_0000
      requires p != 0 ==> head != 0 && i < |blocks| && blocks[i].used && blocks[i].addr + 32 == p
      modifies mem, this`blocks
      ensures Valid()
      ensures p == 0 ==>
                if old(Refuses(newSize)) then q == 0 && blocks == old(blocks)
                else q == old(Chosen(newSize)) && blocks == Alloc(old(blocks), RoundUp(newSize))
      ensures p != 0 && newSize == 0 ==> q == 0 && blocks == Free(old(blocks), i)
      ensures p != 0 && newSize != 0 ==>
                if RoundUp(newSize) <= old(blocks[i].size)
                then q == p && Stayed(old(mem[..]), mem[..], old(blocks), blocks, i, RoundUp(newSize))
                else if old(Refuses(newSize)) then q == 0 && blocks == old(blocks) && mem[..] == old(mem[..])
                else Moved(old(mem[..]), mem[..], old(blocks), blocks, i, RoundUp(newSize), q)
      ensures OthersKept(old(mem[..]), mem[..], old(blocks), blocks, if p == 0 then 0 else p - 32)
    {
      hide At, Tiled, OnlyHeaders, Alloc, Split, Free, OthersKept, Holds, Moved;
      ghost var m0, bs := mem[..], blocks;
      if p == 0 {
        q := Kmalloc(newSize);
        if q == 0 {
          OthersSame(m0, bs);
        } else {
          AllocKeeps(m0, mem[..], bs, head, end, RoundUp(newSize));
        }
        return;
      }
      if newSize == 0 {
        LiveLooks(m0, bs, head, end, i);
        var panicked := Kfree(p, i);
        FreeKeeps(m0, mem[..], bs, head, end, i);
        return 0;
      }
      var blk := p - 32;
      HeaderAt(m0, bs, head, end, i);
      var magic := Load(blk, Magic);
      assert magic == HEAP_MAGIC;  // the corruption check never fires
      var aligned := RoundUp(newSize);
      var room := Load(blk, Size);
      if aligned <= room {
        RoundUpAligned(newSize);
        MaybeSplit(blk, aligned, i);
        SplitKeeps(m0, mem[..], bs, head, end, i, aligned);
        return p;
      }
      q := Kmalloc(newSize);
      if q == 0 {
        OthersSame(m0, bs);
        return;
      }
      Move(p, q, room, i, m0, bs, aligned);
    }

    /** Copies the payload of block `i` of the list before allocation to the new block, and frees the old one. */
    method Move(p: nat, q: nat, size: nat, ghost i: nat, ghost m0: Bytes, ghost bs: Blocks, ghost n: nat)
      requires head != 0 && Valid() && Holds(m0, bs, head, end) && i < |bs| && bs[i].used && bs[i].addr + 32 == p &&
               bs[i].size == size
      requires n % 16 == 0 && size < n && FirstFit(bs, n) < |bs| && q == bs[FirstFit(bs, n)].addr + 32
      requires blocks == Alloc(bs, n) && OnlyHeaders(m0, mem[..], bs, blocks)
      modifies mem, this`blocks
      ensures Valid() && Moved(m0, mem[..], bs, blocks, i, n, q)
      ensures OthersKept(m0, mem[..], bs, blocks, p - 32)
    {
      hide At, Tiled, OnlyHeaders, Alloc, Free, OthersKept, Holds, FirstFit, Copied;
      SameLength(m0, mem[..], bs, blocks);
      ghost var m1, bs1 := mem[..], blocks;
      ghost var b := AllocBlock(m0, m1, bs, head, end, n);
      ghost var j := MovedFrom(m0, m1, bs, head, end, n, i, b);
      Copy(q, p, size);
      ghost var m2 := mem[..];
      PayloadWritten(m1, m2, bs1, head, end, b);
      AllocOthers(m0, m1, m2, bs, head, end, n, b);
      LiveLooks(m2, bs1, head, end, j);
      var panicked := Kfree(p, j);
      AllocKeeps(m0, m1, bs, head, end, n);
      MoveKept(m0, m1, bs, bs1, head, end, i);
      MoveDone(m0, m1, m2, mem[..], bs, bs1, blocks, head, end, i, j, b);
    }
  }

  // ----- Contents of live blocks -----

  /** `n` bytes at `src` of `m` are now at `dst` of `m'`. */
  ghost predicate Copied(m: Bytes, m': Bytes, src: nat, dst: nat, n: nat) {
    src + n <= |m| && dst + n <= |m'| && forall x :: dst <= x < dst + n ==> m'[x] == m[x - dst + src]
  }

  /** Block `i` was cut to `n` bytes in place, if at all, and keeps its first `n` bytes. */
  ghost predicate Stayed(m: Bytes, m': Bytes, bs: Blocks, bs': Blocks, i: nat, n: nat) {
    i < |bs| && bs' == Split(bs, i, n) && SameBytes(m, m', bs[i].addr + 32, n)
  }

  /** Block `i` was allocated anew with `n` bytes at `q`, copied there, and released. */
  ghost predicate Moved(m: Bytes, m': Bytes, bs: Blocks, bs': Blocks, i: nat, n: nat, q: nat) {
    && i < |bs| && FirstFit(bs, n) < |bs| && q == bs[FirstFit(bs, n)].addr + 32
    && (exists j: nat :: j < |Alloc(bs, n)| && Alloc(bs, n)[j] == bs[i] && bs' == Free(Alloc(bs, n), j))
    && Copied(m, m', bs[i].addr + 32, q, bs[i].size)
  }

  lemma SameLength(m: Bytes, m': Bytes, bs: Blocks, bs': Blocks)
    requires OnlyHeaders(m, m', bs, bs')
    ensures |m'| == |m|
  {
  }

  /** Every live block other than the one at `a` is still there, with the same bytes. */
  ghost predicate OthersKept(m: Bytes, m': Bytes, bs: Blocks, bs': Blocks, a: nat) {
    forall b :: b in bs && b.used && b.addr != a ==> b in bs' && SameBytes(m, m', b.addr + 32, b.size)
  }

  lemma OthersSame(m: Bytes, bs: Blocks)
    ensures forall a: nat :: OthersKept(m, m, bs, bs, a)
  {
  }

  /** When only headers change and the live blocks stay, their contents stay. */
  lemma HeadersKeepOthers(m: Bytes, m': Bytes, bs: Blocks, bs': Blocks, start: nat, end: nat, a: nat)
    requires Tiled(bs, start, end) && Tiled(bs', start, end) && OnlyHeaders(m, m', bs, bs') && LiveKept(bs, bs', a)
    ensures OthersKept(m, m', bs, bs', a)
  {
    hide Tiled, OnlyHeaders;
    forall b | b in bs && b.used && b.addr != a
      ensures b in bs' && SameBytes(m, m', b.addr + 32, b.size)
    {
      PayloadKept(m, m', bs, bs', start, end, b, b);
    }
  }

  lemma AllocKeeps(m: Bytes, m': Bytes, bs: Blocks, start: nat, end: nat, n: nat)
    requires Holds(m, bs, start, end) && FirstFit(bs, n) < |bs| && Holds(m', Alloc(bs, n), start, end) &&
             OnlyHeaders(m, m', bs, Alloc(bs, n))
    ensures OthersKept(m, m', bs, Alloc(bs, n), 0)
  {
    hide Tiled, OnlyHeaders, Alloc, LiveKept, OthersKept;
    AllocLive(bs, n);
    HeadersKeepOthers(m, m', bs, Alloc(bs, n), start, end, 0);
  }

  lemma FreeKeeps(m: Bytes, m': Bytes, bs: Blocks, start: nat, end: nat, i: nat)
    requires Holds(m, bs, start, end) && i < |bs| && Holds(m', Free(bs, i), start, end) &&
             OnlyHeaders(m, m', bs, Free(bs, i))
    ensures OthersKept(m, m', bs, Free(bs, i), bs[i].addr)
  {
    hide Tiled, OnlyHeaders, Free, LiveKept, OthersKept;
    FreeLive(bs, i);
    HeadersKeepOthers(m, m', bs, Free(bs, i), start, end, bs[i].addr);
  }

  lemma SplitKeeps(m: Bytes, m': Bytes, bs: Blocks, start: nat, end: nat, i: nat, n: nat)
    requires Holds(m, bs, start, end) && i < |bs| && n <= bs[i].size && Holds(m', Split(bs, i, n), start, end) &&
             OnlyHeaders(m, m', bs, Split(bs, i, n))
    ensures OthersKept(m, m', bs, Split(bs, i, n), bs[i].addr)
    ensures SameBytes(m, m', bs[i].addr + 32, n)
  {
    hide Tiled, OnlyHeaders, LiveKept, OthersKept;
    SplitLive(bs, i, n);
    HeadersKeepOthers(m, m', bs, Split(bs, i, n), start, end, bs[i].addr);
    var b' := Split(bs, i, n)[i];
    PayloadKept(m, m', bs, Split(bs, i, n), start, end, bs[i], b');
  }

  lemma LiveLooks(m: Bytes, bs: Blocks, start: nat, end: nat, i: nat)
    requires Holds(m, bs, start, end) && i < |bs| && bs[i].used
    ensures bs[i].addr + 32 <= |m| && LooksLive(m, bs[i].addr + 32)
  {
    hide Tiled;
  }

  /** After its block was released, a pointer no longer looks live. */
  lemma ReleasedDead(m: Bytes, bs: Blocks, bs': Blocks, start: nat, end: nat, i: nat)
    requires i < |bs| && !bs[i].used && bs' == MergePrev(bs, i) && Holds(m, bs', start, end)
    requires i > 0 && !bs[i - 1].used ==> bs[i].addr + 32 <= |m| && At(m, bs[i].addr).magic == 0
    ensures !LooksLive(m, bs[i].addr + 32)
  {
    hide Tiled, Merge;
    if i == 0 || bs[i - 1].used {
      assert At(m, bs'[i].addr) == HeaderFor(bs', i);
    }
  }

  lemma HeaderAt(m: Bytes, bs: Blocks, start: nat, end: nat, i: nat)
    requires Holds(m, bs, start, end) && i < |bs|
    ensures bs[i].addr + 32 <= |m| && At(m, bs[i].addr).magic == HEAP_MAGIC && At(m, bs[i].addr).size == bs[i].size
  {
  }

  /** The block that an allocation hands out. */
  lemma AllocBlock(m: Bytes, m': Bytes, bs: Blocks, start: nat, end: nat, n: nat) returns (b: Block)
    requires Holds(m, bs, start, end) && FirstFit(bs, n) < |bs| && Holds(m', Alloc(bs, n), start, end)
    ensures b in Alloc(bs, n) && b.used && b.addr == bs[FirstFit(bs, n)].addr && b.size >= n
    ensures start <= b.addr && End(b) <= |m'| && 0 < start
  {
    hide At, HeaderFor, Tiled;
    b := AllocAt(bs, n);
    Inside(Alloc(bs, n), start, end, FirstFit(bs, n));
  }

  ghost predicate OnlyPayload(m: Bytes, m': Bytes, b: Block) {
    |m'| == |m| && forall x :: 0 <= x < |m| && !InRange(x, b.addr + 32, b.size) ==> m'[x] == m[x]
  }

  /** Writing into a payload leaves the block list alone. */
  lemma PayloadWritten(m: Bytes, m': Bytes, bs: Blocks, start: nat, end: nat, b: Block)
    requires Holds(m, bs, start, end) && b in bs && OnlyPayload(m, m', b)
    ensures Holds(m', bs, start, end)
  {
    hide At, Tiled, HeaderFor;
    forall i | 0 <= i < |bs|
      ensures At(m', bs[i].addr) == At(m, bs[i].addr)
    {
      forall x | 0 <= x < |m| && InRange(x, bs[i].addr, 32)
        ensures m'[x] == m[x]
      {
        if InRange(x, b.addr + 32, b.size) {
          PayloadApart(bs, start, end, b, x);
        }
      }
      SameHeader(m, m', bs[i].addr);
    }
  }

  lemma AllocOthers(m0: Bytes, m1: Bytes, m2: Bytes, bs: Blocks, start: nat, end: nat, n: nat, b: Block)
    requires Holds(m0, bs, start, end) && FirstFit(bs, n) < |bs| && Holds(m1, Alloc(bs, n), start, end) &&
             OnlyHeaders(m0, m1, bs, Alloc(bs, n))
    requires b in Alloc(bs, n) && b.addr == bs[FirstFit(bs, n)].addr && OnlyPayload(m1, m2, b)
    ensures OthersKept(m0, m2, bs, Alloc(bs, n), 0)
  {
    hide OnlyHeaders, Alloc, Tiled, At;
    AllocKeeps(m0, m1, bs, start, end, n);
    forall c | c in bs && c.used && c.addr != 0
      ensures SameBytes(m0, m2, c.addr + 32, c.size)
    {
      TakenIsOther(bs, start, end, n, b, c);
      OtherPayload(Alloc(bs, n), start, end, b, c, m1, m2);
    }
  }

  /** The block handed out was free, so it is none of the live ones. */
  lemma TakenIsOther(bs: Blocks, start: nat, end: nat, n: nat, b: Block, c: Block)
    requires Tiled(bs, start, end) && FirstFit(bs, n) < |bs| && c in bs && c.used && b.addr == bs[FirstFit(bs, n)].addr
    ensures b.addr != c.addr
  {
    var i := FirstFit(bs, n);
    var k :| 0 <= k < |bs| && bs[k] == c;
    FarApart(bs, start, end, i, k);
  }

  lemma OtherPayload(bs: Blocks, start: nat, end: nat, b: Block, c: Block, m: Bytes, m': Bytes)
    requires Tiled(bs, start, end) && b in bs && c in bs && b.addr != c.addr && OnlyPayload(m, m', b)
    ensures SameBytes(m, m', c.addr + 32, c.size)
  {
    var i :| 0 <= i < |bs| && bs[i] == b;
    var j :| 0 <= j < |bs| && bs[j] == c;
    forall x | 0 <= x < |m| && InRange(x, c.addr + 32, c.size)
      ensures m'[x] == m[x]
    {
      PayloadsDisjoint(bs, start, end, j, i, x);
    }
  }

  /** Where the old block is in the list after allocation, and that the new one is apart from it. */
  lemma MovedFrom(m: Bytes, m': Bytes, bs: Blocks, start: nat, end: nat, n: nat, i: nat, b: Block) returns (j: nat)
    requires Holds(m, bs, start, end) && FirstFit(bs, n) < |bs| && Holds(m', Alloc(bs, n), start, end) && |m'| == |m|
    requires i < |bs| && bs[i].used && b in Alloc(bs, n) && b.addr == bs[FirstFit(bs, n)].addr &&
             bs[i].size < n <= b.size
    ensures j < |Alloc(bs, n)| && Alloc(bs, n)[j] == bs[i] && bs[i].addr != b.addr && bs[i].addr != 0
    ensures End(bs[i]) <= |m| && End(b) <= |m| &&
            (b.addr + 32 + bs[i].size <= bs[i].addr + 32 || End(bs[i]) <= b.addr + 32)
  {
    hide Alloc, At, HeaderFor, Tiled;
    AllocLive(bs, n);
    Inside(bs, start, end, i);
    TakenIsOther(bs, start, end, n, b, bs[i]);
    var r := Alloc(bs, n);
    j :| 0 <= j < |r| && r[j] == bs[i];
    var k :| 0 <= k < |r| && r[k] == b;
    Inside(r, start, end, k);
    if j < k {
      Ordered(r, start, end, j, k);
    } else {
      Ordered(r, start, end, k, j);
    }
  }

  lemma MoveKept(m: Bytes, m': Bytes, bs: Blocks, bs': Blocks, start: nat, end: nat, i: nat)
    requires Holds(m, bs, start, end) && OthersKept(m, m', bs, bs', 0) && i < |bs| && bs[i].used
    ensures SameBytes(m, m', bs[i].addr + 32, bs[i].size) && Tiled(bs, start, end) && 0 < start
  {
    hide At, HeaderFor, SameBytes, Tiled;
    Inside(bs, start, end, i);
  }

  lemma MoveDone(m0: Bytes, m1: Bytes, m2: Bytes, m3: Bytes, bs: Blocks, bs1: Blocks, bs3: Blocks, start: nat,
                 end: nat, i: nat, j: nat, b: Block)
    requires Tiled(bs, start, end) && |m0| == |m1| == |m2| == |m3| && i < |bs| && j < |bs1| && bs1[j] == bs[i] &&
             bs3 == Free(bs1, j)
    requires Holds(m2, bs1, start, end) && Holds(m3, bs3, start, end) && OnlyHeaders(m2, m3, bs1, bs3)
    requires OthersKept(m0, m2, bs, bs1, 0) && b in bs1 && b.used && b.addr != bs[i].addr && bs[i].size <= b.size &&
             End(b) <= |m2|
    requires SameBytes(m0, m1, bs[i].addr + 32, bs[i].size) && 0 < start
    requires Copied(m1, m2, bs[i].addr + 32, b.addr + 32, bs[i].size)
    ensures Copied(m0, m3, bs[i].addr + 32, b.addr + 32, bs[i].size)
    ensures OthersKept(m0, m3, bs, bs3, bs[i].addr)
  {
    hide OnlyHeaders, Free, Holds, Tiled;
    FreeKeeps(m2, m3, bs1, start, end, j);
    CopyKept(m0, m1, m2, m3, bs[i].addr + 32, b.addr + 32, bs[i].size, b.size);
    OthersChain(m0, m2, m3, bs, bs1, bs3, start, end, bs[i].addr);
  }

  lemma CopyKept(m0: Bytes, m1: Bytes, m2: Bytes, m3: Bytes, p: nat, q: nat, n: nat, room: nat)
    requires SameBytes(m0, m1, p, n) && Copied(m1, m2, p, q, n) && SameBytes(m2, m3, q, room) && n <= room
    ensures Copied(m0, m3, p, q, n)
  {
  }

  lemma OthersChain(m0: Bytes, m2: Bytes, m3: Bytes, bs: Blocks, bs1: Blocks, bs3: Blocks, start: nat, end: nat, a: nat)
    requires Tiled(bs, start, end) && 0 < start && OthersKept(m0, m2, bs, bs1, 0) && OthersKept(m2, m3, bs1, bs3, a)
    ensures OthersKept(m0, m3, bs, bs3, a)
  {
    hide Tiled;
    forall c | c in bs && c.used && c.addr != a
      ensures c in bs3 && SameBytes(m0, m3, c.addr + 32, c.size)
    {
      var k :| 0 <= k < |bs| && bs[k] == c;
      Inside(bs, start, end, k);
    }
  }

  // ----- Proof steps -----

  lemma FirstAddress(m: Bytes, bs: Blocks, start: nat, end: nat)
    requires Holds(m, bs, start, end)
    ensures bs != [] && bs[0].addr == start
  {
  }

  lemma NextAddress(m: Bytes, bs: Blocks, start: nat, end: nat, i: nat)
    requires Holds(m, bs, start, end) && i < |bs|
    ensures i + 1 < |bs| ==>
              bs[i + 1].addr != 0 && bs[i + 1].addr + 32 <= |m| && At(m, bs[i + 1].addr) == HeaderFor(bs, i + 1)
  {
    if i + 1 < |bs| {
      Inside(bs, start, end, i + 1);
    }
  }

  lemma FitFound(bs: Blocks, n: nat, i: nat)
    requires i < |bs| && Adequate(bs[i], n) && forall k :: 0 <= k < i ==> !Adequate(bs[k], n)
    ensures FirstFit(bs, n) == i
  {
  }

  lemma OneHeader(m: Bytes, m': Bytes, bs: Blocks, start: nat, end: nat, i: nat)
    requires Holds(m, bs, start, end) && i < |bs| && OnlyAt(m, m', bs[i].addr)
    ensures forall k :: 0 <= k < |bs| && k != i ==> At(m', bs[k].addr) == At(m, bs[k].addr)
  {
    hide At;
    forall k | 0 <= k < |bs| && k != i
      ensures At(m', bs[k].addr) == At(m, bs[k].addr)
    {
      FarApart(bs, start, end, i, k);
      KeptHeader(m, m', bs[i].addr, bs[k].addr);
    }
  }

  lemma HeaderTouched(m: Bytes, m': Bytes, bs: Blocks, bs': Blocks, i: nat)
    requires i < |bs| && OnlyAt(m, m', bs[i].addr)
    ensures OnlyHeaders(m, m', bs, bs')
  {
    forall x | 0 <= x < |m| && !InHeader(bs, x)
      ensures m'[x] == m[x]
    {
      assert !InRange(x, bs[i].addr, 32);
    }
  }

  ghost function Addresses(bs: Blocks): set<nat> {
    set i | 0 <= i < |bs| :: bs[i].addr
  }

  lemma HeadersCompose(m0: Bytes, m1: Bytes, m2: Bytes, bs0: Blocks, bs1: Blocks, bs2: Blocks)
    requires OnlyHeaders(m0, m1, bs0, bs1) && OnlyHeaders(m1, m2, bs1, bs2) &&
             Addresses(bs1) <= Addresses(bs0) + Addresses(bs2)
    ensures OnlyHeaders(m0, m2, bs0, bs2)
  {
    forall x | 0 <= x < |m0| && !InHeader(bs0, x) && !InHeader(bs2, x)
      ensures m2[x] == m0[x]
    {
      forall i | 0 <= i < |bs1|
        ensures !InRange(x, bs1[i].addr, 32)
      {
        assert bs1[i].addr in Addresses(bs1);
        if bs1[i].addr in Addresses(bs0) {
          var k :| 0 <= k < |bs0| && bs0[k].addr == bs1[i].addr;
        } else {
          var k :| 0 <= k < |bs2| && bs2[k].addr == bs1[i].addr;
        }
      }
    }
  }

  lemma MarkAddresses(bs: Blocks, i: nat, used: bool)
    requires i < |bs|
    ensures Addresses(Mark(bs, i, used)) == Addresses(bs)
  {
    var r := Mark(bs, i, used);
    assert forall k :: 0 <= k < |bs| ==> r[k].addr == bs[k].addr;
    forall a | a in Addresses(bs)
      ensures a in Addresses(r)
    {
      var k :| 0 <= k < |bs| && bs[k].addr == a;
      assert r[k].addr == a;
    }
  }

  lemma FreedNext(bs: Blocks, i: nat)
    requires i < |bs|
    ensures i < |Mark(bs, i, false)| && !MergeNext(Mark(bs, i, false), i)[i].used
  {
  }

  lemma MergeAddresses(bs: Blocks, i: nat)
    requires i < |bs|
    ensures Addresses(MergeNext(bs, i)) <= Addresses(bs)
  {
    var r := MergeNext(bs, i);
    forall a | a in Addresses(r)
      ensures a in Addresses(bs)
    {
      var k :| 0 <= k < |r| && r[k].addr == a;
      assert bs[if |r| < |bs| && k > i then k + 1 else k].addr == a;
    }
  }

  lemma JoinFits(m: Bytes, bs: Blocks, start: nat, end: nat, i: nat)
    requires Holds(m, bs, start, end) && i + 1 < |bs|
    ensures bs[i].addr + 32 <= bs[i + 1].addr && bs[i + 1].addr + 32 <= |m|
    ensures bs[i].size + 32 + bs[i + 1].size < 0x1_0000_0000_0000_0000
    ensures i + 2 < |bs| ==> bs[i + 1].addr + 32 <= bs[i + 2].addr && bs[i + 2].addr + 32 <= |m| && bs[i + 2].addr != 0
  {
    Ordered(bs, start, end, i, i + 1);
    Inside(bs, start, end, i + 1);
    assert bs[i + 1].addr == End(bs[i]);
    if i + 2 < |bs| {
      Ordered(bs, start, end, i + 1, i + 2);
      Inside(bs, start, end, i + 2);
    }
  }

  lemma MergeDone(m: Bytes, m': Bytes, bs: Blocks, start: nat, end: nat, i: nat)
    requires Holds(m, bs, start, end) && i + 1 < |bs| && |m'| == |m|
    requires var a, b, next := bs[i].addr, bs[i + 1].addr, HeaderFor(bs, i + 1).next;
      && Changed(m, m', Links(a, b, next))
      && At(m', a) == At(m, a).(next := next, size := bs[i].size + 32 + bs[i + 1].size)
      && (next != 0 ==> next + 32 <= |m| && At(m', next) == At(m, next).(prev := a))
    ensures Holds(m', Merge(bs, i), start, end) && OnlyHeaders(m, m', bs, Merge(bs, i))
  {
    hide At, Tiled, Changed, OnlyHeaders, Merge;
    forall k | 0 <= k < |bs| && k != i && k != i + 1 && k != i + 2
      ensures At(m', bs[k].addr) == At(m, bs[k].addr)
    {
      MergeSpares(m, m', bs, start, end, i, k);
    }
    JoinFits(m, bs, start, end, i);
    MergeHolds(m, m', bs, start, end, i);
    ChangedHeaders(m, m', Links(bs[i].addr, bs[i + 1].addr, HeaderFor(bs, i + 1).next), bs, Merge(bs, i));
  }

  lemma MergeSpares(m: Bytes, m': Bytes, bs: Blocks, start: nat, end: nat, i: nat, k: nat)
    requires Tiled(bs, start, end) && i + 1 < |bs| && k < |bs| && k != i && k != i + 1 && k != i + 2 &&
             bs[k].addr + 32 <= |m|
    requires Changed(m, m', Links(bs[i].addr, bs[i + 1].addr, HeaderFor(bs, i + 1).next))
    ensures At(m', bs[k].addr) == At(m, bs[k].addr)
  {
    hide At, Tiled, Changed;
    FarApart(bs, start, end, i, k);
    FarApart(bs, start, end, i + 1, k);
    if i + 2 < |bs| {
      FarApart(bs, start, end, i + 2, k);
    }
    UnchangedHeader(m, m', Links(bs[i].addr, bs[i + 1].addr, HeaderFor(bs, i + 1).next), bs[k].addr);
  }

  function Links(blk: nat, a: nat, next: nat): set<nat> {
    {a, blk} + if next != 0 then {next} else {}
  }

  lemma NoChange(m: Bytes)
    ensures Changed(m, m, {})
  {
  }

  lemma SameHeaders(m: Bytes, bs: Blocks)
    ensures OnlyHeaders(m, m, bs, bs)
  {
  }

  lemma SplitDone(m: Bytes, m': Bytes, bs: Blocks, start: nat, end: nat, i: nat, n: nat)
    requires Holds(m, bs, start, end) && i < |bs| && n % 16 == 0 && bs[i].size >= n + 48 && |m'| == |m|
    requires var b, a, next := bs[i], bs[i].addr + 32 + n, HeaderFor(bs, i).next;
      && a + 32 <= |m|
      && Changed(m, m', Links(b.addr, a, next))
      && At(m', a) == Header(HEAP_MAGIC, 0, b.size - (32 + n), b.addr, next)
      && At(m', b.addr) == At(m, b.addr).(next := a, size := n)
      && (next != 0 ==> next + 32 <= |m| && At(m', next) == At(m, next).(prev := a))
    ensures Holds(m', Split(bs, i, n), start, end) && OnlyHeaders(m, m', bs, Split(bs, i, n))
  {
    hide At, Tiled, Fits, Changed, OnlyHeaders;
    var b, a, next := bs[i], bs[i].addr + 32 + n, HeaderFor(bs, i).next;
    NewFits(m, bs, start, end, i, n);
    forall k | 0 <= k < |bs| && k != i && k != i + 1
      ensures At(m', bs[k].addr) == At(m, bs[k].addr)
    {
      SplitFarFrom(bs, start, end, i, n, k);
      UnchangedHeader(m, m', Links(b.addr, a, next), bs[k].addr);
    }
    SplitHolds(m, m', bs, start, end, i, n);
    SplitTouches(m, m', bs, i, n);
  }

  lemma SplitTouches(m: Bytes, m': Bytes, bs: Blocks, i: nat, n: nat)
    requires i < |bs| && bs[i].size >= n + 48 &&
             Changed(m, m', Links(bs[i].addr, bs[i].addr + 32 + n, HeaderFor(bs, i).next))
    ensures OnlyHeaders(m, m', bs, Split(bs, i, n))
  {
    hide Changed, OnlyHeaders;
    var r := Split(bs, i, n);
    assert r[i + 1].addr == bs[i].addr + 32 + n;
    ChangedHeaders(m, m', Links(bs[i].addr, bs[i].addr + 32 + n, HeaderFor(bs, i).next), bs, r);
  }

  /** The header that a split puts into block `i` overlaps no header. */
  lemma SplitFar(bs: Blocks, start: nat, end: nat, i: nat, n: nat)
    requires Tiled(bs, start, end) && i < |bs| && bs[i].size >= n + 48
    ensures var a := bs[i].addr + 32 + n;
      a + 32 <= end && (i + 1 < |bs| ==> a + 32 <= bs[i + 1].addr && bs[i].addr + 32 <= bs[i + 1].addr)
  {
    Inside(bs, start, end, i);
    if i + 1 < |bs| {
      Ordered(bs, start, end, i, i + 1);
    }
  }

  lemma SplitFarFrom(bs: Blocks, start: nat, end: nat, i: nat, n: nat, k: nat)
    requires Tiled(bs, start, end) && i < |bs| && bs[i].size >= n + 48 && k < |bs| && k != i
    ensures var a, b := bs[i].addr + 32 + n, bs[k].addr;
      && (a + 32 <= b || b + 32 <= a) && (bs[i].addr + 32 <= b || b + 32 <= bs[i].addr)
      && (i + 1 < |bs| && k != i + 1 ==> bs[i + 1].addr + 32 <= b || b + 32 <= bs[i + 1].addr)
  {
    if i < k {
      Ordered(bs, start, end, i, k);
    } else {
      Ordered(bs, start, end, k, i);
    }
    if i + 1 < |bs| && k != i + 1 {
      FarApart(bs, start, end, i + 1, k);
    }
  }

  lemma NewFits(m: Bytes, bs: Blocks, start: nat, end: nat, i: nat, n: nat)
    requires Holds(m, bs, start, end) && i < |bs| && bs[i].size >= n + 48
    ensures Fits(Header(HEAP_MAGIC, 0, bs[i].size - (32 + n), bs[i].addr, HeaderFor(bs, i).next))
    ensures n < 0x1_0000_0000_0000_0000 && bs[i].addr + 32 + n < 0x1_0000_0000_0000_0000
    ensures i + 1 < |bs| ==> bs[i + 1].addr + 32 <= |m| && bs[i + 1].addr > 0
  {
    HeaderFits(m, bs, start, end, i);
    if i + 1 < |bs| {
      HeaderFits(m, bs, start, end, i + 1);
    }
  }

  // ----- A run that does not give the list back -----

  /** These calls on a heap of 288 bytes: `kfree` right after `kmalloc` does not give back the
      block list from before, since the `krealloc` has left a free block next to another. */
  method CutAndFree(h: Heap) returns (ghost before: Blocks, panicked: bool)
    requires h.head == 0 && 4384 <= h.mem.Length <= 0x1_0000_0000_0000_0000
    modifies h, h.mem
    ensures !panicked && h.Valid() && before == CUT && h.blocks == JOINED != CUT
  {
    hide Alloc, Split, Free, FirstFit, OnlyHeaders, OthersKept, Moved, SameBytes, Holds, LooksLive, JOINED;
    assert RoundUp(128) == 128 && RoundUp(64) == 64 && RoundUp(32) == 32;
    hide RoundUp;
    CutAlloc();
    CutTaken();
    CutFreed();
    panicked := h.Init(4096, 288);
    var p := h.Kmalloc(128);
    p := h.Krealloc(p, 64, 0);
    before := h.blocks;
    var q := h.Kmalloc(32);
    LiveLooks(h.mem[..], h.blocks, h.head, h.end, 1);
    panicked := h.Kfree(q, 1);
    CutLonger();
  }

  lemma CutLonger()
    ensures |JOINED| < |CUT|
  {
  }
}
