/** The heap's block list as a sequence: what the operations of kernel/arch/x86_64/mm/heap.c do
    to it, and what holds of it in every run. */
module HeapBlocks {

  datatype Block = Block(addr: nat, size: nat, used: bool)

  type Blocks = seq<Block>

  function End(b: Block): nat { b.addr + 32 + b.size }

  /** The blocks cover `[start, end)` without gaps or overlaps, and are 16-aligned. */
  ghost predicate Tiled(bs: Blocks, start: nat, end: nat) {
    && bs != [] && bs[0].addr == start && End(bs[|bs| - 1]) == end
    && (forall i :: 0 <= i < |bs| - 1 ==> bs[i + 1].addr == End(bs[i]))
    && (forall i :: 0 <= i < |bs| ==> bs[i].addr % 16 == 0)
  }

  /** A block ends before every later block starts. */
  lemma {:induction false} Ordered(bs: Blocks, start: nat, end: nat, i: nat, j: nat)
    requires Tiled(bs, start, end) && i < j < |bs|
    ensures End(bs[i]) <= bs[j].addr
    decreases j - i
  {
    if i + 1 < j {
      Ordered(bs, start, end, i, j - 1);
      assert bs[j - 1 + 1].addr == End(bs[j - 1]);
    } else {
      assert bs[i + 1].addr == End(bs[i]);
    }
  }

  lemma Inside(bs: Blocks, start: nat, end: nat, i: nat)
    requires Tiled(bs, start, end) && i < |bs|
    ensures start <= bs[i].addr && End(bs[i]) <= end
  {
    if i > 0 {
      Ordered(bs, start, end, 0, i);
    }
    if i < |bs| - 1 {
      Ordered(bs, start, end, i, |bs| - 1);
    }
  }

  // ----- The operations -----

  /** Requests are rounded up to 16 bytes, in `u64` arithmetic. */
  function RoundUp(n: nat): nat {
    (n + 15) % 0x1_0000_0000_0000_0000 / 16 * 16
  }

  /** The rounded size is the next multiple of 16, exactly when the addition does not wrap. */
  lemma RoundUpEnough(n: nat)
    requires n < 0x1_0000_0000_0000_0000
    ensures RoundUp(n) >= n <==> n <= 0xFFFF_FFFF_FFFF_FFF0
    ensures RoundUp(n) % 16 == 0
    ensures if n <= 0xFFFF_FFFF_FFFF_FFF0 then RoundUp(n) < n + 16 else RoundUp(n) == 0
  {
  }

  lemma RoundUpAligned(n: nat)
    ensures RoundUp(n) % 16 == 0
  {
  }

  predicate Adequate(b: Block, n: nat) { !b.used && b.size >= n }

  /** The index of the first free block of at least `n` bytes; `|bs|` if there is none. */
  function FirstFit(bs: Blocks, n: nat): (i: nat)
    ensures i <= |bs|
    ensures i < |bs| ==> Adequate(bs[i], n)
    ensures forall k :: 0 <= k < i ==> !Adequate(bs[k], n)
  {
    if bs == [] then 0
    else if Adequate(bs[0], n) then 0
    else 1 + FirstFit(bs[1..], n)
  }

  /** Cuts block `i` down to `n` bytes if the rest can hold a header and 16 bytes. */
  function Split(bs: Blocks, i: nat, n: nat): Blocks
    requires i < |bs|
  {
    if bs[i].size >= n + 48 then
      bs[..i] + [bs[i].(size := n), Block(bs[i].addr + 32 + n, bs[i].size - (32 + n), false)] + bs[i + 1..]
    else bs
  }

  function Mark(bs: Blocks, i: nat, used: bool): Blocks
    requires i < |bs|
  {
    bs[i := bs[i].(used := used)]
  }

  /** The list after `kmalloc` of a rounded size `n`. */
  function Alloc(bs: Blocks, n: nat): Blocks {
    var i := FirstFit(bs, n);
    if i == |bs| then bs else Mark(Split(bs, i, n), i, true)
  }

  /** Joins block `i` with the one after it. */
  function Merge(bs: Blocks, i: nat): Blocks
    requires i + 1 < |bs|
  {
    bs[..i] + [bs[i].(size := bs[i].size + 32 + bs[i + 1].size)] + bs[i + 2..]
  }

  function MergeNext(bs: Blocks, i: nat): (r: Blocks)
    requires i < |bs|
    ensures i < |r|
  {
    if i + 1 < |bs| && !bs[i + 1].used then Merge(bs, i) else bs
  }

  function MergePrev(bs: Blocks, i: nat): Blocks
    requires i < |bs|
  {
    if i > 0 && !bs[i - 1].used then Merge(bs, i - 1) else bs
  }

  /** The list after `kfree` of block `i`. */
  function Free(bs: Blocks, i: nat): Blocks
    requires i < |bs|
  {
    MergePrev(MergeNext(Mark(bs, i, false), i), i)
  }

  // ----- Every operation keeps the tiling -----

  lemma SplitTiles(bs: Blocks, start: nat, end: nat, i: nat, n: nat)
    requires Tiled(bs, start, end) && i < |bs| && n % 16 == 0
    ensures Tiled(Split(bs, i, n), start, end)
  {
    var r := Split(bs, i, n);
    if bs[i].size >= n + 48 {
      assert |r| == |bs| + 1;
      forall k | 0 <= k < |r|
        ensures r[k].addr % 16 == 0
        ensures k < |r| - 1 ==> r[k + 1].addr == End(r[k])
      {
        if k > i + 1 {
          assert r[k] == bs[k - 1];
        }
        if k >= i + 1 && k < |r| - 1 {
          assert r[k + 1] == bs[k];
          assert bs[k - 1 + 1].addr == End(bs[k - 1]);
        }
        if k < i {
          assert r[k] == bs[k] && bs[k + 1].addr == End(bs[k]);
        }
      }
      if i < |bs| - 1 {
        assert r[|r| - 1] == bs[|bs| - 1];
      }
    }
  }

  lemma MarkTiles(bs: Blocks, start: nat, end: nat, i: nat, used: bool)
    requires Tiled(bs, start, end) && i < |bs|
    ensures Tiled(Mark(bs, i, used), start, end)
  {
    var r := Mark(bs, i, used);
    forall k | 0 <= k < |r| - 1
      ensures r[k + 1].addr == End(r[k])
    {
      assert bs[k + 1].addr == End(bs[k]);
    }
  }

  lemma MergeTiles(bs: Blocks, start: nat, end: nat, i: nat)
    requires Tiled(bs, start, end) && i + 1 < |bs|
    ensures Tiled(Merge(bs, i), start, end)
  {
    var r := Merge(bs, i);
    assert |r| == |bs| - 1;
    assert bs[i + 1].addr == End(bs[i]);
    forall k | 0 <= k < |r|
      ensures r[k].addr % 16 == 0
      ensures k < |r| - 1 ==> r[k + 1].addr == End(r[k])
    {
      if k > i {
        assert r[k] == bs[k + 1];
      }
      if k < |r| - 1 {
        if k >= i {
          assert r[k + 1] == bs[k + 2] && bs[k + 1 + 1].addr == End(bs[k + 1]);
        } else {
          assert bs[k + 1].addr == End(bs[k]);
        }
      }
    }
    if i + 1 < |bs| - 1 {
      assert r[|r| - 1] == bs[|bs| - 1];
    }
  }

  lemma AllocTiles(bs: Blocks, start: nat, end: nat, n: nat)
    requires Tiled(bs, start, end) && n % 16 == 0
    ensures Tiled(Alloc(bs, n), start, end)
  {
    var i := FirstFit(bs, n);
    if i < |bs| {
      SplitTiles(bs, start, end, i, n);
      MarkTiles(Split(bs, i, n), start, end, i, true);
    }
  }

  lemma FreeTiles(bs: Blocks, start: nat, end: nat, i: nat)
    requires Tiled(bs, start, end) && i < |bs|
    ensures Tiled(Free(bs, i), start, end)
  {
    var b1 := Mark(bs, i, false);
    MarkTiles(bs, start, end, i, false);
    var b2 := MergeNext(b1, i);
    if i + 1 < |b1| && !b1[i + 1].used {
      MergeTiles(b1, start, end, i);
    }
    if i > 0 && !b2[i - 1].used {
      MergeTiles(b2, start, end, i - 1);
    }
  }

  // ----- What stays where it is -----

  /** The live blocks. */
  ghost function Live(bs: Blocks): set<Block> { set b | b in bs && b.used }

  /** Every live block of `bs`, except perhaps the one at `a`, is a block of `bs'`. */
  ghost predicate LiveKept(bs: Blocks, bs': Blocks, a: nat) {
    forall b :: b in bs && b.used && b.addr != a ==> b in bs'
  }

  /** Every live block of `bs'`, except perhaps the one at `a`, is a block of `bs`. */
  ghost predicate NoneNew(bs: Blocks, bs': Blocks, a: nat) {
    forall b :: b in bs' && b.used && b.addr != a ==> b in bs
  }

  lemma SplitLive(bs: Blocks, i: nat, n: nat)
    requires i < |bs|
    ensures LiveKept(bs, Split(bs, i, n), bs[i].addr) && NoneNew(bs, Split(bs, i, n), bs[i].addr)
  {
  }

  /** A live block stays, and the one handed out is the only new one. */
  lemma AllocLive(bs: Blocks, n: nat)
    requires FirstFit(bs, n) < |bs|
    ensures Live(bs) <= Live(Alloc(bs, n)) && NoneNew(bs, Alloc(bs, n), bs[FirstFit(bs, n)].addr)
    ensures LiveKept(bs, Alloc(bs, n), 0)
  {
    hide FirstFit, LiveKept, NoneNew;
    var i := FirstFit(bs, n);
    AllocStays(bs, i, n);
    AllocNoneNew(bs, i, n);
    StaysKept(bs, Alloc(bs, n));
  }

  lemma StaysKept(bs: Blocks, bs': Blocks)
    requires Live(bs) <= Live(bs')
    ensures LiveKept(bs, bs', 0)
  {
    assert forall b :: b in bs && b.used ==> b in Live(bs);
  }

  lemma AllocStays(bs: Blocks, i: nat, n: nat)
    requires i < |bs| && !bs[i].used
    ensures i < |Split(bs, i, n)| && Live(bs) <= Live(Mark(Split(bs, i, n), i, true))
  {
    var s := Split(bs, i, n);
    forall b | b in bs && b.used
      ensures b in Mark(s, i, true)
    {
      var k :| 0 <= k < |bs| && bs[k] == b;
      var k' := if k > i && |s| > |bs| then k + 1 else k;
      assert k != i && s[k'] == b && Mark(s, i, true)[k'] == b;
    }
  }

  lemma AllocNoneNew(bs: Blocks, i: nat, n: nat)
    requires i < |bs| && !bs[i].used
    ensures i < |Split(bs, i, n)| && NoneNew(bs, Mark(Split(bs, i, n), i, true), bs[i].addr)
  {
    var s := Split(bs, i, n);
    var r := Mark(s, i, true);
    forall b | b in r && b.used && b.addr != bs[i].addr
      ensures b in bs
    {
      var k :| 0 <= k < |r| && r[k] == b;
      assert r[i].addr == bs[i].addr;
      if |s| > |bs| {
        assert k != i && k != i + 1;
        assert bs[if k > i then k - 1 else k] == b;
      }
    }
  }

  /** The block handed out is live, at the address returned, and large enough. */
  lemma AllocAt(bs: Blocks, n: nat) returns (b: Block)
    requires FirstFit(bs, n) < |bs|
    ensures FirstFit(bs, n) < |Alloc(bs, n)| && b == Alloc(bs, n)[FirstFit(bs, n)]
    ensures b.used && b.addr == bs[FirstFit(bs, n)].addr && b.size >= n
  {
    b := Alloc(bs, n)[FirstFit(bs, n)];
  }

  lemma MergeLive(bs: Blocks, i: nat)
    requires FreePair(bs, i)
    ensures forall b: Block :: b.used ==> (b in bs <==> b in Merge(bs, i))
  {
    var r := Merge(bs, i);
    forall b | b in bs && b.used
      ensures b in r
    {
      var k :| 0 <= k < |bs| && bs[k] == b;
      assert k < i || k > i + 1;
      assert r[if k < i then k else k - 1] == b;
    }
  }

  lemma FreeLive(bs: Blocks, i: nat)
    requires i < |bs|
    ensures LiveKept(bs, Free(bs, i), bs[i].addr)
  {
    var b1 := Mark(bs, i, false);
    forall b | b in bs && b.used && b.addr != bs[i].addr
      ensures b in b1
    {
      var k :| 0 <= k < |bs| && bs[k] == b;
      assert b1[k] == b;
    }
    var b2 := MergeNext(b1, i);
    if FreePair(b1, i) {
      MergeLive(b1, i);
    }
    if i > 0 && !b2[i - 1].used {
      MergeLive(b2, i - 1);
    }
  }

  lemma AddressUnique(bs: Blocks, start: nat, end: nat, b: Block, c: Block)
    requires Tiled(bs, start, end) && b in bs && c in bs && b.addr == c.addr
    ensures b == c
  {
    var i :| 0 <= i < |bs| && bs[i] == b;
    var j :| 0 <= j < |bs| && bs[j] == c;
    if i < j {
      Ordered(bs, start, end, i, j);
    } else if j < i {
      Ordered(bs, start, end, j, i);
    }
  }

  lemma AllocLiveSet(bs: Blocks, start: nat, end: nat, n: nat)
    requires Tiled(bs, start, end) && n % 16 == 0 && FirstFit(bs, n) < |bs|
    ensures FirstFit(bs, n) < |Alloc(bs, n)| && Live(Alloc(bs, n)) == Live(bs) + {Alloc(bs, n)[FirstFit(bs, n)]}
  {
    AllocTiles(bs, start, end, n);
    AllocLive(bs, n);
    var c := AllocAt(bs, n);
    var r := Alloc(bs, n);
    hide Alloc, Tiled;
    forall b | b in r && b.used && b != c
      ensures b in bs
    {
      if b.addr == c.addr {
        AddressUnique(r, start, end, b, c);
      }
    }
  }

  /** A freed block is live no more. */
  lemma FreeDead(bs: Blocks, start: nat, end: nat, i: nat)
    requires Tiled(bs, start, end) && i < |bs|
    ensures bs[i] !in Live(Free(bs, i))
  {
    var b1 := Mark(bs, i, false);
    var b2 := MergeNext(b1, i);
    MarkTiles(bs, start, end, i, false);
    if FreePair(b1, i) {
      MergeTiles(b1, start, end, i);
    }
    assert b2[i].addr == bs[i].addr && !b2[i].used;
    if i > 0 && !b2[i - 1].used {
      MergeLive(b2, i - 1);
    }
    hide Tiled, Merge, Mark, MergeNext;
    if bs[i] in b2 && bs[i].used {
      AddressUnique(b2, start, end, bs[i], b2[i]);
    }
  }

  lemma FreeLiveSet(bs: Blocks, start: nat, end: nat, i: nat)
    requires Tiled(bs, start, end) && i < |bs| && bs[i].used
    ensures Live(Free(bs, i)) == Live(bs) - {bs[i]}
  {
    hide Tiled, Free;
    FreeDead(bs, start, end, i);
    FreeLive(bs, i);
    FreeNothingNew(bs, i);
    var r := Free(bs, i);
    forall b | b in bs && b.used && b != bs[i]
      ensures b in r
    {
      if b.addr == bs[i].addr {
        AddressUnique(bs, start, end, b, bs[i]);
      }
    }
  }

  lemma FreeNothingNew(bs: Blocks, i: nat)
    requires i < |bs|
    ensures Live(Free(bs, i)) <= Live(bs)
  {
    var b1 := Mark(bs, i, false);
    var b2 := MergeNext(b1, i);
    if FreePair(b1, i) {
      MergeLive(b1, i);
    }
    if i > 0 && !b2[i - 1].used {
      MergeLive(b2, i - 1);
    }
    hide Merge;
    forall b | b in b1 && b.used
      ensures b in bs
    {
    }
  }

  lemma SplitLiveSet(bs: Blocks, start: nat, end: nat, i: nat, n: nat)
    requires Tiled(bs, start, end) && n % 16 == 0 && i < |bs| && bs[i].used && n <= bs[i].size
    ensures i < |Split(bs, i, n)| && Live(Split(bs, i, n)) == Live(bs) - {bs[i]} + {Split(bs, i, n)[i]}
  {
    var r := Split(bs, i, n);
    SplitTiles(bs, start, end, i, n);
    SplitLive(bs, i, n);
    var c := r[i];
    assert c.addr == bs[i].addr && c.used;
    hide Split, Tiled;
    forall b | b in bs && b.used && b != bs[i]
      ensures b in r
    {
      if b.addr == bs[i].addr {
        AddressUnique(bs, start, end, b, bs[i]);
      }
    }
    forall b | b in r && b.used && b != c
      ensures b in bs && b != bs[i]
    {
      if b.addr == c.addr {
        AddressUnique(r, start, end, b, c);
      }
    }
  }

  // ----- Adjacent free blocks -----

  /** Both block `i` and the one after it are free. */
  predicate FreePair(bs: Blocks, i: nat) {
    i + 1 < |bs| && !bs[i].used && !bs[i + 1].used
  }

  /** The number of adjacent free pairs. */
  function FreePairs(bs: Blocks): nat {
    if |bs| < 2 then 0
    else FreePairs(bs[1..]) + if !bs[0].used && !bs[1].used then 1 else 0
  }

  /** The pairs of a concatenation: those of the parts and the one across the seam. */
  lemma {:induction false} FreePairsConcat(a: Blocks, b: Blocks)
    requires a != [] && b != []
    ensures FreePairs(a + b) == FreePairs(a) + FreePairs(b) + if !a[|a| - 1].used && !b[0].used then 1 else 0
  {
    if |a| == 1 {
      assert (a + b)[1..] == b;
    } else {
      assert (a + b)[1..] == a[1..] + b;
      FreePairsConcat(a[1..], b);
    }
  }

  lemma {:induction false} NoPairs(bs: Blocks)
    ensures FreePairs(bs) == 0 <==> forall i: nat :: !FreePair(bs, i)
  {
    if |bs| >= 2 {
      NoPairs(bs[1..]);
      if forall i: nat :: !FreePair(bs, i) {
        assert !FreePair(bs, 0);
        forall i: nat
          ensures !FreePair(bs[1..], i)
        {
          assert !FreePair(bs, i + 1);
        }
      }
      if FreePairs(bs) == 0 {
        forall i: nat
          ensures !FreePair(bs, i)
        {
          if i > 0 {
            assert !FreePair(bs[1..], i - 1);
          }
        }
      }
    }
  }

  /** 1 if the last block of `a` and the first block of `b` are both free. */
  function Seam(a: Blocks, b: Blocks): nat {
    if a != [] && b != [] && !a[|a| - 1].used && !b[0].used then 1 else 0
  }

  lemma FreePairsSeam(a: Blocks, b: Blocks)
    ensures FreePairs(a + b) == FreePairs(a) + FreePairs(b) + Seam(a, b)
  {
    if a == [] {
      assert a + b == b;
    } else if b == [] {
      assert a + b == a;
    } else {
      FreePairsConcat(a, b);
    }
  }

  lemma FreePairsMiddle(a: Blocks, b: Block, c: Blocks)
    ensures FreePairs(a + [b] + c) == FreePairs(a) + FreePairs(c) + Seam(a, [b]) + Seam([b], c)
  {
    FreePairsSeam(a, [b]);
    FreePairsSeam(a + [b], c);
  }

  lemma FreePairsMiddle2(a: Blocks, b: Block, b': Block, c: Blocks)
    ensures FreePairs(a + [b, b'] + c) == FreePairs(a) + FreePairs(c) + Seam(a, [b]) + Seam([b], [b']) + Seam([b'], c)
  {
    FreePairsMiddle(a + [b], b', c);
    FreePairsSeam(a, [b]);
    assert a + [b] + [b'] + c == a + [b, b'] + c;
  }

  lemma Around(bs: Blocks, i: nat)
    requires i < |bs|
    ensures bs == bs[..i] + [bs[i]] + bs[i + 1..]
  {
  }

  /** Splitting a block adds at most one pair: the rest and the block after it. */
  lemma SplitPairs(bs: Blocks, i: nat, n: nat)
    requires i < |bs|
    ensures FreePairs(Split(bs, i, n)) <= FreePairs(bs) + 1
    ensures bs[i].used && (i + 1 == |bs| || bs[i + 1].used || bs[i].size < n + 48) ==>
            FreePairs(Split(bs, i, n)) == FreePairs(bs)
  {
    hide FreePairs;
    if bs[i].size >= n + 48 {
      var a, b, r := bs[..i], bs[i].(size := n), bs[i + 1..];
      var c := Block(bs[i].addr + 32 + n, bs[i].size - (32 + n), false);
      Around(bs, i);
      FreePairsMiddle(a, bs[i], r);
      FreePairsMiddle2(a, b, c, r);
      assert Seam(a, [b]) == Seam(a, [bs[i]]);
    }
  }

  /** `kmalloc` never adds a pair. */
  lemma AllocPairs(bs: Blocks, n: nat)
    ensures FreePairs(Alloc(bs, n)) <= FreePairs(bs)
  {
    hide FreePairs;
    var i := FirstFit(bs, n);
    if i < |bs| {
      var s := Split(bs, i, n);
      Around(bs, i);
      FreePairsMiddle(bs[..i], bs[i], bs[i + 1..]);
      if bs[i].size >= n + 48 {
        var b, c := bs[i].(size := n, used := true), Block(bs[i].addr + 32 + n, bs[i].size - (32 + n), false);
        assert Mark(s, i, true) == bs[..i] + [b, c] + bs[i + 1..];
        FreePairsMiddle2(bs[..i], b, c, bs[i + 1..]);
      } else {
        assert Mark(s, i, true) == bs[..i] + [bs[i].(used := true)] + bs[i + 1..];
        FreePairsMiddle(bs[..i], bs[i].(used := true), bs[i + 1..]);
      }
    }
  }

  lemma MergePairs(bs: Blocks, i: nat)
    requires FreePair(bs, i)
    ensures FreePairs(Merge(bs, i)) == FreePairs(bs) - 1
  {
    hide FreePairs;
    var a, c := bs[..i], bs[i + 2..];
    assert bs == a + [bs[i], bs[i + 1]] + c;
    FreePairsMiddle2(a, bs[i], bs[i + 1], c);
    FreePairsMiddle(a, bs[i].(size := bs[i].size + 32 + bs[i + 1].size), c);
  }

  /** `kfree` of a used block keeps the number of pairs. */
  lemma FreePairsKept(bs: Blocks, i: nat)
    requires i < |bs| && bs[i].used
    ensures FreePairs(Free(bs, i)) == FreePairs(bs)
  {
    hide FreePairs;
    var b1 := Mark(bs, i, false);
    Around(bs, i);
    assert b1 == bs[..i] + [b1[i]] + bs[i + 1..];
    FreePairsMiddle(bs[..i], bs[i], bs[i + 1..]);
    FreePairsMiddle(bs[..i], b1[i], bs[i + 1..]);
    var b2 := MergeNext(b1, i);
    if FreePair(b1, i) {
      MergePairs(b1, i);
    }
    if i > 0 && !b2[i - 1].used {
      MergePairs(b2, i - 1);
    }
  }

  // ----- Freeing what was just allocated -----

  /** `kfree` right after `kmalloc` restores the list exactly when the chosen block had no free
      neighbour that `kfree` now joins to it. */
  lemma FreeUndoesAlloc(bs: Blocks, n: nat)
    requires FirstFit(bs, n) < |bs|
    ensures var i := FirstFit(bs, n);
            i < |Alloc(bs, n)| &&
            (Free(Alloc(bs, n), i) == bs <==>
             (i == 0 || bs[i - 1].used) && (bs[i].size >= n + 48 || i + 1 == |bs| || bs[i + 1].used))
  {
    var i := FirstFit(bs, n);
    AllocThenClear(bs, n);
    var b2 := MergeNext(Mark(Alloc(bs, n), i, false), i);
    hide Alloc, FirstFit;
    MergeShorter(b2, i);
    MergeShorter(bs, i);
  }

  /** Clearing the used flag again and joining the next block undoes the split. */
  lemma AllocThenClear(bs: Blocks, n: nat)
    requires FirstFit(bs, n) < |bs|
    ensures var i := FirstFit(bs, n);
            i < |Alloc(bs, n)| && i < |Mark(Alloc(bs, n), i, false)| &&
            MergeNext(Mark(Alloc(bs, n), i, false), i) == if bs[i].size >= n + 48 then bs else MergeNext(bs, i)
  {
    hide FirstFit;
    var i := FirstFit(bs, n);
    var b1 := Mark(Alloc(bs, n), i, false);
    if bs[i].size >= n + 48 {
      assert b1 == Split(bs, i, n);
      MergeUndoesSplit(bs, i, n);
    } else {
      assert b1 == bs;
    }
  }

  lemma MergeUndoesSplit(bs: Blocks, i: nat, n: nat)
    requires i < |bs| && bs[i].size >= n + 48
    ensures FreePair(Mark(Split(bs, i, n), i, false), i) && Merge(Split(bs, i, n), i) == bs
  {
    var r := Split(bs, i, n);
    assert r[i + 2..] == bs[i + 1..];
    assert Merge(r, i)[i] == bs[i];
    assert bs == bs[..i] + [bs[i]] + bs[i + 1..];
  }

  lemma MergeShorter(bs: Blocks, i: nat)
    requires i < |bs|
    ensures MergePrev(bs, i) == bs <==> i == 0 || bs[i - 1].used
    ensures |MergePrev(bs, i)| <= |bs|
    ensures MergeNext(bs, i) == bs <==> i + 1 == |bs| || bs[i + 1].used
    ensures MergeNext(bs, i) != bs ==> |MergeNext(bs, i)| < |bs|
    ensures i > 0 ==> MergeNext(bs, i)[i - 1] == bs[i - 1]
  {
  }

  // ----- Whole runs -----

  /** `krealloc` is a `Shrink` when the block is large enough, and otherwise a `Malloc` with a
      `Release` of the old block. */
  datatype Op = Malloc(n: nat) | Release(i: nat) | Shrink(i: nat, n: nat)

  ghost predicate Step(bs: Blocks, op: Op, bs': Blocks) {
    match op
    case Malloc(n) => bs' == Alloc(bs, RoundUp(n))
    case Release(i) => i < |bs| && bs[i].used && bs' == Free(bs, i)
    case Shrink(i, n) => i < |bs| && bs[i].used && RoundUp(n) <= bs[i].size && bs' == Split(bs, i, RoundUp(n))
  }

  ghost predicate IsRun(states: seq<Blocks>, ops: seq<Op>) {
    |states| == |ops| + 1 && forall k :: 0 <= k < |ops| ==> Step(states[k], ops[k], states[k + 1])
  }

  /** The number of calls of `krealloc` that cut a block. */
  ghost function Cuts(states: seq<Blocks>, ops: seq<Op>): nat
    requires |states| == |ops| + 1
  {
    if ops == [] then 0
    else
      Cuts(states[..|ops|], ops[..|ops| - 1])
      + if ops[|ops| - 1].Shrink? && states[|ops|] != states[|ops| - 1] then 1 else 0
  }

  /** The heap that heap_init makes of the 288 bytes from 4096 on, and what becomes of it. */
  const ONE: Blocks := [Block(4096, 256, false)]
  const TWO: Blocks := [Block(4096, 128, true), Block(4256, 96, false)]
  const CUT: Blocks := [Block(4096, 64, true), Block(4192, 32, false), Block(4256, 96, false)]
  const TAKEN: Blocks := [Block(4096, 64, true), Block(4192, 32, true), Block(4256, 96, false)]
  const JOINED: Blocks := [Block(4096, 64, true), Block(4192, 160, false)]

  lemma CutAlloc()
    ensures FirstFit(ONE, 128) == 0 && Alloc(ONE, 128) == TWO && Split(TWO, 0, 64) == CUT
  {
    assert FirstFit(ONE, 128) == 0;
  }

  lemma CutTaken()
    ensures FirstFit(CUT, 32) == 1 && Alloc(CUT, 32) == TAKEN
  {
    hide FirstFit;
    assert Adequate(CUT[1], 32) && !Adequate(CUT[0], 32);
    assert FirstFit(CUT, 32) == 1;
  }

  lemma CutFreed()
    ensures Free(TAKEN, 1) == JOINED
  {
    assert Mark(TAKEN, 1, false) == CUT;
    assert Merge(CUT, 1) == JOINED;
  }

  /** A `krealloc` that cuts a block next to a free one leaves two adjacent free blocks.  If
      `kmalloc` then takes the first of them, `kfree` joins it to the second, and the list is
      not what it was before `kmalloc`. */
  lemma CutNotRestored()
    ensures Tiled(ONE, 4096, 4384)
    ensures IsRun([ONE, TWO, CUT, TAKEN, JOINED], [Malloc(128), Shrink(0, 64), Malloc(32), Release(1)])
    ensures JOINED != CUT
  {
    hide Alloc, Split, Free, RoundUp, Step;
    CutSteps();
    OneTiles();
    assert |JOINED| < |CUT|;
  }

  lemma CutSteps()
    ensures Step(ONE, Malloc(128), TWO) && Step(TWO, Shrink(0, 64), CUT)
    ensures Step(CUT, Malloc(32), TAKEN) && Step(TAKEN, Release(1), JOINED)
  {
    hide Alloc, Split, Free, RoundUp, FirstFit;
    CutSizes();
    CutAlloc();
    CutTaken();
    CutFreed();
  }

  lemma CutSizes()
    ensures RoundUp(128) == 128 && RoundUp(64) == 64 && RoundUp(32) == 32
  {
  }

  lemma OneTiles()
    ensures Tiled(ONE, 4096, 4384)
  {
  }

  lemma StepTiles(bs: Blocks, op: Op, bs': Blocks, start: nat, end: nat)
    requires Step(bs, op, bs') && Tiled(bs, start, end)
    ensures Tiled(bs', start, end)
  {
    match op
    case Malloc(n) => AllocTiles(bs, start, end, RoundUp(n));
    case Release(i) => FreeTiles(bs, start, end, i);
    case Shrink(i, n) => SplitTiles(bs, start, end, i, RoundUp(n));
  }

  /** A call changes the set of live blocks by exactly the block that it hands out, frees or
      cuts. */
  lemma StepLive(bs: Blocks, op: Op, bs': Blocks, start: nat, end: nat)
    requires Step(bs, op, bs') && Tiled(bs, start, end)
    ensures op.Malloc? ==>
      var i := FirstFit(bs, RoundUp(op.n));
      if i == |bs| then Live(bs') == Live(bs) else i < |bs'| && Live(bs') == Live(bs) + {bs'[i]}
    ensures op.Release? ==> Live(bs') == Live(bs) - {bs[op.i]}
    ensures op.Shrink? ==> op.i < |bs'| && Live(bs') == Live(bs) - {bs[op.i]} + {bs'[op.i]}
  {
    hide Alloc, Free, Split, Tiled, Live, RoundUp, FirstFit;
    match op
    case Malloc(n) =>
      RoundUpAligned(n);
      if FirstFit(bs, RoundUp(n)) < |bs| {
        AllocLiveSet(bs, start, end, RoundUp(n));
      } else {
        AllocNone(bs, RoundUp(n));
      }
    case Release(i) => FreeLiveSet(bs, start, end, i);
    case Shrink(i, n) =>
      RoundUpAligned(n);
      SplitLiveSet(bs, start, end, i, RoundUp(n));
  }

  lemma AllocNone(bs: Blocks, n: nat)
    requires FirstFit(bs, n) == |bs|
    ensures Alloc(bs, n) == bs
  {
  }

  lemma StepPairs(bs: Blocks, op: Op, bs': Blocks)
    requires Step(bs, op, bs')
    ensures FreePairs(bs') <= FreePairs(bs) + if op.Shrink? && bs' != bs then 1 else 0
  {
    match op
    case Malloc(n) => AllocPairs(bs, RoundUp(n));
    case Release(i) => FreePairsKept(bs, i);
    case Shrink(i, n) => SplitPairs(bs, i, RoundUp(n));
  }

  /** Over a whole run the blocks tile the heap, and only cuts can add adjacent free pairs. */
  lemma {:induction false} RunKeeps(states: seq<Blocks>, ops: seq<Op>, start: nat, end: nat)
    requires IsRun(states, ops) && Tiled(states[0], start, end)
    ensures Tiled(states[|ops|], start, end)
    ensures FreePairs(states[|ops|]) <= FreePairs(states[0]) + Cuts(states, ops)
    decreases |ops|
  {
    var n := |ops|;
    if n > 0 {
      var states', ops' := states[..n], ops[..n - 1];
      forall k | 0 <= k < |ops'|
        ensures Step(states'[k], ops'[k], states'[k + 1])
      {
        assert Step(states[k], ops[k], states[k + 1]);
      }
      RunKeeps(states', ops', start, end);
      assert Step(states[n - 1], ops[n - 1], states[n]);
      StepTiles(states[n - 1], ops[n - 1], states[n], start, end);
      StepPairs(states[n - 1], ops[n - 1], states[n]);
    }
  }

  /** In a run without cuts, when everything has been freed the heap is one free block again. */
  lemma AllFreedRestores(states: seq<Blocks>, ops: seq<Op>, start: nat, size: nat)
    requires IsRun(states, ops) && states[0] == [Block(start, size, false)] && start % 16 == 0 && Cuts(states, ops) == 0
    requires forall i :: 0 <= i < |states[|ops|]| ==> !states[|ops|][i].used
    ensures states[|ops|] == states[0]
  {
    assert |states| == |ops| + 1;
    hide IsRun, Cuts, Tiled, FreePairs;
    var end := start + 32 + size;
    SingleBlock(start, size);
    RunKeeps(states, ops, start, end);
    OneBlock(states[|ops|], start, end);
  }

  lemma SingleBlock(start: nat, size: nat)
    requires start % 16 == 0
    ensures Tiled([Block(start, size, false)], start, start + 32 + size) && FreePairs([Block(start, size, false)]) == 0
  {
  }

  /** Free blocks that tile the heap, no two of them adjacent, are one block. */
  lemma OneBlock(bs: Blocks, start: nat, end: nat)
    requires Tiled(bs, start, end) && FreePairs(bs) == 0 && forall i :: 0 <= i < |bs| ==> !bs[i].used
    ensures start + 32 <= end && bs == [Block(start, end - start - 32, false)]
  {
    hide FreePairs;
    var pair := FreePair(bs, 0);
    NoPairs(bs);
  }

  /** In a run without cuts no two free blocks are ever adjacent, and `kfree` right after
      `kmalloc` restores the exact block list. */
  lemma NoAdjacentFree(states: seq<Blocks>, ops: seq<Op>, start: nat, size: nat, n: nat)
    requires IsRun(states, ops) && states[0] == [Block(start, size, false)] && start % 16 == 0 && Cuts(states, ops) == 0
    ensures forall i: nat :: !FreePair(states[|ops|], i)
    ensures var bs := states[|ops|];
            var i := FirstFit(bs, n);
            i < |bs| ==> i < |Alloc(bs, n)| && Free(Alloc(bs, n), i) == bs
  {
    assert |states| == |ops| + 1;
    hide IsRun, Cuts, Tiled, FreePairs, Alloc, Free;
    SingleBlock(start, size);
    RunKeeps(states, ops, start, start + 32 + size);
    var bs := states[|ops|];
    NoPairs(bs);
    var i := FirstFit(bs, n);
    if i < |bs| {
      FreeUndoesAlloc(bs, n);
      var next := FreePair(bs, i);
      if i > 0 {
        var before := FreePair(bs, i - 1);
      }
    }
  }
}
