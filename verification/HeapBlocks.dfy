/** The kernel heap as a sequence of blocks: what khalloc and khfree do to it, and what every
    run of them keeps. `Heap.dfy` ties these functions to the bytes of memory. */
module HeapBlocks {

  /** `size` counts the header and the footer of the block. */
  datatype Block = Block(addr: nat, size: nat, free: bool) {
    function End(): nat { addr + size }
  }

  /** The extent of a heap, and the sizes of the records before and after each payload:
      9 and 8 bytes on i686, 13 and 12 on x86_64 (packed structs). */
  datatype Region = Region(header: nat, footer: nat, start: nat, end: nat) {
    function Overhead(): nat { header + footer }
  }

  type Blocks = seq<Block>

  ghost predicate Chained(bs: Blocks) {
    forall i :: 0 <= i < |bs| - 1 ==> bs[i].End() == bs[i + 1].addr
  }

  /** The blocks cover the region without gap or overlap, and each has room for its records. */
  ghost predicate Tiles(r: Region, bs: Blocks) {
    && 0 < r.header
    && |bs| > 0
    && bs[0].addr == r.start
    && bs[|bs| - 1].End() == r.end
    && Chained(bs)
    && forall i :: 0 <= i < |bs| ==> bs[i].size >= r.Overhead()
  }

  ghost predicate Coalesced(bs: Blocks) {
    forall i :: 0 <= i < |bs| - 1 ==> !(bs[i].free && bs[i + 1].free)
  }

  /** What holds of every reachable heap. */
  ghost predicate Inv(r: Region, bs: Blocks) {
    Tiles(r, bs) && Coalesced(bs) && bs[0].free
  }

  ghost function Live(bs: Blocks): set<Block> {
    set b | b in bs && !b.free
  }

  /** `p` is a pointer that khalloc returned and that was not freed since. */
  ghost predicate LivePointer(r: Region, bs: Blocks, p: nat) {
    exists b :: b in Live(bs) && b.addr + r.header == p
  }

  // ---------------------------------------------------------------- order of blocks

  lemma {:induction false} Ordered(r: Region, bs: Blocks, i: nat, j: nat)
    requires Tiles(r, bs) && i < j < |bs|
    ensures bs[i].End() <= bs[j].addr
    decreases j - i
  {
    if i + 1 < j {
      Ordered(r, bs, i + 1, j);
    }
  }

  lemma SameBlock(r: Region, bs: Blocks, i: nat, j: nat)
    requires Tiles(r, bs) && i < |bs| && j < |bs| && bs[i].addr == bs[j].addr
    ensures i == j
  {
    if i < j {
      Ordered(r, bs, i, j);
    } else if j < i {
      Ordered(r, bs, j, i);
    }
  }

  /** Payloads of two blocks share no byte, and every payload lies inside the region. */
  lemma PayloadsDisjoint(r: Region, bs: Blocks, i: nat, j: nat)
    requires Tiles(r, bs) && i < |bs| && j < |bs| && i != j
    ensures bs[i].End() <= bs[j].addr || bs[j].End() <= bs[i].addr
    ensures r.start <= bs[i].addr && bs[i].End() <= r.end
  {
    if i < j {
      Ordered(r, bs, i, j);
    } else {
      Ordered(r, bs, j, i);
    }
    if i > 0 {
      Ordered(r, bs, 0, i);
    }
    if i < |bs| - 1 {
      Ordered(r, bs, i, |bs| - 1);
    }
  }

  lemma Inside(r: Region, bs: Blocks, i: nat)
    requires Tiles(r, bs) && i < |bs|
    ensures r.start <= bs[i].addr && bs[i].End() <= r.end
  {
    if i > 0 {
      Ordered(r, bs, 0, i);
    }
    if i < |bs| - 1 {
      Ordered(r, bs, i, |bs| - 1);
    }
  }

  function TotalSize(bs: Blocks): nat {
    if bs == [] then 0 else TotalSize(bs[..|bs| - 1]) + bs[|bs| - 1].size
  }

  lemma {:induction false} SizesAddUp(bs: Blocks)
    requires bs != [] && Chained(bs)
    ensures bs[0].addr + TotalSize(bs) == bs[|bs| - 1].End()
  {
    if |bs| > 1 {
      SizesAddUp(bs[..|bs| - 1]);
    }
  }

  /** Conservation: the sizes always sum to the size create_heap wrote. */
  lemma Conservation(r: Region, bs: Blocks)
    requires Tiles(r, bs)
    ensures TotalSize(bs) == r.end - r.start
  {
    SizesAddUp(bs);
  }

  // ---------------------------------------------------------------- the operations

  function Created(r: Region): Blocks
    requires r.start + r.Overhead() <= r.end
  {
    [Block(r.start, r.end - r.start, true)]
  }

  /** A request is served from the first block, which must keep room for its own records. */
  predicate Fits(r: Region, bs: Blocks, size: nat)
    requires bs != []
  {
    bs[0].size >= size + 2 * r.Overhead()
  }

  /** The first block gives up its last `n` bytes to a new live block. */
  function Split(bs: Blocks, n: nat): Blocks
    requires bs != [] && n <= bs[0].size
  {
    var b := bs[0];
    [Block(b.addr, b.size - n, b.free), Block(b.addr + b.size - n, n, false)] + bs[1..]
  }

  function Allocate(r: Region, bs: Blocks, size: nat): Blocks
    requires bs != []
  {
    if size > 0 && Fits(r, bs, size) then Split(bs, size + r.Overhead()) else bs
  }

  function MarkFree(bs: Blocks, i: nat): Blocks
    requires i < |bs|
  {
    bs[i := bs[i].(free := true)]
  }

  /** Block `i` swallows block `i + 1`. */
  function Merge(bs: Blocks, i: nat): Blocks
    requires i + 1 < |bs|
  {
    bs[..i] + [bs[i].(size := bs[i].size + bs[i + 1].size)] + bs[i + 2..]
  }

  function MergeNext(bs: Blocks, i: nat): Blocks
    requires i < |bs|
  {
    if i + 1 < |bs| && bs[i + 1].free then Merge(bs, i) else bs
  }

  function MergePrev(bs: Blocks, i: nat): Blocks
    requires i < |bs|
  {
    if i > 0 && bs[i - 1].free then Merge(bs, i - 1) else bs
  }

  function Release(bs: Blocks, i: nat): Blocks
    requires i < |bs|
  {
    if bs[i].free then bs else MergePrev(MergeNext(MarkFree(bs, i), i), i)
  }

  // ---------------------------------------------------------------- what one operation keeps

  lemma CreatedInv(r: Region)
    requires 0 < r.header && r.start + r.Overhead() <= r.end
    ensures Inv(r, Created(r)) && Live(Created(r)) == {}
  {
  }

  /** No two neighbours are free, except perhaps a pair that starts at an index in `but`. */
  ghost predicate CoalescedBut(bs: Blocks, but: set<int>) {
    forall i :: 0 <= i < |bs| - 1 && i !in but ==> !(bs[i].free && bs[i + 1].free)
  }

  lemma MergeTiles(r: Region, bs: Blocks, i: nat)
    requires Tiles(r, bs) && i + 1 < |bs|
    ensures Tiles(r, Merge(bs, i))
    ensures forall k :: i < k < |bs| - 1 ==> Merge(bs, i)[k] == bs[k + 1]
  {
    var cs := Merge(bs, i);
    assert forall k :: i < k < |cs| ==> cs[k] == bs[k + 1];
  }

  lemma MergeKeeps(r: Region, bs: Blocks, i: nat, but: set<int>)
    requires Tiles(r, bs) && i + 1 < |bs| && bs[i].free && bs[i + 1].free
    requires forall k :: k in but ==> k <= i
    requires i + 2 < |bs| ==> !bs[i + 2].free
    requires CoalescedBut(bs, but)
    ensures Tiles(r, Merge(bs, i)) && CoalescedBut(Merge(bs, i), but - {i})
  {
    MergeTiles(r, bs, i);
  }

  lemma MergeLive(r: Region, bs: Blocks, i: nat)
    requires i + 1 < |bs| && bs[i].free && bs[i + 1].free
    ensures Live(Merge(bs, i)) == Live(bs)
  {
    var cs := Merge(bs, i);
    forall b | b in Live(bs)
      ensures b in Live(cs)
    {
      var k :| 0 <= k < |bs| && bs[k] == b;
      assert b == if k < i then cs[k] else cs[k - 1];
    }
    forall b | b in Live(cs)
      ensures b in Live(bs)
    {
      var k :| 0 <= k < |cs| && cs[k] == b;
      assert b == if k < i then bs[k] else bs[k + 1];
    }
  }

  lemma MarkFreeKeeps(r: Region, bs: Blocks, i: nat)
    requires Tiles(r, bs) && Coalesced(bs) && i < |bs| && !bs[i].free
    ensures Tiles(r, MarkFree(bs, i)) && CoalescedBut(MarkFree(bs, i), {i - 1, i})
    ensures Live(MarkFree(bs, i)) == Live(bs) - {bs[i]}
  {
    var cs := MarkFree(bs, i);
    forall b | b in Live(bs) && b != bs[i]
      ensures b in Live(cs)
    {
      var k :| 0 <= k < |bs| && bs[k] == b;
      assert cs[k] == b;
    }
    forall b | b in Live(cs)
      ensures b in Live(bs) && b != bs[i]
    {
      var k :| 0 <= k < |cs| && cs[k] == b;
      assert bs[k] == b;
      if b == bs[i] {
        SameBlock(r, bs, i, k);
      }
    }
  }

  lemma MergeNextKeeps(r: Region, bs: Blocks, i: nat)
    requires Tiles(r, bs) && i < |bs| && bs[i].free && bs[0].free && CoalescedBut(bs, {i - 1, i})
    ensures Tiles(r, MergeNext(bs, i)) && CoalescedBut(MergeNext(bs, i), {i - 1})
    ensures i < |MergeNext(bs, i)| && MergeNext(bs, i)[i].free && MergeNext(bs, i)[0].free
    ensures Live(MergeNext(bs, i)) == Live(bs)
  {
    if i + 1 < |bs| && bs[i + 1].free {
      MergeKeeps(r, bs, i, {i - 1, i});
      MergeLive(r, bs, i);
    }
  }

  lemma MergePrevKeeps(r: Region, bs: Blocks, i: nat)
    requires Tiles(r, bs) && i < |bs| && bs[i].free && bs[0].free && CoalescedBut(bs, {i - 1})
    ensures Inv(r, MergePrev(bs, i))
    ensures Live(MergePrev(bs, i)) == Live(bs)
  {
    if i > 0 && bs[i - 1].free {
      MergeKeeps(r, bs, i - 1, {i - 1});
      MergeLive(r, bs, i - 1);
    }
  }

  /** A free removes exactly one live block, moves no other, and leaves no free neighbours. */
  lemma ReleaseKeeps(r: Region, bs: Blocks, i: nat)
    requires Inv(r, bs) && i < |bs| && !bs[i].free
    ensures Inv(r, Release(bs, i))
    ensures Live(Release(bs, i)) == Live(bs) - {bs[i]}
  {
    MarkFreeKeeps(r, bs, i);
    MergeNextKeeps(r, MarkFree(bs, i), i);
    MergePrevKeeps(r, MergeNext(MarkFree(bs, i), i), i);
  }

  /** A successful allocation adds exactly one live block, which overlaps no other. */
  lemma AllocateKeeps(r: Region, bs: Blocks, size: nat)
    requires Inv(r, bs)
    ensures Inv(r, Allocate(r, bs, size))
    ensures size > 0 && Fits(r, bs, size) ==>
              var n := size + r.Overhead();
              var b := Block(bs[0].End() - n, n, false);
              b !in Live(bs) && Live(Allocate(r, bs, size)) == Live(bs) + {b}
  {
    if size > 0 && Fits(r, bs, size) {
      var n := size + r.Overhead();
      var b := Block(bs[0].End() - n, n, false);
      var cs := Split(bs, n);
      assert forall i :: 2 <= i < |cs| ==> cs[i] == bs[i - 1];
      assert cs[1] == b;
      forall c | c in Live(bs)
        ensures c in Live(cs) && c != b
      {
        var k :| 0 <= k < |bs| && bs[k] == c;
        assert k > 0 && cs[k + 1] == c;
        Ordered(r, bs, 0, k);
      }
      forall c | c in Live(cs)
        ensures c in Live(bs) || c == b
      {
        var k :| 0 <= k < |cs| && cs[k] == c;
        assert k > 1 ==> bs[k - 1] == c;
      }
    }
  }

  // ---------------------------------------------------------------- canonical form

  /** The live blocks alone determine the whole heap: two coalesced tilings of one region with
      the same live blocks are equal. What the order of past calls was leaves no trace. */
  lemma LiveDeterminesHeap(r: Region, bs: Blocks, cs: Blocks)
    requires Tiles(r, bs) && Coalesced(bs)
    requires Tiles(r, cs) && Coalesced(cs)
    requires Live(bs) == Live(cs)
    ensures bs == cs
  {
    PrefixEqual(r, bs, cs, if |bs| <= |cs| then |bs| else |cs|);
    if |bs| < |cs| {
      Ordered(r, cs, |bs| - 1, |cs| - 1);
    } else if |cs| < |bs| {
      Ordered(r, bs, |cs| - 1, |bs| - 1);
    }
  }

  lemma {:induction false} PrefixEqual(r: Region, bs: Blocks, cs: Blocks, n: nat)
    requires Tiles(r, bs) && Coalesced(bs) && Tiles(r, cs) && Coalesced(cs)
    requires Live(bs) == Live(cs) && n <= |bs| && n <= |cs|
    ensures bs[..n] == cs[..n]
  {
    if n > 0 {
      PrefixEqual(r, bs, cs, n - 1);
      var i := n - 1;
      assert bs[i].addr == cs[i].addr by {
        if i > 0 {
          assert bs[i - 1] == bs[..i][i - 1] == cs[..i][i - 1] == cs[i - 1];
        }
      }
      NotShorter(r, bs, cs, i);
      NotShorter(r, cs, bs, i);
      assert bs[i] == cs[i];
      assert bs[..n] == bs[..i] + [bs[i]];
      assert cs[..n] == cs[..i] + [cs[i]];
    }
  }

  /** Blocks at the same address are both live and equal, or both free, and then neither ends
      before the other: a live block would begin inside the longer one. */
  lemma NotShorter(r: Region, bs: Blocks, cs: Blocks, i: nat)
    requires Tiles(r, bs) && Coalesced(bs) && Tiles(r, cs) && Coalesced(cs)
    requires Live(bs) == Live(cs) && i < |bs| && i < |cs| && bs[i].addr == cs[i].addr
    ensures !bs[i].free ==> bs[i] == cs[i]
    ensures bs[i].free ==> bs[i].size >= cs[i].size
  {
    if !bs[i].free {
      assert bs[i] in Live(cs);
      var k :| 0 <= k < |cs| && cs[k] == bs[i];
      SameBlock(r, cs, i, k);
    } else if bs[i].size < cs[i].size {
      Inside(r, cs, i);
      if i + 1 < |bs| {
        assert bs[i + 1] in Live(bs);
        assert bs[i + 1] in Live(cs);
        var k :| 0 <= k < |cs| && cs[k] == bs[i + 1];
        if k < i {
          Ordered(r, cs, k, i);
        } else if k > i {
          Ordered(r, cs, i, k);
        }
      }
    }
  }

  /** Freeing what was just allocated restores the heap. */
  lemma ReleaseUndoesAllocate(r: Region, bs: Blocks, size: nat)
    requires Inv(r, bs) && size > 0 && Fits(r, bs, size)
    ensures Release(Allocate(r, bs, size), 1) == bs
  {
    AllocateKeeps(r, bs, size);
    ReleaseKeeps(r, Allocate(r, bs, size), 1);
    LiveDeterminesHeap(r, Release(Allocate(r, bs, size), 1), bs);
  }
}
