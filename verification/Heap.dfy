/** khalloc and khfree on the bytes of memory, proved to perform the block operations of
    `HeapBlocks.dfy`.

    Where the source departs from its evident intent the repaired form is modelled here; each
    departure is marked "as written" and `HeapAsWritten.dfy` states exactly what it breaks. */
module Heap {
  import opened LittleEndian
  import opened HeapBlocks

  /** The records of one block: a packed header (size, is_free, next) and a packed footer
      (size, prev), with pointers of `w` bytes. */
  function HeaderSize(w: nat): nat { 5 + w }

  function FooterSize(w: nat): nat { 4 + w }

  ghost predicate Records(m: seq<byte>, w: nat, bs: Blocks) {
    forall i :: 0 <= i < |bs| ==> RecordAt(m, w, bs[i])
  }

  ghost predicate RecordAt(m: seq<byte>, w: nat, b: Block) {
    && b.size >= HeaderSize(w) + FooterSize(w)
    && b.End() <= |m|
    && Field(m, b.addr, 4) == b.size
    && Field(m, b.addr + 4, 1) == (if b.free then 1 else 0)
    && Field(m, b.End() - FooterSize(w), 4) == b.size
  }

  function NextLink(m: seq<byte>, w: nat, b: Block): nat
    requires b.size >= HeaderSize(w) + FooterSize(w) && b.End() <= |m|
  {
    Field(m, b.addr + 5, w)
  }

  function PrevLink(m: seq<byte>, w: nat, b: Block): nat
    requires b.size >= HeaderSize(w) + FooterSize(w) && b.End() <= |m|
  {
    Field(m, b.End() - FooterSize(w) + 4, w)
  }

  ghost predicate NullLinks(m: seq<byte>, w: nat, bs: Blocks)
    requires Records(m, w, bs)
  {
    forall i :: 0 <= i < |bs| ==> NextLink(m, w, bs[i]) == 0 && PrevLink(m, w, bs[i]) == 0
  }

  /** What the search loops need to stop: next links lead up, prev links lead down. */
  ghost predicate OrderedLinks(m: seq<byte>, w: nat, bs: Blocks)
    requires Records(m, w, bs)
  {
    forall i :: 0 <= i < |bs| ==> LinksFrom(m, w, bs, i)
  }

  ghost predicate LinksFrom(m: seq<byte>, w: nat, bs: Blocks, i: nat)
    requires Records(m, w, bs) && i < |bs|
  {
    && (NextLink(m, w, bs[i]) == 0 || exists j :: i < j < |bs| && bs[j].addr == NextLink(m, w, bs[i]))
    && (PrevLink(m, w, bs[i]) == 0 || exists j :: 0 <= j < i && bs[j].addr == PrevLink(m, w, bs[i]))
  }

  ghost predicate Clean(m: seq<byte>, w: nat, b: Block) {
    RecordAt(m, w, b) && NextLink(m, w, b) == 0 && PrevLink(m, w, b) == 0
  }

  lemma CleanFields(m: seq<byte>, w: nat, b: Block)
    requires Clean(m, w, b)
    ensures b.size >= HeaderSize(w) + FooterSize(w) && b.End() <= |m|
    ensures Field(m, b.addr, 4) == b.size && Field(m, b.addr + 4, 1) == (if b.free then 1 else 0)
    ensures Field(m, b.addr + 5, w) == 0
    ensures Field(m, b.End() - FooterSize(w), 4) == b.size && Field(m, b.End() - FooterSize(w) + 4, w) == 0
  {
    hide Field;
  }

  /** The memory after all fields of a header are stored. */
  function SetHeader(m: seq<byte>, w: nat, a: nat, size: nat, free: bool, next: nat): (n: seq<byte>)
    requires a + HeaderSize(w) <= |m| && size < 0x1_0000_0000 && next < Power256(w)
    ensures |n| == |m|
    ensures Field(n, a, 4) == size && Field(n, a + 4, 1) == (if free then 1 else 0) && Field(n, a + 5, w) == next
    ensures forall k {:trigger n[k]} :: 0 <= k < |m| && (k < a || a + HeaderSize(w) <= k) ==> n[k] == m[k]
    ensures forall b: nat, v: nat {:trigger Field(n, b, v)} :: b + v <= |m| && (b + v <= a || a + HeaderSize(w) <= b) ==>
                               Field(n, b, v) == Field(m, b, v)
  {
    hide Field, Put, Power256;
    SmallWidths();
    Put(Put(Put(m, a, 4, size), a + 4, 1, if free then 1 else 0), a + 5, w, next)
  }

  /** The memory after both fields of a footer are stored. */
  function SetFooter(m: seq<byte>, w: nat, a: nat, size: nat, prev: nat): (n: seq<byte>)
    requires a + FooterSize(w) <= |m| && size < 0x1_0000_0000 && prev < Power256(w)
    ensures |n| == |m|
    ensures Field(n, a, 4) == size && Field(n, a + 4, w) == prev
    ensures forall k {:trigger n[k]} :: 0 <= k < |m| && (k < a || a + FooterSize(w) <= k) ==> n[k] == m[k]
    ensures forall b: nat, v: nat {:trigger Field(n, b, v)} :: b + v <= |m| && (b + v <= a || a + FooterSize(w) <= b) ==>
                               Field(n, b, v) == Field(m, b, v)
  {
    hide Field, Put, Power256;
    SmallWidths();
    Put(Put(m, a, 4, size), a + 4, w, prev)
  }

  /** A block whose bytes did not change has the same records. */
  lemma SameRecord(m: seq<byte>, n: seq<byte>, w: nat, b: Block)
    requires Clean(m, w, b) && |n| == |m|
    requires forall k :: b.addr <= k < b.End() ==> n[k] == m[k]
    ensures Clean(n, w, b)
  {
    SameField(m, n, b.addr, 4);
    SameField(m, n, b.addr + 4, 1);
    SameField(m, n, b.addr + 5, w);
    SameField(m, n, b.End() - FooterSize(w), 4);
    SameField(m, n, b.End() - FooterSize(w) + 4, w);
  }

  /** All bytes outside [lo, hi) are as before. */
  ghost predicate SameOutside(m: seq<byte>, n: seq<byte>, lo: nat, hi: nat) {
    |m| == |n| && forall k :: 0 <= k < |m| && !(lo <= k < hi) ==> n[k] == m[k]
  }

  /** Rewriting the bytes of [lo, hi) turns blocks `bs` into blocks `cs`, when each block of `cs`
      is either freshly written or an old block outside the range. */
  lemma Rewritten(m: seq<byte>, n: seq<byte>, w: nat, bs: Blocks, cs: Blocks, lo: nat, hi: nat)
    requires SameOutside(m, n, lo, hi)
    requires Records(m, w, bs) && NullLinks(m, w, bs)
    requires forall i :: 0 <= i < |cs| ==>
                           Clean(n, w, cs[i]) || (cs[i] in bs && (cs[i].End() <= lo || hi <= cs[i].addr))
    ensures Records(n, w, cs) && NullLinks(n, w, cs)
  {
    hide Field;
    forall i | 0 <= i < |cs|
      ensures Clean(n, w, cs[i])
    {
      if !Clean(n, w, cs[i]) {
        var j :| 0 <= j < |bs| && bs[j] == cs[i];
        assert Clean(m, w, bs[j]);
        SameRecord(m, n, w, cs[i]);
      }
    }
  }

  /** No byte of any of these blocks differs, records included. */
  ghost predicate Untouched(m: seq<byte>, n: seq<byte>, bs: set<Block>) {
    && |m| == |n|
    && forall b, k :: b in bs && b.addr <= k < b.End() && k < |m| ==> n[k] == m[k]
  }

  /** The memory that `Carve` leaves. */
  ghost function Carved(m: seq<byte>, w: nat, b: Block, size: nat): (n: seq<byte>)
    requires Clean(m, w, b) && b.size < 0x1_0000_0000
    requires b.size >= size + 2 * (HeaderSize(w) + FooterSize(w))
    ensures SameOutside(m, n, b.addr, b.End())
  {
    hide Field, Put, SetHeader, SetFooter, Power256;
    SmallWidths();
    var foot := b.addr + b.size - FooterSize(w);
    var newFoot := b.addr + b.size - size - HeaderSize(w) - 2 * FooterSize(w);
    var newHead := newFoot + FooterSize(w);
    var taken := size + HeaderSize(w) + FooterSize(w);
    var n1 := SetHeader(m, w, newHead, taken, false, 0);
    var n2 := Put(n1, b.addr, 4, b.size - taken);
    var n3 := SetFooter(n2, w, newFoot, b.size - taken, 0);
    SetFooter(n3, w, foot, taken, 0)
  }

  lemma CarvedLow(m: seq<byte>, w: nat, b: Block, size: nat)
    requires Clean(m, w, b) && b.free && b.size < 0x1_0000_0000
    requires b.size >= size + 2 * (HeaderSize(w) + FooterSize(w))
    ensures Clean(Carved(m, w, b, size), w, Block(b.addr, b.size - size - HeaderSize(w) - FooterSize(w), true))
  {
    hide Field, Put, SetHeader, SetFooter, Power256;
    SmallWidths();
  }

  lemma CarvedHigh(m: seq<byte>, w: nat, b: Block, size: nat)
    requires Clean(m, w, b) && b.size < 0x1_0000_0000
    requires b.size >= size + 2 * (HeaderSize(w) + FooterSize(w))
    ensures var n := size + HeaderSize(w) + FooterSize(w);
            Clean(Carved(m, w, b, size), w, Block(b.End() - n, n, false))
  {
    hide Field, Put, SetHeader, SetFooter, Power256;
    SmallWidths();
  }

  /** The bytes of memory hold the blocks, with links the search loops can follow. */
  ghost predicate SoundState(m: seq<byte>, w: nat, r: Region, bs: Blocks) {
    && r.header == HeaderSize(w) && r.footer == FooterSize(w)
    && r.footer <= r.start < r.end <= |m|
    && r.end - r.start < 0x1_0000_0000
    && Tiles(r, bs)
    && Records(m, w, bs)
    && OrderedLinks(m, w, bs)
  }

  /** Sound and without links; a free passes through such states before it has coalesced. */
  ghost predicate Unlinked(m: seq<byte>, w: nat, r: Region, bs: Blocks) {
    SoundState(m, w, r, bs) && NullLinks(m, w, bs)
  }

  /** The state khalloc and khfree keep. */
  ghost predicate Good(m: seq<byte>, w: nat, r: Region, bs: Blocks) {
    Unlinked(m, w, r, bs) && Inv(r, bs)
  }

  lemma NullLinksAreOrdered(m: seq<byte>, w: nat, bs: Blocks)
    requires Records(m, w, bs) && NullLinks(m, w, bs)
    ensures OrderedLinks(m, w, bs)
  {
    hide Field;
  }

  /** All bytes outside the region and all bytes of the blocks `kept` are as before. */
  ghost predicate Framed(m: seq<byte>, n: seq<byte>, r: Region, kept: set<Block>) {
    SameOutside(m, n, r.start, r.end) && Untouched(m, n, kept)
  }

  lemma GoodIsSound(m: seq<byte>, w: nat, r: Region, bs: Blocks)
    requires Good(m, w, r, bs)
    ensures Unlinked(m, w, r, bs) && SoundState(m, w, r, bs) && Tiles(r, bs) && Inv(r, bs)
    ensures NullLinks(m, w, bs)
    ensures r.start > 0 && bs != []
    ensures Clean(m, w, bs[0]) && bs[0].addr == r.start && bs[0].free && bs[0].size < 0x1_0000_0000
  {
    hide Field;
    Inside(r, bs, 0);
  }

  lemma CoalescedIsGood(m: seq<byte>, w: nat, r: Region, bs: Blocks)
    requires Unlinked(m, w, r, bs) && Inv(r, bs)
    ensures Good(m, w, r, bs)
  {
  }

  /** The payload of a block. */
  predicate InPayload(w: nat, b: Block, a: nat) {
    b.addr + HeaderSize(w) <= a && a + FooterSize(w) < b.End()
  }

  /** Whatever is stored in a payload, all records stay. */
  lemma PayloadIsFree(m: seq<byte>, n: seq<byte>, w: nat, r: Region, bs: Blocks, k: nat)
    requires Good(m, w, r, bs) && k < |bs| && |n| == |m|
    requires forall a :: 0 <= a < |m| && !InPayload(w, bs[k], a) ==> n[a] == m[a]
    ensures Good(n, w, r, bs)
  {
    hide Field;
    forall i | 0 <= i < |bs|
      ensures Clean(n, w, bs[i])
    {
      assert Clean(m, w, bs[i]);
      if i != k {
        PayloadsDisjoint(r, bs, i, k);
        SameRecord(m, n, w, bs[i]);
      } else {
        OwnRecordKept(m, n, w, bs[k]);
      }
    }
    NullLinksAreOrdered(n, w, bs);
  }

  lemma OwnRecordKept(m: seq<byte>, n: seq<byte>, w: nat, b: Block)
    requires Clean(m, w, b) && |n| == |m|
    requires forall a :: 0 <= a < |m| && !InPayload(w, b, a) ==> n[a] == m[a]
    ensures Clean(n, w, b)
  {
    SameField(m, n, b.addr, 4);
    SameField(m, n, b.addr + 4, 1);
    SameField(m, n, b.addr + 5, w);
    SameField(m, n, b.End() - FooterSize(w), 4);
    SameField(m, n, b.End() - FooterSize(w) + 4, w);
  }

  /** Fresh records for the two halves and nothing else changed: the split is done. */
  lemma SplitDone(m: seq<byte>, n: seq<byte>, w: nat, r: Region, bs: Blocks, size: nat)
    requires Good(m, w, r, bs) && size > 0 && Fits(r, bs, size)
    requires SameOutside(m, n, bs[0].addr, bs[0].End())
    requires Clean(n, w, Split(bs, size + r.Overhead())[0]) && Clean(n, w, Split(bs, size + r.Overhead())[1])
    ensures Good(n, w, r, Split(bs, size + r.Overhead()))
    ensures Framed(m, n, r, Live(bs))
  {
    hide Field, Clean, RecordAt, OrderedLinks, Coalesced, Framed;
    var cs := Split(bs, size + r.Overhead());
    AllocateKeeps(r, bs, size);
    forall i | 2 <= i < |cs|
      ensures cs[i] in bs && bs[0].End() <= cs[i].addr
    {
      assert cs[i] == bs[i - 1];
      Ordered(r, bs, 0, i - 1);
    }
    Rewritten(m, n, w, bs, cs, bs[0].addr, bs[0].End());
    NullLinksAreOrdered(n, w, cs);
    assert Framed(m, n, r, Live(bs)) by {
      forall b | b in Live(bs)
        ensures exists k :: 0 <= k < |bs| && bs[k] == b && (k < 0 || 0 < k)
      {
        var k :| 0 <= k < |bs| && bs[k] == b;
      }
      FramedWithin(m, n, r, bs, 0, 0, Live(bs));
    }
  }

  // ---------------------------------------------------------------- what a free stores

  lemma OnlyBlockAt(r: Region, bs: Blocks, i: nat)
    requires Tiles(r, bs) && i < |bs|
    ensures forall k :: 0 <= k < |bs| && bs[k].addr == bs[i].addr ==> k == i
  {
    forall k | 0 <= k < |bs| && bs[k].addr == bs[i].addr
      ensures k == i
    {
      SameBlock(r, bs, i, k);
    }
  }

  lemma UnlinkedBlock(m: seq<byte>, w: nat, r: Region, bs: Blocks, i: nat)
    requires Unlinked(m, w, r, bs) && i < |bs|
    ensures Clean(m, w, bs[i]) && r.start <= bs[i].addr && bs[i].End() <= r.end && bs[i].size < 0x1_0000_0000
  {
    hide Field;
    Inside(r, bs, i);
  }

  /** Rewriting blocks i..j leaves the blocks on either side as they are. */
  lemma FramedWithin(m: seq<byte>, n: seq<byte>, r: Region, bs: Blocks, i: nat, j: nat, kept: set<Block>)
    requires Tiles(r, bs) && i <= j < |bs| && SameOutside(m, n, bs[i].addr, bs[j].End())
    requires forall b :: b in kept ==> exists k :: 0 <= k < |bs| && bs[k] == b && (k < i || j < k)
    ensures Framed(m, n, r, kept)
  {
    Inside(r, bs, i);
    Inside(r, bs, j);
    forall b | b in kept
      ensures b.End() <= bs[i].addr || bs[j].End() <= b.addr
    {
      var k :| 0 <= k < |bs| && bs[k] == b && (k < i || j < k);
      if k < i {
        Ordered(r, bs, k, i);
      } else {
        Ordered(r, bs, j, k);
      }
    }
  }

  lemma FramedSame(m: seq<byte>, r: Region, kept: set<Block>)
    ensures Framed(m, m, r, kept)
  {
  }

  lemma FramedTwice(m: seq<byte>, n: seq<byte>, o: seq<byte>, r: Region, kept: set<Block>)
    requires Framed(m, n, r, kept) && Framed(n, o, r, kept)
    ensures Framed(m, o, r, kept)
  {
  }

  lemma MarkedRecord(m: seq<byte>, n: seq<byte>, w: nat, b: Block)
    requires Clean(m, w, b) && n == Put(m, b.addr + 4, 1, 1)
    ensures SameOutside(m, n, b.addr, b.End()) && Clean(n, w, b.(free := true))
  {
    hide Field, Put;
  }

  lemma MarkDone(m: seq<byte>, n: seq<byte>, w: nat, r: Region, bs: Blocks, i: nat)
    requires Good(m, w, r, bs) && i < |bs| && !bs[i].free
    requires bs[i].addr + 5 <= |m| && n == Put(m, bs[i].addr + 4, 1, 1)
    ensures Unlinked(n, w, r, MarkFree(bs, i))
    ensures Framed(m, n, r, Live(MarkFree(bs, i)))
  {
    hide Field, Put, Clean, RecordAt, OrderedLinks, Framed;
    var b := bs[i];
    MarkFreeKeeps(r, bs, i);
    UnlinkedBlock(m, w, r, bs, i);
    MarkedRecord(m, n, w, b);
    forall k | 0 <= k < |bs| && k != i
      ensures bs[k].End() <= b.addr || b.End() <= bs[k].addr
    {
      PayloadsDisjoint(r, bs, i, k);
    }
    Rewritten(m, n, w, bs, MarkFree(bs, i), b.addr, b.End());
    NullLinksAreOrdered(n, w, MarkFree(bs, i));
    FramedWithin(m, n, r, bs, i, i, Live(MarkFree(bs, i)));
  }

  /** The memory after the free block `low` has swallowed the free block `high` after it. */
  ghost function Absorbed(m: seq<byte>, w: nat, low: Block, high: Block): (n: seq<byte>)
    requires Clean(m, w, low) && Clean(m, w, high) && low.End() == high.addr
    requires low.size + high.size < 0x1_0000_0000
    ensures SameOutside(m, n, low.addr, high.End())
    ensures low.free ==> Clean(n, w, low.(size := low.size + high.size))
  {
    hide Field, Put, Power256;
    SmallWidths();
    var foot := high.size + high.addr - FooterSize(w);
    var n1 := Put(m, foot + 4, w, 0);
    var n2 := Put(n1, low.addr + 5, w, 0);
    var n3 := Put(n2, low.addr, 4, low.size + high.size);
    Put(n3, foot, 4, low.size + high.size)
  }

  lemma UnlinkedPair(m: seq<byte>, w: nat, r: Region, bs: Blocks, i: nat)
    requires Unlinked(m, w, r, bs) && i + 1 < |bs|
    ensures bs[i].End() == bs[i + 1].addr && bs[i].size + bs[i + 1].size < 0x1_0000_0000
  {
    hide Field, Records, NullLinks, OrderedLinks;
    Inside(r, bs, i);
    Inside(r, bs, i + 1);
  }

  /** Every block of a merged sequence is the merged one or an old one on either side of it. */
  lemma MergedBlocks(r: Region, bs: Blocks, i: nat)
    requires Tiles(r, bs) && i + 1 < |bs|
    ensures forall k :: 0 <= k < |bs| - 1 && k != i ==>
                          && Merge(bs, i)[k] in bs
                          && (Merge(bs, i)[k].End() <= bs[i].addr || bs[i + 1].End() <= Merge(bs, i)[k].addr)
  {
    var cs := Merge(bs, i);
    forall k | 0 <= k < |cs| && k != i
      ensures cs[k] in bs && (cs[k].End() <= bs[i].addr || bs[i + 1].End() <= cs[k].addr)
    {
      MergedBlock(r, bs, i, k);
    }
  }

  lemma MergedBlock(r: Region, bs: Blocks, i: nat, k: nat)
    requires Tiles(r, bs) && i + 1 < |bs| && k < |bs| - 1 && k != i
    ensures Merge(bs, i)[k] == bs[if k < i then k else k + 1]
    ensures Merge(bs, i)[k].End() <= bs[i].addr || bs[i + 1].End() <= Merge(bs, i)[k].addr
  {
    if k < i {
      Ordered(r, bs, k, i);
    } else {
      Ordered(r, bs, i + 1, k + 1);
    }
  }

  lemma AbsorbDone(m: seq<byte>, n: seq<byte>, w: nat, r: Region, bs: Blocks, i: nat)
    requires Unlinked(m, w, r, bs) && i + 1 < |bs| && bs[i].free && bs[i + 1].free
    requires SameOutside(m, n, bs[i].addr, bs[i + 1].End())
    requires Clean(n, w, bs[i].(size := bs[i].size + bs[i + 1].size))
    ensures Unlinked(n, w, r, Merge(bs, i))
    ensures Framed(m, n, r, Live(bs)) && Live(Merge(bs, i)) == Live(bs)
  {
    hide Field, Clean, RecordAt, OrderedLinks, Tiles, Framed;
    MergeLive(r, bs, i);
    MergeTiles(r, bs, i);
    MergedBlocks(r, bs, i);
    Rewritten(m, n, w, bs, Merge(bs, i), bs[i].addr, bs[i + 1].End());
    NullLinksAreOrdered(n, w, Merge(bs, i));
    FramedWithin(m, n, r, bs, i, i + 1, Live(bs));
  }

  class KernelHeap {
    const pointerWidth: nat
    const start: nat
    const end: nat
    const max: nat
    const supervisor: byte
    const readonly: byte
    /** All of memory; the heap owns [start, end). */
    var mem: seq<byte>
    ghost var blocks: Blocks

    function H(): nat { HeaderSize(pointerWidth) }

    function F(): nat { FooterSize(pointerWidth) }

    function Extent(): Region { Region(H(), F(), start, end) }

    ghost predicate Sound()
      reads this
    {
      SoundState(mem, pointerWidth, Extent(), blocks)
    }

    ghost predicate Valid()
      reads this
    {
      Good(mem, pointerWidth, Extent(), blocks)
    }

    /** create_heap. The descriptor is carved by the caller; `memory` is whatever is there. */
    constructor (w: nat, memory: seq<byte>, from: nat, to: nat, most: nat, s: byte, ro: byte)
      requires FooterSize(w) <= from && from + HeaderSize(w) + FooterSize(w) <= to <= |memory|
      requires to - from < 0x1_0000_0000
      ensures Valid() && pointerWidth == w && start == from && end == to && max == most
      ensures supervisor == s && readonly == ro
      ensures blocks == Created(Extent())
      ensures |mem| == |memory|
      ensures forall k :: 0 <= k < |mem| && !(from <= k < to) ==> mem[k] == memory[k]
    {
      hide Field, Put, SetHeader, SetFooter, Power256;
      SmallWidths();
      pointerWidth, start, end, max := w, from, to, most;
      supervisor, readonly := s, ro;
      var size := to - from;
      var m := SetHeader(memory, w, from, size, true, 0);
      m := SetFooter(m, w, to - FooterSize(w), size, 0);
      mem := m;
      blocks := [Block(from, size, true)];
    }

    // -------------------------------------------------------------- neighbours

    function NextContigBlock(data: nat): nat
      reads this
      requires H() <= data <= |mem|
    {
      var head := data - H();
      if head >= end || head + Field(mem, head, 4) >= end then 0 else head + Field(mem, head, 4)
    }

    function PrevFreeBlock(data: nat): nat
      reads this
      requires H() <= data <= |mem|
      requires F() <= data - H() + Field(mem, data - H(), 4) <= |mem|
    {
      var head := data - H();
      var foot := head + Field(mem, head, 4) - F();
      if Field(mem, head + 4, 1) != 0 then Field(mem, foot + 4, pointerWidth) else 0
    }

    /** As written, the previous footer is looked for H bytes below where it is. */
    function PrevContigBlock(data: nat): nat
      reads this
      requires H() + F() <= data <= |mem|
    {
      var head := data - H();
      var foot := head - F();
      if foot < start || head - Field(mem, foot, 4) < start then 0 else head - Field(mem, foot, 4)
    }

    lemma BlockFacts(i: nat)
      requires Sound() && i < |blocks|
      ensures start <= blocks[i].addr && blocks[i].End() <= end
      ensures RecordAt(mem, pointerWidth, blocks[i])
    {
      Inside(Extent(), blocks, i);
    }

    lemma NextContigIsNext(i: nat)
      requires Sound() && i < |blocks|
      ensures blocks[i].addr + H() <= |mem|
      ensures NextContigBlock(blocks[i].addr + H()) == if i + 1 < |blocks| then blocks[i + 1].addr else 0
    {
      hide Field, OrderedLinks, Records;
      BlockFacts(i);
      if i + 1 < |blocks| {
        BlockFacts(i + 1);
      }
    }

    lemma PrevContigIsPrev(i: nat)
      requires Sound() && i < |blocks|
      ensures F() <= blocks[i].addr && blocks[i].addr + H() <= |mem|
      ensures PrevContigBlock(blocks[i].addr + H()) == if i > 0 then blocks[i - 1].addr else 0
    {
      hide Field, OrderedLinks, Records;
      BlockFacts(i);
      if i > 0 {
        BlockFacts(i - 1);
        assert blocks[i - 1].End() == blocks[i].addr;
      }
    }

    // -------------------------------------------------------------- khalloc

    ghost predicate BlockAt(head: nat, i: nat)
      reads this
    {
      i < |blocks| && blocks[i].addr == head
    }

    /** The first search loop of khalloc: up the next links. */
    method LastLinked() returns (head: nat)
      requires Sound()
      ensures exists i: nat :: BlockAt(head, i)
      ensures NullLinks(mem, pointerWidth, blocks) ==> head == start
    {
      hide Field;
      head := start;
      ghost var i: nat := 0;
      while head != 0
        invariant BlockAt(head, i)
        invariant NullLinks(mem, pointerWidth, blocks) ==> i == 0
        decreases |blocks| - i
      {
        BlockFacts(i);
        var next := Field(mem, head + 5, pointerWidth);
        assert next == NextLink(mem, pointerWidth, blocks[i]);
        if next == 0 {
          break;
        }
        assert LinksFrom(mem, pointerWidth, blocks, i);
        ghost var j :| i < j < |blocks| && blocks[j].addr == next;
        i, head := j, next;
      }
    }

    /** The second: down the contiguous blocks to a free one, or off the start. */
    method LastFree(from: nat, ghost k: nat) returns (head: nat)
      requires Sound() && BlockAt(from, k)
      ensures head != 0 ==> exists i: nat :: BlockAt(head, i) && blocks[i].free
      ensures blocks[k].free ==> head == from
    {
      hide Field, Tiles, OrderedLinks;
      head := from;
      ghost var i: nat := k;
      BlockFacts(i);
      while Field(mem, head + 4, 1) == 0
        invariant BlockAt(head, i) && head + 5 <= |mem|
        invariant blocks[k].free ==> i == k
        decreases i
      {
        BlockFacts(i);
        PrevContigIsPrev(i);
        head := PrevContigBlock(head + H());
        if head == 0 {
          return;
        }
        i := i - 1;
        BlockFacts(i);
      }
      BlockFacts(i);
    }

    /** The third: down the prev links to a free block of at least `need` bytes. */
    method LastFit(from: nat, ghost k: nat, need: nat) returns (head: nat)
      requires Sound() && BlockAt(from, k) && blocks[k].free
      ensures head != 0 ==> exists i: nat :: BlockAt(head, i) && blocks[i].free && blocks[i].size >= need
      ensures NullLinks(mem, pointerWidth, blocks) ==>
                head == if blocks[k].size >= need then from else 0
    {
      hide Field, Tiles;
      head := from;
      ghost var i: nat := k;
      BlockFacts(i);
      while Field(mem, head, 4) < need
        invariant BlockAt(head, i) && head + 4 <= |mem|
        invariant NullLinks(mem, pointerWidth, blocks) ==> i == k
        decreases i
      {
        BlockFacts(i);
        head := PrevFreeBlock(head + H());
        if head == 0 {
          return;
        }
        assert LinksFrom(mem, pointerWidth, blocks, i);
        ghost var j :| 0 <= j < i && blocks[j].addr == head;
        i := j;
        BlockFacts(i);
      }
      BlockFacts(i);
      if Field(mem, head + 4, 1) == 0 {
        head := 0;
      }
    }

    /** The three together, on a heap without links: the first block or nothing. 0 stands for the
        panic at the end of the search, and for the page fault on NULL when no block below is
        free, which panics too. */
    method FindFit(need: nat) returns (head: nat)
      requires Valid()
      ensures head == if blocks[0].size >= need then start else 0
    {
      hide Good, SoundState, NullLinks, Inv;
      GoodIsSound(mem, pointerWidth, Extent(), blocks);
      head := LastLinked();
      assert BlockAt(head, 0);
      head := LastFree(head, 0);
      head := LastFit(head, 0, need);
    }

    /** khalloc. The request is served from the high end of the block that is found.

        As written, the fit test asks only for `size + H + F` bytes, in wrapping arithmetic, and
        the new footer is placed H bytes higher. */
    method Khalloc(size: nat) returns (p: nat, panicked: bool)
      requires Valid()
      modifies this
      ensures Valid()
      ensures panicked <==> size > 0 && old(blocks)[0].size < size + 2 * (H() + F())
      ensures p == if size == 0 || panicked then 0 else old(blocks)[0].End() - F() - size
      ensures blocks == Allocate(Extent(), old(blocks), size)
      ensures Live(blocks) == old(Live(blocks)) + (if p == 0 then {} else {Block(p - H(), size + H() + F(), false)})
      ensures Framed(old(mem), mem, Extent(), old(Live(blocks)))
    {
      hide Good, SoundState, NullLinks, Inv, Clean;
      GoodIsSound(mem, pointerWidth, Extent(), blocks);
      AllocateKeeps(Extent(), blocks, size);
      if size == 0 {
        return 0, false;
      }
      var head := FindFit(size + 2 * (H() + F()));
      if head == 0 {
        return 0, true;
      }
      ghost var was := blocks;
      p := Carve(head, size, blocks[0]);
      blocks := Split(was, size + H() + F());
      SplitDone(old(mem), mem, pointerWidth, Extent(), was, size);
      return p, false;
    }

    /** The stores of khalloc: the high end of the block at `head` becomes a block of its own. */
    method Carve(head: nat, size: nat, ghost b: Block) returns (p: nat)
      requires Clean(mem, pointerWidth, b) && b.addr == head && b.free && b.size < 0x1_0000_0000
      requires b.size >= size + 2 * (H() + F())
      modifies this`mem
      ensures SameOutside(old(mem), mem, b.addr, b.End())
      ensures var n := size + H() + F();
              && Clean(mem, pointerWidth, Block(head, b.size - n, true))
              && Clean(mem, pointerWidth, Block(head + b.size - n, n, false))
              && p == head + b.size - n + H()
    {
      hide Field, Put, SetHeader, SetFooter, Power256, Clean, SameOutside;
      SmallWidths();
      CleanFields(mem, pointerWidth, b);
      var m := mem;
      var sizeH := Field(m, head, 4);
      var foot := head + sizeH - F();
      var newFoot := head + sizeH - size - H() - 2 * F();
      var newHead := newFoot + F();
      m := SetHeader(m, pointerWidth, newHead, size + H() + F(), false, 0);
      assert Field(m, head, 4) == b.size && Field(m, foot + 4, pointerWidth) == 0;
      m := Put(m, head, 4, Field(m, head, 4) - Field(m, newHead, 4));
      assert Field(m, newHead, 4) == size + H() + F() && Field(m, foot + 4, pointerWidth) == 0;
      m := SetFooter(m, pointerWidth, newFoot, Field(m, head, 4), Field(m, foot + 4, pointerWidth));
      m := SetFooter(m, pointerWidth, foot, Field(m, newHead, 4), 0);
      assert m == Carved(mem, pointerWidth, b, size);
      CarvedLow(mem, pointerWidth, b, size);
      CarvedHigh(mem, pointerWidth, b, size);
      mem := m;
      p := newHead + H();
    }

    // -------------------------------------------------------------- khfree

    /** The stores that merge two free neighbours; khfree does this with the block after the freed
        one, and then with the block before it. */
    method Absorb(low: nat, high: nat, ghost i: nat)
      requires Unlinked(mem, pointerWidth, Extent(), blocks) && i + 1 < |blocks|
      requires blocks[i].addr == low && blocks[i + 1].addr == high && blocks[i].free && blocks[i + 1].free
      modifies this
      ensures Unlinked(mem, pointerWidth, Extent(), blocks) && blocks == Merge(old(blocks), i)
      ensures Framed(old(mem), mem, Extent(), Live(blocks)) && Live(blocks) == old(Live(blocks))
    {
      hide Field, Put, Power256, Unlinked, Clean, SameOutside;
      SmallWidths();
      ghost var a, b := blocks[i], blocks[i + 1];
      UnlinkedBlock(mem, pointerWidth, Extent(), blocks, i);
      UnlinkedBlock(mem, pointerWidth, Extent(), blocks, i + 1);
      UnlinkedPair(mem, pointerWidth, Extent(), blocks, i);
      CleanFields(mem, pointerWidth, a);
      CleanFields(mem, pointerWidth, b);
      var m := mem;
      var foot := Field(m, high, 4) + high - F();
      var lowFoot := Field(m, low, 4) + low - F();
      m := Put(m, foot + 4, pointerWidth, Field(m, lowFoot + 4, pointerWidth));
      m := Put(m, low + 5, pointerWidth, Field(m, high + 5, pointerWidth));
      m := Put(m, low, 4, Field(m, low, 4) + Field(m, high, 4));
      m := Put(m, foot, 4, Field(m, low, 4));
      assert m == Absorbed(mem, pointerWidth, a, b);
      AbsorbDone(mem, m, pointerWidth, Extent(), blocks, i);
      mem := m;
      blocks := Merge(blocks, i);
    }

    /** The freed block swallows the block after it, if that one is free. */
    method CoalesceNext(p: nat, ghost i: nat)
      requires Unlinked(mem, pointerWidth, Extent(), blocks)
      requires i < |blocks| && blocks[i].addr + H() == p && blocks[i].free
      modifies this
      ensures Unlinked(mem, pointerWidth, Extent(), blocks) && blocks == MergeNext(old(blocks), i)
      ensures Framed(old(mem), mem, Extent(), Live(blocks)) && Live(blocks) == old(Live(blocks))
    {
      hide Field, Clean, Framed, NullLinks, OrderedLinks, Tiles;
      FramedSame(mem, Extent(), Live(blocks));
      NextContigIsNext(i);
      if i + 1 < |blocks| {
        BlockFacts(i + 1);
      }
      var next := NextContigBlock(p);
      if next != 0 {
        if Field(mem, next + 4, 1) != 0 {
          Absorb(p - H(), next, i);
        }
      }
    }

    /** The block before the freed one swallows it, if that one is free. */
    method CoalescePrev(p: nat, ghost i: nat)
      requires Unlinked(mem, pointerWidth, Extent(), blocks)
      requires i < |blocks| && blocks[i].addr + H() == p && blocks[i].free
      modifies this
      ensures Unlinked(mem, pointerWidth, Extent(), blocks) && blocks == MergePrev(old(blocks), i)
      ensures Framed(old(mem), mem, Extent(), Live(blocks)) && Live(blocks) == old(Live(blocks))
    {
      hide Field, Clean, Framed, NullLinks, OrderedLinks, Tiles;
      FramedSame(mem, Extent(), Live(blocks));
      PrevContigIsPrev(i);
      if i > 0 {
        BlockFacts(i - 1);
      }
      var prev := PrevContigBlock(p);
      if prev != 0 {
        if Field(mem, prev + 4, 1) != 0 {
          Absorb(prev, p - H(), i - 1);
        }
      }
    }

    /** khfree of NULL, of a live pointer, or of a pointer whose block is already free. */
    method Khfree(p: nat)
      requires Valid()
      requires p == 0 || exists i :: 0 <= i < |blocks| && blocks[i].addr + H() == p
      modifies this
      ensures Valid()
      ensures p == 0 ==> blocks == old(blocks) && mem == old(mem)
      ensures forall i :: 0 <= i < |old(blocks)| && old(blocks)[i].addr + H() == p && p != 0 ==>
                            blocks == Release(old(blocks), i)
      ensures Live(blocks) == set b | b in old(Live(blocks)) && (p == 0 || b.addr + H() != p)
      ensures Framed(old(mem), mem, Extent(), Live(blocks))
    {
      hide Field, Put, Good, Unlinked, Clean, Framed, Inv, SoundState, NullLinks, RecordAt, Tiles;
      FramedSame(mem, Extent(), Live(blocks));
      if p == 0 {
        return;
      }
      ghost var i :| 0 <= i < |blocks| && blocks[i].addr + H() == p;
      GoodIsSound(mem, pointerWidth, Extent(), blocks);
      UnlinkedBlock(mem, pointerWidth, Extent(), blocks, i);
      CleanFields(mem, pointerWidth, blocks[i]);
      OnlyBlockAt(Extent(), blocks, i);
      var head := p - H();
      if Field(mem, head + 4, 1) == 0 {
        ghost var m0, was := mem, blocks;
        mem := Put(mem, head + 4, 1, 1);
        blocks := MarkFree(was, i);
        MarkDone(m0, mem, pointerWidth, Extent(), was, i);
        ghost var m1 := mem;
        CoalesceNext(p, i);
        FramedTwice(m0, m1, mem, Extent(), Live(blocks));
        ghost var m2 := mem;
        CoalescePrev(p, i);
        FramedTwice(m0, m2, mem, Extent(), Live(blocks));
        ReleaseKeeps(Extent(), was, i);
        CoalescedIsGood(mem, pointerWidth, Extent(), blocks);
      }
    }
  }
}
