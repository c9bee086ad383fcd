/** The three places where alloc.c, as written, departs from its intent, and exactly when each
    does harm. The records and the search are those of `Heap.dfy`. */
module HeapAsWritten {
  import opened LittleEndian
  import opened HeapBlocks
  import opened Heap

  /** The fit test as written: no room is asked for the records of what is left, and the sum is
      taken modulo the width of size_t, which is `w` bytes. */
  predicate FitsAsWritten(w: nat, b: Block, size: nat) {
    b.size >= (size + HeaderSize(w) + FooterSize(w)) % Power256(w)
  }

  /** The sum wraps for sizes within H + F of the top: every block is taken to fit them. */
  lemma HugeRequestFits(w: nat, b: Block, size: nat)
    requires Power256(w) - HeaderSize(w) - FooterSize(w) <= size < Power256(w)
    requires HeaderSize(w) + FooterSize(w) <= Power256(w) && b.size >= HeaderSize(w) + FooterSize(w)
    ensures FitsAsWritten(w, b, size)
  {
    hide Power256;
    Wrapped(size + HeaderSize(w) + FooterSize(w), Power256(w));
  }

  /** A request that leaves fewer than H + F bytes leaves a block that no memory has records for. */
  lemma TightFitLeavesNoRecords(m: seq<byte>, w: nat, b: Block, size: nat)
    requires size + HeaderSize(w) + FooterSize(w) <= b.size < size + 2 * (HeaderSize(w) + FooterSize(w))
    requires size + HeaderSize(w) + FooterSize(w) < Power256(w)
    ensures FitsAsWritten(w, b, size)
    ensures !RecordAt(m, w, Rest(w, b, size))
  {
    hide Power256, Field;
    Wrapped(size + HeaderSize(w) + FooterSize(w), Power256(w));
  }

  /** Of a request that leaves the rest of its block, the rest can be given records exactly when H + F
      bytes are left: below that no memory has them. */
  lemma RestHasRecordsIff(m: seq<byte>, w: nat, b: Block, size: nat)
    requires Clean(m, w, b) && b.free && b.size < 0x1_0000_0000
    requires size + HeaderSize(w) + FooterSize(w) <= b.size
    ensures (exists n: seq<byte> :: RecordAt(n, w, Rest(w, b, size))) <==>
            size + 2 * (HeaderSize(w) + FooterSize(w)) <= b.size
  {
    hide Field;
    if size + 2 * (HeaderSize(w) + FooterSize(w)) <= b.size {
      CarvedLow(m, w, b, size);
      assert RecordAt(Carved(m, w, b, size), w, Rest(w, b, size));
    }
  }

  /** The repaired fit test: a request is granted exactly when the first block covers it with its records,
      and some memory has records for what is left of that block. */
  lemma FitsIffRestHasRecords(m: seq<byte>, w: nat, r: Region, bs: Blocks, size: nat)
    requires Good(m, w, r, bs)
    ensures Fits(r, bs, size) <==>
            && size + HeaderSize(w) + FooterSize(w) <= bs[0].size
            && exists n: seq<byte> :: RecordAt(n, w, Rest(w, bs[0], size))
  {
    hide Field, RecordAt, Inv, OrderedLinks;
    GoodIsSound(m, w, r, bs);
    if size + HeaderSize(w) + FooterSize(w) <= bs[0].size {
      RestHasRecordsIff(m, w, bs[0], size);
    }
  }

  /** What a request of `size` bytes leaves of block `b`. */
  function Rest(w: nat, b: Block, size: nat): Block
    requires size + HeaderSize(w) + FooterSize(w) <= b.size
  {
    Block(b.addr, b.size - size - HeaderSize(w) - FooterSize(w), true)
  }

  /** The fit test as written accepts only requests that leave room for both pairs of records exactly
      when the sum does not wrap and the request is not one of the H + F sizes that fit too tightly. */
  lemma FitsAsWrittenIff(w: nat, b: Block, size: nat)
    requires size < Power256(w) && HeaderSize(w) + FooterSize(w) <= b.size < Power256(w)
    ensures var n := HeaderSize(w) + FooterSize(w);
            (FitsAsWritten(w, b, size) ==> size + 2 * n <= b.size) <==>
            size + n < Power256(w) && (size + n > b.size || size + 2 * n <= b.size)
  {
    hide Power256;
    Wrapped(size + HeaderSize(w) + FooterSize(w), Power256(w));
  }

  lemma Wrapped(sum: nat, m: nat)
    requires 0 < m && sum < 2 * m
    ensures sum % m == if sum < m then sum else sum - m
  {
    if sum < m {
      assert sum / m == 0;
    } else {
      assert sum / m == 1;
    }
  }

  /** Where the split as written puts the header of the new block: H bytes above the place that
      leaves the new block flush with the end of the old one. */
  function NewHeadAsWritten(w: nat, b: Block, size: nat): nat
    requires b.size >= size + HeaderSize(w) + FooterSize(w)
  {
    b.End() - size - FooterSize(w)
  }

  /** What khalloc as written grants from block `b`. */
  predicate Granted(w: nat, b: Block, size: nat) {
    size > 0 && FitsAsWritten(w, b, size)
  }

  /** The pointer that it then returns, in arithmetic modulo the width of an address. */
  function PointerAsWritten(w: nat, b: Block, size: nat): nat {
    (b.End() - size - FooterSize(w) + HeaderSize(w)) % Power256(w)
  }

  /** Every granted request, also one whose sum wraps, has a payload that ends H - F bytes past its block:
      it overlaps the whole footer and then the first H - F bytes of whatever follows, which is past
      the end of the heap for the first request. So a payload keeps off the records at the end of
      its block exactly when there is none. */
  lemma PayloadAsWrittenIff(w: nat, b: Block, size: nat)
    requires size < Power256(w) && b.End() + HeaderSize(w) - FooterSize(w) < Power256(w)
    requires HeaderSize(w) + FooterSize(w) <= b.size
    ensures var p := PointerAsWritten(w, b, size);
            && (p + size) % Power256(w) == b.End() + HeaderSize(w) - FooterSize(w)
            && (size + HeaderSize(w) + FooterSize(w) <= b.size ==>
                  p == NewHeadAsWritten(w, b, size) + HeaderSize(w))
            && (Granted(w, b, size) ==> p + size > b.End() - FooterSize(w))
  {
    hide Power256;
    var n, e := Power256(w), b.End() + HeaderSize(w) - FooterSize(w);
    Wrapped(size + HeaderSize(w) + FooterSize(w), n);
    if e >= size {
      Wrapped(e - size, n);
      Wrapped(e, n);
    } else {
      Unwrapped(e - size, n);
      Wrapped(e + n, n);
    }
  }

  lemma Unwrapped(x: int, m: nat)
    requires 0 < m && x < 0 <= x + m
    ensures x % m == x + m
  {
    assert x / m == -1;
  }

  /** The stores of the split as written. */
  ghost function CarvedAsWritten(m: seq<byte>, w: nat, b: Block, size: nat): (n: seq<byte>)
    requires Clean(m, w, b) && b.size < 0x1_0000_0000 && 0 < size
    requires b.size >= size + HeaderSize(w) + FooterSize(w)
    ensures |n| == |m|
  {
    hide Field, Put, SetHeader, SetFooter, Power256;
    SmallWidths();
    var taken := size + HeaderSize(w) + FooterSize(w);
    var newHead := NewHeadAsWritten(w, b, size);
    var newFoot := newHead - FooterSize(w);
    var n1 := SetHeader(m, w, newHead, taken, false, 0);
    var n2 := Put(n1, b.addr, 4, b.size - taken);
    var n3 := SetFooter(n2, w, newFoot, b.size - taken, 0);
    SetFooter(n3, w, b.End() - FooterSize(w), taken, 0)
  }

  /** The recorded extent of the new block runs past the old one by exactly H bytes. */
  lemma OverlapIsHeaderSize(m: seq<byte>, w: nat, b: Block, size: nat)
    requires Clean(m, w, b) && b.size < 0x1_0000_0000 && 4 <= size
    requires b.size >= size + HeaderSize(w) + FooterSize(w)
    ensures var newHead := NewHeadAsWritten(w, b, size);
            newHead + Field(CarvedAsWritten(m, w, b, size), newHead, 4) == b.End() + HeaderSize(w)
  {
    hide Field, Put, SetHeader, SetFooter, Power256;
    SmallWidths();
  }

  /** For requests below four bytes the footer of the old block, stored last, is stored over the size
      of the new one: the extent it then records is larger still. */
  lemma TinyRequestExtent(m: seq<byte>, w: nat, b: Block, size: nat)
    requires Clean(m, w, b) && b.size < 0x1_0000_0000 && 0 < size < 4 && w <= 8
    requires b.size >= size + HeaderSize(w) + FooterSize(w)
    ensures var newHead := NewHeadAsWritten(w, b, size);
            Field(CarvedAsWritten(m, w, b, size), newHead, 4) ==
            (size + HeaderSize(w) + FooterSize(w)) * (1 + Power256(size))
  {
    hide Field, Put, SetHeader, SetFooter, Power256;
    SmallWidths();
    var taken := size + HeaderSize(w) + FooterSize(w);
    var newHead := NewHeadAsWritten(w, b, size);
    OverlaidSize(SetHeader(m, w, newHead, taken, false, 0), CarvedAsWritten(m, w, b, size), newHead, size, taken);
  }

  lemma OverlaidSize(m: seq<byte>, n: seq<byte>, a: nat, k: nat, v: nat)
    requires 0 < k < 4 && a + k + 4 <= |m| == |n| && v < 256
    requires Field(m, a, 4) == v && Field(n, a + k, 4) == v
    requires forall j :: a <= j < a + k ==> n[j] == m[j]
    ensures Field(n, a, 4) == v * (1 + Power256(k))
  {
    hide Field;
    FourBytes(m, a);
    FourBytes(n, a);
    FourBytes(n, a + k);
    assert Power256(1) == 256 && Power256(2) == 0x1_0000 && Power256(3) == 0x100_0000;
  }

  /** After a split as written the low block has records exactly when the request left room for
      them and the stale bytes at the place of its footer already spelled its size: nothing is
      stored there. */
  lemma LowFooterAsWrittenIff(m: seq<byte>, w: nat, b: Block, size: nat)
    requires Clean(m, w, b) && b.free && b.size < 0x1_0000_0000 && 0 < size
    requires b.size >= size + HeaderSize(w) + FooterSize(w)
    ensures var low := Rest(w, b, size);
            RecordAt(CarvedAsWritten(m, w, b, size), w, low) <==>
            low.size >= HeaderSize(w) + FooterSize(w) && Field(m, low.End() - FooterSize(w), 4) == low.size
  {
    hide Field, Put, SetHeader, SetFooter, Power256;
    SmallWidths();
    CleanFields(m, w, b);
  }

  /** `a - b` on 32-bit words. */
  function Minus(a: nat, b: nat): nat
    requires b < 0x1_0000_0000
  {
    if b <= a then a - b else a - b + 0x1_0000_0000
  }

  /** prev_contig_block as written: the footer is looked for at `head - H - F`. */
  function PrevContigAsWritten(m: seq<byte>, w: nat, start: nat, head: nat): nat
    requires HeaderSize(w) + FooterSize(w) <= head <= |m|
  {
    var foot := head - HeaderSize(w) - FooterSize(w);
    FieldBounded(m, foot, 4);
    SmallWidths();
    var prev := Minus(head, Field(m, foot, 4));
    if foot < start || prev < start then 0 else prev
  }

  /** As written the lookup finds the block before `i` exactly when the four bytes H below its
      footer, payload or stale, happen to spell its size. */
  lemma PrevContigAsWrittenIff(m: seq<byte>, w: nat, r: Region, bs: Blocks, i: nat)
    requires Good(m, w, r, bs) && 0 < i < |bs|
    ensures HeaderSize(w) + FooterSize(w) <= bs[i].addr <= |m|
    ensures PrevContigAsWritten(m, w, r.start, bs[i].addr) == bs[i - 1].addr <==>
            Field(m, bs[i].addr - HeaderSize(w) - FooterSize(w), 4) == bs[i - 1].size
  {
    hide Field, Power256;
    SmallWidths();
    Inside(r, bs, i);
    Inside(r, bs, i - 1);
    assert bs[i - 1].End() == bs[i].addr;
    FieldBounded(m, bs[i].addr - HeaderSize(w) - FooterSize(w), 4);
  }

  /** In particular over zeroed bytes the block is taken for its own predecessor. */
  lemma PrevContigAsWrittenOverZeros(m: seq<byte>, w: nat, r: Region, bs: Blocks, i: nat)
    requires Good(m, w, r, bs) && 0 < i < |bs|
    requires bs[i].addr >= HeaderSize(w) + FooterSize(w) && bs[i].addr <= |m|
    requires Field(m, bs[i].addr - HeaderSize(w) - FooterSize(w), 4) == 0
    ensures PrevContigAsWritten(m, w, r.start, bs[i].addr) == bs[i].addr
  {
    hide Field;
    Inside(r, bs, i - 1);
    assert bs[i - 1].End() == bs[i].addr;
  }

  /** The stores with which khfree merges the block at `head` into the one at `prev`, as they are
      done when the lookup returned `head` itself. */
  ghost function MergedWithItself(m: seq<byte>, w: nat, b: Block): (n: seq<byte>)
    requires Clean(m, w, b) && b.size < 0x1_0000_0000
    ensures |n| == |m|
  {
    hide Field, Put, Power256;
    SmallWidths();
    CleanFields(m, w, b);
    var foot := Field(m, b.addr, 4) + b.addr - FooterSize(w);
    var n1 := Put(m, foot + 4, w, Field(m, foot + 4, w));
    var n2 := Put(n1, b.addr + 5, w, Field(n1, b.addr + 5, w));
    var n3 := Put(n2, b.addr, 4, (Field(n2, b.addr, 4) + Field(n2, b.addr, 4)) % 0x1_0000_0000);
    Put(n3, foot, 4, Field(n3, b.addr, 4))
  }

  /** They double the size of the block: afterwards no list of blocks with a block at this place
      has its records, except with one that ends as far behind the old end again. */
  lemma MergedWithItselfDoubles(m: seq<byte>, w: nat, b: Block, c: Block)
    requires Clean(m, w, b) && 2 * b.size < 0x1_0000_0000 && c.addr == b.addr
    requires RecordAt(MergedWithItself(m, w, b), w, c)
    ensures c.End() == b.End() + b.size
  {
    hide Field, Put, Power256;
    SmallWidths();
    CleanFields(m, w, b);
  }

  /** Whatever the payloads hold, the lookup as written is right exactly when the block before is the
      smallest there can be: then the word it reads is the size in that block's header. */
  lemma PrevContigAsWrittenRightIff(m: seq<byte>, w: nat, r: Region, bs: Blocks, i: nat)
    requires Good(m, w, r, bs) && 0 < i < |bs| && w <= 8
    ensures AlwaysFindsPrev(w, r, bs, i) <==> bs[i - 1].size == HeaderSize(w) + FooterSize(w)
  {
    hide Good;
    var b := bs[i - 1];
    GoodBlock(m, w, r, bs, i);
    if b.size == HeaderSize(w) + FooterSize(w) {
      forall n | Good(n, w, r, bs)
        ensures FindsPrev(n, w, r, bs, i)
      {
        GoodBlock(n, w, r, bs, i);
      }
    } else {
      var n := WrongPrev(m, w, r, bs, i);
      assert !FindsPrev(n, w, r, bs, i);
    }
  }

  ghost predicate FindsPrev(m: seq<byte>, w: nat, r: Region, bs: Blocks, i: nat)
    requires 0 < i < |bs|
  {
    && HeaderSize(w) + FooterSize(w) <= bs[i].addr <= |m|
    && PrevContigAsWritten(m, w, r.start, bs[i].addr) == bs[i - 1].addr
  }

  ghost predicate AlwaysFindsPrev(w: nat, r: Region, bs: Blocks, i: nat)
    requires 0 < i < |bs|
  {
    forall m :: Good(m, w, r, bs) ==> FindsPrev(m, w, r, bs, i)
  }

  lemma GoodBlock(m: seq<byte>, w: nat, r: Region, bs: Blocks, i: nat)
    requires Good(m, w, r, bs) && 0 < i < |bs|
    ensures Clean(m, w, bs[i - 1]) && bs[i - 1].End() == bs[i].addr <= |m|
    ensures FindsPrev(m, w, r, bs, i) <==>
            Field(m, bs[i].addr - HeaderSize(w) - FooterSize(w), 4) == bs[i - 1].size
  {
    hide Field;
    PrevContigAsWrittenIff(m, w, r, bs, i);
    assert Clean(m, w, bs[i - 1]);
  }

  /** Behind any larger block the lookup can be misled: the word is either payload, and zero if its
      owner stored zeros, or begins inside the header, with a byte that is no size. */
  lemma WrongPrev(m: seq<byte>, w: nat, r: Region, bs: Blocks, i: nat) returns (n: seq<byte>)
    requires Good(m, w, r, bs) && 0 < i < |bs| && w <= 8
    requires bs[i - 1].size > HeaderSize(w) + FooterSize(w)
    ensures Good(n, w, r, bs) && !FindsPrev(n, w, r, bs, i)
  {
    hide Field, Put, Power256, Good;
    SmallWidths();
    var b := bs[i - 1];
    GoodBlock(m, w, r, bs, i);
    var a := b.End() - HeaderSize(w) - FooterSize(w);
    if a >= b.addr + HeaderSize(w) {
      n := Put(m, a, 4, 0);
      PayloadIsFree(m, n, w, r, bs, i - 1);
    } else {
      n := m;
      HeaderByteIsSmall(m, w, b, a);
      FourBytes(m, a);
    }
    GoodBlock(n, w, r, bs, i);
  }

  lemma HeaderByteIsSmall(m: seq<byte>, w: nat, b: Block, a: nat)
    requires Clean(m, w, b) && b.size < 256 && b.addr < a < b.addr + HeaderSize(w)
    ensures a < |m| && m[a] <= 1
  {
    hide Field;
    CleanFields(m, w, b);
    FourBytes(m, b.addr);
    if a == b.addr + 4 {
      OneByte(m, a);
    } else if a > b.addr + 4 {
      ZeroField(m, b.addr + 5, w, a);
    }
  }

  lemma OneByte(m: seq<byte>, a: nat)
    requires a < |m|
    ensures Field(m, a, 1) == m[a]
  {
    var s := m[a..a + 1];
    assert s[1..] == [];
    assert Decode(s) == s[0] as int + 256 * Decode(s[1..]);
  }

  lemma ZeroField(m: seq<byte>, a: nat, width: nat, k: nat)
    requires a <= k < a + width <= |m| && Field(m, a, width) == 0
    ensures m[k] == 0
  {
    ZeroBytes(m[a..a + width]);
    assert m[a..a + width][k - a] == m[k];
  }
}
