/** Every run of khalloc and khfree. */
module HeapRuns {
  import opened HeapBlocks

  datatype Call = Khalloc(size: nat) | Khfree(p: nat)

  /** `p` points to the payload of a block, live or free. */
  ghost predicate BlockPointer(r: Region, bs: Blocks, p: nat) {
    exists b :: b in bs && b.addr + r.header == p
  }

  ghost function BlockOf(r: Region, bs: Blocks, p: nat): (b: Block)
    requires BlockPointer(r, bs, p)
    ensures b in bs && b.addr + r.header == p
  {
    var b :| b in bs && b.addr + r.header == p;
    b
  }

  ghost function IndexOf(bs: Blocks, b: Block): (i: nat)
    requires b in bs
    ensures i < |bs| && bs[i] == b
  {
    var i :| 0 <= i < |bs| && bs[i] == b;
    i
  }

  lemma BlockOfUnique(r: Region, bs: Blocks, b: Block)
    requires Tiles(r, bs) && b in bs
    ensures BlockPointer(r, bs, b.addr + r.header) && BlockOf(r, bs, b.addr + r.header) == b
  {
    SameBlock(r, bs, IndexOf(bs, b), IndexOf(bs, BlockOf(r, bs, b.addr + r.header)));
  }

  lemma LivePointerBlock(r: Region, bs: Blocks, p: nat)
    requires Tiles(r, bs) && LivePointer(r, bs, p)
    ensures p > 0 && BlockPointer(r, bs, p) && BlockOf(r, bs, p) in Live(bs)
  {
    var b :| b in Live(bs) && b.addr + r.header == p;
    BlockOfUnique(r, bs, b);
  }

  /** A caller may free NULL, a live pointer, or once more a pointer whose block is still a block of its
      own: khfree looks at the header in front of the pointer. */
  ghost predicate Legal(r: Region, bs: Blocks, call: Call) {
    call.Khfree? ==> call.p == 0 || BlockPointer(r, bs, call.p)
  }

  /** A request that does not fit panics, which stops the machine: whatever is claimed of all
      continuations from the unchanged heap is claimed of none that exists. */
  ghost function Step(r: Region, bs: Blocks, call: Call): Blocks
    requires Inv(r, bs) && Legal(r, bs, call)
  {
    match call
    case Khalloc(size) => Allocate(r, bs, size)
    case Khfree(p) => if p == 0 then bs else Release(bs, IndexOf(bs, BlockOf(r, bs, p)))
  }

  /** What a request that fits adds: the last bytes of the first block. */
  function NewBlock(r: Region, bs: Blocks, size: nat): Block
    requires bs != [] && Fits(r, bs, size)
  {
    Block(bs[0].End() - (size + r.Overhead()), size + r.Overhead(), false)
  }

  lemma StepKeeps(r: Region, bs: Blocks, call: Call)
    requires Inv(r, bs) && Legal(r, bs, call)
    ensures Inv(r, Step(r, bs, call))
    ensures call.Khalloc? && call.size > 0 && Fits(r, bs, call.size) ==>
              && NewBlock(r, bs, call.size) !in Live(bs)
              && Live(Step(r, bs, call)) == Live(bs) + {NewBlock(r, bs, call.size)}
    ensures call.Khalloc? && (call.size == 0 || !Fits(r, bs, call.size)) ==> Step(r, bs, call) == bs
    ensures call.Khfree? && call.p == 0 ==> Step(r, bs, call) == bs
    ensures call.Khfree? && call.p != 0 ==>
              && Live(Step(r, bs, call)) == Live(bs) - {BlockOf(r, bs, call.p)}
              && (BlockOf(r, bs, call.p).free ==> Step(r, bs, call) == bs)
  {
    match call
    case Khalloc(size) => AllocateKeeps(r, bs, size);
    case Khfree(p) =>
      if p != 0 && !BlockOf(r, bs, p).free {
        ReleaseKeeps(r, bs, IndexOf(bs, BlockOf(r, bs, p)));
      }
  }

  /** Freeing the pointer of block `i` is the release of block `i`. */
  lemma StepReleases(r: Region, bs: Blocks, i: nat)
    requires Inv(r, bs) && i < |bs|
    ensures BlockPointer(r, bs, bs[i].addr + r.header)
    ensures Step(r, bs, Khfree(bs[i].addr + r.header)) == Release(bs, i)
  {
    hide Release, Coalesced;
    var b := bs[i];
    BlockOfUnique(r, bs, b);
    var k := IndexOf(bs, b);
    SameBlock(r, bs, i, k);
  }

  ghost predicate LegalRun(r: Region, bs: Blocks, calls: seq<Call>)
    requires Inv(r, bs)
    decreases |calls|
  {
    calls != [] ==>
      && Legal(r, bs, calls[0])
      && (StepKeeps(r, bs, calls[0]); LegalRun(r, Step(r, bs, calls[0]), calls[1..]))
  }

  ghost function Run(r: Region, bs: Blocks, calls: seq<Call>): (cs: Blocks)
    requires Inv(r, bs) && LegalRun(r, bs, calls)
    ensures Inv(r, cs)
    decreases |calls|
  {
    if calls == [] then bs
    else
      StepKeeps(r, bs, calls[0]);
      Run(r, Step(r, bs, calls[0]), calls[1..])
  }

  lemma CallKeeps(r: Region, bs: Blocks, c: Call, b: Block)
    requires Inv(r, bs) && Legal(r, bs, c) && b in Live(bs) && c != Khfree(b.addr + r.header)
    ensures Inv(r, Step(r, bs, c)) && b in Live(Step(r, bs, c))
  {
    hide Step;
    StepKeeps(r, bs, c);
  }

  /** A live block stays where it is, with its size, until its own pointer is freed. */
  lemma {:induction false} StaysLive(r: Region, bs: Blocks, calls: seq<Call>, b: Block)
    requires Inv(r, bs) && LegalRun(r, bs, calls) && b in Live(bs)
    requires Khfree(b.addr + r.header) !in calls
    ensures b in Live(Run(r, bs, calls))
    decreases |calls|
  {
    hide Step, Legal;
    if calls != [] {
      CallKeeps(r, bs, calls[0], b);
      StaysLive(r, Step(r, bs, calls[0]), calls[1..], b);
    }
  }

  // ---------------------------------------------------------------- holes

  /** One call leaves a free block behind a live one as it is, unless it frees a neighbour. */
  lemma HoleKept(r: Region, bs: Blocks, c: Call, p: Block, b: Block)
    requires Inv(r, bs) && Legal(r, bs, c)
    requires p in Live(bs) && b in bs && b.free && p.End() == b.addr
    requires c != Khfree(p.addr + r.header) && c != Khfree(b.End() + r.header)
    ensures Inv(r, Step(r, bs, c)) && p in Live(Step(r, bs, c)) && b in Step(r, bs, c)
  {
    hide Coalesced, Tiles, Release, Allocate;
    StepKeeps(r, bs, c);
    var j, k := IndexOf(bs, p), IndexOf(bs, b);
    NextIndex(r, bs, j, k);
    match c
    case Khalloc(size) => AllocateElsewhere(r, bs, size, k);
    case Khfree(q) =>
      if q != 0 && !BlockOf(r, bs, q).free {
        var i := IndexOf(bs, BlockOf(r, bs, q));
        AddressBehind(r, bs, k);
        ReleaseElsewhere(bs, i, k);
      }
  }

  lemma AddressBehind(r: Region, bs: Blocks, k: nat)
    requires Tiles(r, bs) && k < |bs|
    ensures k + 1 < |bs| ==> bs[k].End() == bs[k + 1].addr
  {
  }

  lemma AllocateElsewhere(r: Region, bs: Blocks, size: nat, k: nat)
    requires 0 < k < |bs|
    ensures bs[k] in Allocate(r, bs, size)
  {
    var cs := Allocate(r, bs, size);
    assert cs == bs || cs[k + 1] == bs[k];
  }

  lemma NextIndex(r: Region, bs: Blocks, j: nat, k: nat)
    requires Tiles(r, bs) && j < |bs| && k < |bs| && bs[j].End() == bs[k].addr
    ensures k == j + 1
  {
    if j + 1 < |bs| {
      SameBlock(r, bs, j + 1, k);
    } else {
      Inside(r, bs, k);
    }
  }

  lemma ReleaseElsewhere(bs: Blocks, i: nat, k: nat)
    requires i < |bs| && k < |bs| && (k < i - 1 || k > i + 1)
    ensures bs[k] in Release(bs, i)
  {
    var b := bs[k];
    if !bs[i].free {
      var cs := MarkFree(bs, i);
      assert cs[k] == b;
      var ds := MergeNext(cs, i);
      var m := if |ds| < |cs| && k > i then k - 1 else k;
      assert ds[m] == b;
      var es := MergePrev(ds, i);
      assert es[if |es| < |ds| && m > i then m - 1 else m] == b;
    }
  }

  lemma {:induction false} HoleStaysBehind(r: Region, bs: Blocks, calls: seq<Call>, p: Block, b: Block)
    requires Inv(r, bs) && LegalRun(r, bs, calls)
    requires p in Live(bs) && b in bs && b.free && p.End() == b.addr
    requires Khfree(p.addr + r.header) !in calls && Khfree(b.End() + r.header) !in calls
    ensures b in Run(r, bs, calls)
    decreases |calls|
  {
    hide Step, Legal;
    if calls != [] {
      HoleKept(r, bs, calls[0], p, b);
      HoleStaysBehind(r, Step(r, bs, calls[0]), calls[1..], p, b);
    }
  }

  lemma FrontIsLive(r: Region, bs: Blocks, k: nat)
    requires Inv(r, bs) && 0 < k < |bs| && bs[k].free
    ensures bs[k - 1] in Live(bs) && bs[k - 1].End() == bs[k].addr
  {
    var j := k - 1;
    assert bs[j].End() == bs[j + 1].addr;
    assert !bs[j].free;
  }

  /** A freed hole is not used again before it coalesces: over any run, every free block but the first
      stays as it is until the block in front of it or the block behind it is freed. */
  lemma HoleStays(r: Region, bs: Blocks, calls: seq<Call>, k: nat)
    requires Inv(r, bs) && LegalRun(r, bs, calls) && 0 < k < |bs| && bs[k].free
    requires Khfree(bs[k - 1].addr + r.header) !in calls && Khfree(bs[k].End() + r.header) !in calls
    ensures bs[k] in Run(r, bs, calls)
  {
    hide Run, LegalRun, Step, Legal;
    FrontIsLive(r, bs, k);
    HoleStaysBehind(r, bs, calls, bs[k - 1], bs[k]);
  }

  // ---------------------------------------------------------------- batches of frees

  function Frees(ps: seq<nat>): (calls: seq<Call>)
    ensures |calls| == |ps|
  {
    seq(|ps|, i requires 0 <= i < |ps| => Khfree(ps[i]))
  }

  ghost predicate Distinct(ps: seq<nat>) {
    forall i, j :: 0 <= i < j < |ps| ==> ps[i] != ps[j]
  }

  /** The live blocks that a batch of frees leaves. */
  ghost function Remaining(r: Region, live: set<Block>, ps: seq<nat>): set<Block> {
    set b | b in live && b.addr + r.header !in ps
  }

  /** Freeing distinct live pointers, in whatever order, is legal and removes just their blocks. */
  lemma {:induction false} FreesRemove(r: Region, bs: Blocks, ps: seq<nat>)
    requires Inv(r, bs) && Distinct(ps)
    requires forall p :: p in ps ==> LivePointer(r, bs, p)
    ensures LegalRun(r, bs, Frees(ps))
    ensures Live(Run(r, bs, Frees(ps))) == Remaining(r, Live(bs), ps)
    decreases |ps|
  {
    if ps == [] {
      assert Remaining(r, Live(bs), ps) == Live(bs);
    } else {
      FreeOne(r, bs, ps);
      var cs := Step(r, bs, Khfree(ps[0]));
      FreesRemove(r, cs, ps[1..]);
      assert Frees(ps)[1..] == Frees(ps[1..]);
    }
  }

  lemma FreeOne(r: Region, bs: Blocks, ps: seq<nat>)
    requires Inv(r, bs) && Distinct(ps) && ps != []
    requires forall p :: p in ps ==> LivePointer(r, bs, p)
    ensures ps[0] in ps && ps[0] != 0 && BlockPointer(r, bs, ps[0])
    ensures Inv(r, Step(r, bs, Khfree(ps[0])))
    ensures forall p :: p in ps[1..] ==> LivePointer(r, Step(r, bs, Khfree(ps[0])), p)
    ensures Remaining(r, Live(bs), ps) == Remaining(r, Live(Step(r, bs, Khfree(ps[0]))), ps[1..])
  {
    hide Step, Tiles, Coalesced;
    var p := ps[0];
    assert p in ps;
    LivePointerBlock(r, bs, p);
    var b := BlockOf(r, bs, p);
    StepKeeps(r, bs, Khfree(p));
    var cs := Step(r, bs, Khfree(p));
    assert Live(cs) == Live(bs) - {b};
    forall q | q in ps[1..]
      ensures LivePointer(r, cs, q)
    {
      assert q in ps && q != p;
      LivePointerBlock(r, bs, q);
      assert BlockOf(r, bs, q) in Live(cs);
    }
    RemainingStep(r, bs, ps, b);
  }

  lemma RemainingStep(r: Region, bs: Blocks, ps: seq<nat>, b: Block)
    requires Tiles(r, bs) && ps != [] && b in Live(bs) && b.addr + r.header == ps[0]
    ensures Remaining(r, Live(bs), ps) == Remaining(r, Live(bs) - {b}, ps[1..])
  {
    forall c | c in Live(bs)
      ensures c.addr + r.header in ps <==> c == b || c.addr + r.header in ps[1..]
    {
      BlockOfUnique(r, bs, c);
      BlockOfUnique(r, bs, b);
      assert ps == [ps[0]] + ps[1..];
    }
  }

  /** After any legal run, freeing all live pointers in any order gives back the single free
      block that create_heap made. */
  lemma FreeingAllRestoresCreatedHeap(r: Region, calls: seq<Call>, ps: seq<nat>)
    requires 0 < r.header && r.start + r.Overhead() <= r.end
    requires Inv(r, Created(r)) && LegalRun(r, Created(r), calls)
    requires Distinct(ps)
    requires forall p :: p in ps <==> LivePointer(r, Run(r, Created(r), calls), p)
    ensures LegalRun(r, Run(r, Created(r), calls), Frees(ps))
    ensures Run(r, Run(r, Created(r), calls), Frees(ps)) == Created(r)
  {
    var bs := Run(r, Created(r), calls);
    FreesRemove(r, bs, ps);
    CreatedInv(r);
    assert Remaining(r, Live(bs), ps) == {};
    LiveDeterminesHeap(r, Run(r, bs, Frees(ps)), Created(r));
  }

  /** The order of a batch of frees leaves no trace, even when other blocks stay live. */
  lemma FreeOrderIrrelevant(r: Region, bs: Blocks, ps: seq<nat>, qs: seq<nat>)
    requires Inv(r, bs) && Distinct(ps) && Distinct(qs)
    requires forall p :: p in ps ==> LivePointer(r, bs, p)
    requires forall p :: p in ps <==> p in qs
    ensures LegalRun(r, bs, Frees(ps)) && LegalRun(r, bs, Frees(qs))
    ensures Run(r, bs, Frees(ps)) == Run(r, bs, Frees(qs))
  {
    FreesRemove(r, bs, ps);
    FreesRemove(r, bs, qs);
    assert Remaining(r, Live(bs), ps) == Remaining(r, Live(bs), qs);
    LiveDeterminesHeap(r, Run(r, bs, Frees(ps)), Run(r, bs, Frees(qs)));
  }
}
