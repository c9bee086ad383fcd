/** The memory layers together: what boot leaves behind, and kmalloc and kfree on top of it. */
module Kernel {
  import opened LittleEndian
  import opened PageTables
  import opened BootMap
  import opened HeapBlocks
  import opened Heap
  import opened Paging
  import SharedBitmap
  import FrameOwnership
  import HeapRuns
  import opened HeapTraces

  const KERNEL_HEAP_END: nat := 0xCFF_F000

  /** Where the identity holds it holds of the page tables themselves, all of which lie below the
      bump pointer: they can be written through their own addresses. */
  lemma TablesAreMapped(d: Directory, end: nat, t: nat)
    requires IdentityBelow(d, end) && d.placement <= end
    requires t < 1024 && d.tables[t] != 0
    ensures d.tables[t] % PAGE == 0 && d.tables[t] + PAGE <= d.placement
    ensures forall a :: d.tables[t] <= a < d.tables[t] + PAGE ==> MapToPhysical(d, a) == a
  {
    assert TableOk(d, t);
  }

  /** Every byte of every block of any heap on the booted region is present and maps to itself. */
  lemma HeapBytesAreMapped(d: Directory, r: Region, bs: Blocks, i: nat, a: nat)
    requires IdentityBelow(d, r.end) && PAGE <= r.start
    requires Tiles(r, bs) && i < |bs| && bs[i].addr <= a < bs[i].End()
    ensures a < SPACE && Translate(d, a) == At(a) && MapToPhysical(d, a) == a
  {
    Inside(r, bs, i);
  }

  /** The frames that no page gets although the bitmap says they are in use. */
  ghost function Lost(q: Plan): set<nat> {
    set n | n in q.stale && q.direct <= n < q.capacity
  }

  /** Boot leaves frame 0 reserved, the stale frames behind the direct pages lost, and every other marked
      frame owned by one page, which is where runs of alloc_frame and free_frame start from. */
  lemma BootIsExclusive(s: State, k: nat, top: nat, p0: nat, q: Plan)
    requires Mapped(s, k, top, p0, q) && q.direct <= k <= q.capacity
    requires forall n :: n in s.frames.marked ==> n < s.frames.capacity
    ensures FrameOwnership.Exclusive(s, {0} + Lost(q))
  {
    hide FrameOf, Resume;
    forall i, j | 0 <= i < j < k
      ensures FrameOf(q, i) < FrameOf(q, j)
    {
      PlannedIncrease(q, i, j);
    }
    forall j | 0 <= j < k
      ensures j <= FrameOf(q, j) < Resume(q, k) && FrameOf(q, j) < q.capacity && FrameOf(q, j) !in Lost(q)
    {
      OwnFrame(q, k, j);
    }
    assert 0 < Resume(q, k) by { PlannedAtLeast(q, k); }
    forall n: nat
      ensures n in s.frames.marked <==> n in {0} + Lost(q) || FrameOwnership.Owner(s.dir, n)
    {
      if n in s.frames.marked && n != 0 && n !in Lost(q) {
        PlannedAtLeast(q, k);
        BelowDirect(q, k, n);
        PlannedOnto(q, k, n);
        var j :| 0 <= j < k && FrameOf(q, j) == n;
        assert Entry(s.dir, j).frame == n;
      }
      if FrameOwnership.Owner(s.dir, n) && n != 0 {
        var j :| 0 <= j < PAGES && Entry(s.dir, j).frame == n;
        assert j < k && FrameOf(q, j) == n;
      }
      assert n in {0} + Lost(q) ==> 0 <= n < q.capacity && (n < Resume(q, k) || n in q.stale);
    }
  }

  lemma BelowDirect(q: Plan, k: nat, n: nat)
    requires q.direct <= k && (n < Resume(q, k) || n in q.stale) && n < q.capacity && n !in Lost(q)
    requires Resume(q, k) >= k
    ensures n < Resume(q, k) && (n >= q.direct ==> n !in q.stale)
  {
  }

  lemma OwnFrame(q: Plan, k: nat, j: nat)
    requires q.Ok() && q.direct <= k <= q.capacity && j < k
    requires forall i :: q.direct <= i < k ==> FrameOf(q, i) != NO_FRAME
    ensures j <= FrameOf(q, j) < Resume(q, k) && FrameOf(q, j) < q.capacity && FrameOf(q, j) !in Lost(q)
  {
    PlannedAtLeast(q, j);
    PlannedAtLeast(q, k);
    if j >= q.direct {
      PlannedFrame(q, j);
      if j < k - 1 {
        PlannedIncrease(q, j, k - 1);
      }
    }
  }

  /** The boot allocator goes on after the last table without disturbing the mapping. */
  lemma MovedPlacement(d: Directory, p: nat)
    requires WF(d) && p >= d.placement
    ensures WF(d.(placement := p))
    ensures forall j :: 0 <= j < PAGES ==> Entry(d.(placement := p), j) == Entry(d, j)
    ensures forall a :: 0 <= a < SPACE ==>
                          && MapToPhysical(d.(placement := p), a) == MapToPhysical(d, a)
                          && Translate(d.(placement := p), a) == Translate(d, a)
  {
    var d' := d.(placement := p);
    forall t | 0 <= t < 1024
      ensures TableOk(d', t)
    {
      assert TableOk(d, t);
    }
  }

  lemma SameOwnership(s: State, d: Directory, reserved: set<nat>)
    requires FrameOwnership.Exclusive(s, reserved) && WF(d)
    requires forall j :: 0 <= j < PAGES ==> Entry(d, j) == Entry(s.dir, j)
    ensures FrameOwnership.Exclusive(s.(dir := d), reserved)
  {
    FrameOwnership.SameOwners(s.dir, d);
  }

  /** The kernel after boot: a valid heap, all of it identity mapped, above the boot allocations. */
  ghost predicate Running(boot: BootMemory, heap: KernelHeap)
    reads boot, boot.frames, boot.tables, boot.physical, heap
  {
    && boot.Valid() && heap.Valid()
    && PAGE <= heap.start && boot.placement <= heap.start
    && heap.end < SPACE && |heap.mem| == SPACE
    && IdentityBelow(boot.Dir(), heap.end)
  }

  /** Page 0 and all addresses from `end` on fault. */
  ghost predicate FaultsOutside(d: Directory, end: nat) {
    WF(d) && forall a :: 0 <= a < SPACE && !(PAGE <= a < end) ==> Translate(d, a) == Fault
  }

  /** No page is writeable, and user mode may only read those of the heap. */
  ghost predicate UserFrom(d: Directory, first: nat, end: nat) {
    WF(d) && forall j :: 0 <= j < PAGES ==> !Entry(d, j).rw && (Entry(d, j).user <==> first <= j < end)
  }

  /** What boot leaves of the mapping, whether it is the identity or not. */
  ghost predicate BootedMapping(s: State, p0: nat, q: Plan)
    requires p0 % PAGE == 0
  {
    && WF(s.dir)
    && (IdentityBelow(s.dir, HeapEndPage(p0) * PAGE) <==> PlanIsIdentity(q, HeapEndPage(p0)))
    && FaultsOutside(s.dir, HeapEndPage(p0) * PAGE)
    && UserFrom(s.dir, HeapPage(p0), HeapEndPage(p0))
    && FrameOwnership.Exclusive(s, {0} + Lost(q))
  }

  lemma Booted(s: State, top: nat, p0: nat, q: Plan)
    requires p0 % PAGE == 0 && Mapped(s, HeapEndPage(p0), top, p0, q) && q.direct < HeapEndPage(p0)
    requires q.userFrom == HeapPage(p0)
    requires forall n :: n in s.frames.marked ==> n < s.frames.capacity
    ensures BootedMapping(s, p0, q)
  {
    hide FrameOf, Resume;
    var he := HeapEndPage(p0);
    IdentityIff(s, he, top, p0, q);
    forall a | 0 <= a < SPACE && !(PAGE <= a < he * PAGE)
      ensures Translate(s.dir, a) == Fault
    {
      MappedAddresses(s, he, top, p0, q, a);
    }
    forall j | 0 <= j < PAGES
      ensures !Entry(s.dir, j).rw && (Entry(s.dir, j).user <==> HeapPage(p0) <= j < he)
    {
      MappedAccess(s, he, top, p0, q, j);
    }
    PlannedAtLeast(q, he - 1);
    PlannedFrame(q, he - 1);
    BootIsExclusive(s, he, top, p0, q);
  }

  lemma BootedMoved(s: State, p: nat, p0: nat, q: Plan)
    requires p0 % PAGE == 0 && BootedMapping(s, p0, q) && p >= s.dir.placement
    ensures BootedMapping(s.(dir := s.dir.(placement := p)), p0, q)
  {
    hide MapToPhysical, Translate, WF;
    MovedPlacement(s.dir, p);
    SameOwnership(s, s.dir.(placement := p), {0} + Lost(q));
  }

  /** initialize_paging to its end: the mapping, the heap descriptor behind the last table, and the
      heap. `memory` is all of memory as the image left it; outside of the boot allocations and the heap
      it stays so. With the whole bitmap cleared, boot
      succeeds exactly when the bitmap reaches the end of the heap, and the kernel is running. A boot
      that leaves the bitmap's own words, with sizes as written, goes on without the identity. */
  method Boot(boot: BootMemory, memsize: nat, bitmapBytes: nat, stale: seq<FrameBits.word>, memory: seq<byte>)
    returns (outcome: BootEnd, heap: KernelHeap?, ghost page: nat)
    requires memsize / 4 < PAGES && |stale| == memsize / 4 / 32
    requires bitmapBytes == |stale| || bitmapBytes == 4 * |stale|
    requires 0 < boot.placement && HeapEndPage(AfterTableZero(boot.placement, bitmapBytes)) < PAGES
    requires |memory| == SPACE
    modifies boot
    ensures var p0 := AfterTableZero(old(boot.placement), bitmapBytes);
            var q := BootPlan(old(boot.placement), stale, bitmapBytes);
      && (outcome.Booted? <==> HeapEndPage(p0) - DirectEnd(p0) <= |FreeFrames(q, DirectEnd(p0))|)
      && (outcome.Booted? ==> BootedMapping(boot.View(), p0, q))
      && (outcome.Booted? ==>
            && heap != null && fresh(heap) && heap.Valid() && heap.start == HeapPage(p0) * PAGE
            && heap.end == heap.start + KERNEL_HEAP_INIT && heap.pointerWidth == 4
            && heap.blocks == Created(heap.Extent()))
      && (outcome.Booted? ==>
            && heap.start == (if DirectEnd(p0) < 0xC000 then 0xC00_0000 else DirectEnd(p0) * 0x1000 + 0xF_D000)
            && heap.end == heap.start + 0x10_0000 && heap.max == 0xCFF_F000 && heap.supervisor == heap.readonly == 0
            && heap.H() == 9 && heap.F() == 8
            && |heap.mem| == |memory| && boot.placement <= heap.start
            && (forall a :: 0 <= a < old(boot.placement) ==> heap.mem[a] == memory[a])
            && (forall a :: boot.placement <= a < |memory| && !(heap.start <= a < heap.end) ==> heap.mem[a] == memory[a]))
      && (outcome.Booted? && Running(boot, heap) <==> BootsToIdentity(old(boot.placement), stale, bitmapBytes))
      && (outcome.LeftBitmap? && old(boot.placement) % 4 == 0
          && OwnWords(old(boot.placement), bitmapBytes, |stale|) < |stale| ==>
            SharedBitmap.LosesIdentity(boot.View(), page, q))
    ensures bitmapBytes == 4 * |stale| ==>
              && (outcome.Booted? <==> HeapEndPage(AfterTableZero(old(boot.placement), bitmapBytes)) <= 32 * |stale|)
              && (outcome.Booted? ==> Running(boot, heap) && FrameOwnership.Exclusive(boot.View(), {0}))
  {
    hide Mapped, WF, FrameBits.Marked, AfterTableZero, Good, IdentityBelow, PlanIsIdentity, BootsToIdentity;
    hide FrameOf, FreeFrames, StaleFrames, BootedMapping, DirectEnd, HeapPage, OwnWords, SharedBitmap.LosesIdentity;
    ghost var image := boot.placement;
    ghost var p0 := AfterTableZero(boot.placement, bitmapBytes);
    ghost var q := BootPlan(boot.placement, stale, bitmapBytes);
    BootOutcome(boot.placement, stale, bitmapBytes);
    HeapStartIs(p0);
    ImageBelowHeap(boot.placement, bitmapBytes);
    var heapStart;
    ghost var top;
    outcome, heapStart, page, top := boot.InitializePaging(memsize, bitmapBytes, stale);
    heap := null;
    if outcome.Booted? {
      BootedView(boot, p0, q);
      ghost var s := boot.View();
      var descriptor, phys := boot.Kmalloc(HEAP_DESCRIPTOR_SIZE, false);
      assert boot.View() == s.(dir := s.dir.(placement := boot.placement));
      BootedMoved(s, boot.placement, p0, q);
      BootedFacts(boot.View(), p0, q);
      heap := new KernelHeap(4, memory, heapStart, heapStart + KERNEL_HEAP_INIT, KERNEL_HEAP_END, 0, 0);
      if bitmapBytes == 4 * |stale| {
        ClearedBoot(image, stale);
        assert {0} + Lost(q) == {0};
      }
    }
  }

  lemma BootedView(boot: BootMemory, p0: nat, q: Plan)
    requires p0 % PAGE == 0 && boot.Mapping(HeapEndPage(p0), (HeapEndPage(p0) - 1) / 1024, p0, q)
    ensures boot.Valid() && BootedMapping(boot.View(), p0, q)
    ensures PAGE <= boot.placement && boot.placement + HEAP_DESCRIPTOR_SIZE <= HeapPage(p0) * PAGE
  {
    hide Mapped, FrameOf, BootedMapping;
    TablesEndBelowHeap(p0);
    Booted(boot.View(), (HeapEndPage(p0) - 1) / 1024, p0, q);
  }

  lemma BootedFacts(s: State, p0: nat, q: Plan)
    requires p0 % PAGE == 0 && BootedMapping(s, p0, q)
    ensures WF(s.dir)
    ensures IdentityBelow(s.dir, HeapEndPage(p0) * PAGE) <==> PlanIsIdentity(q, HeapEndPage(p0))
    ensures FrameOwnership.Exclusive(s, {0} + Lost(q))
  {
    hide IdentityBelow, PlanIsIdentity, UserFrom;
  }

  /** _kmalloc once the heap exists: khalloc, and the physical address map_to_physical gives. On
      the booted kernel that is the address itself. */
  method Kmalloc(boot: BootMemory, heap: KernelHeap, size: nat) returns (addr: nat, phys: nat, panicked: bool)
    requires Running(boot, heap) && size < SPACE
    modifies heap
    ensures Running(boot, heap)
    ensures panicked <==> size > 0 && old(heap.blocks)[0].size < size + 2 * (heap.H() + heap.F())
    ensures heap.blocks == Allocate(heap.Extent(), old(heap.blocks), size)
    ensures !panicked ==> phys == addr
    ensures size == 0 ==> addr == 0
    ensures !panicked && size > 0 ==>
              && addr == HeapRuns.NewBlock(heap.Extent(), old(heap.blocks), size).addr + heap.H()
              && addr == old(heap.blocks)[0].End() - heap.F() - size
              && !LivePointer(heap.Extent(), old(heap.blocks), addr)
    ensures !panicked && size > 0 ==> forall b :: b in old(Live(heap.blocks)) ==> addr + size + heap.F() <= b.addr
    ensures !panicked && size > 0 ==> heap.start < addr && addr + size + heap.F() <= heap.end
    ensures !panicked && size > 0 ==> LivePointer(heap.Extent(), heap.blocks, addr)
                                      && HeapRuns.BlockPointer(heap.Extent(), heap.blocks, addr)
    ensures Happens(heap.pointerWidth, heap.Extent(), Moment(old(heap.mem), old(heap.blocks)),
                    Call(HeapRuns.Khalloc(size)), Moment(heap.mem, heap.blocks))
  {
    hide WF, FrameBits.Marked, Good, MapToPhysical, Translate;
    KernelBounds(heap);
    KernelAbove(heap);
    ghost var s := Moment(heap.mem, heap.blocks);
    addr, panicked := heap.Khalloc(size);
    KhallocHappens(heap.pointerWidth, heap.Extent(), s, size, Moment(heap.mem, heap.blocks));
    phys := 0;
    if !panicked {
      if size > 0 {
        assert heap.blocks[1] in Live(heap.blocks) && heap.blocks[1].addr + heap.H() == addr;
      }
      phys := boot.MapToPhysical(addr);
    }
  }

  lemma KernelBounds(heap: KernelHeap)
    requires heap.Valid()
    ensures heap.blocks != [] && heap.start == heap.blocks[0].addr && heap.blocks[0].End() <= heap.end
  {
    Inside(heap.Extent(), heap.blocks, 0);
  }

  /** The first block is free, and the live ones lie behind it. */
  lemma KernelAbove(heap: KernelHeap)
    requires heap.Valid()
    ensures forall b :: b in Live(heap.blocks) ==> heap.blocks[0].End() <= b.addr
  {
    hide Good;
    GoodHasInv(heap.mem, heap.pointerWidth, heap.Extent(), heap.blocks);
    forall b | b in Live(heap.blocks)
      ensures heap.blocks[0].End() <= b.addr
    {
      Ordered(heap.Extent(), heap.blocks, 0, HeapRuns.IndexOf(heap.blocks, b));
    }
  }

  /** kfree once the heap exists. Of NULL, and of a pointer whose block is already free, it does
      nothing. */
  method Kfree(boot: BootMemory, heap: KernelHeap, p: nat)
    requires Running(boot, heap)
    requires p == 0 || HeapRuns.BlockPointer(heap.Extent(), heap.blocks, p)
    modifies heap
    ensures Running(boot, heap)
    ensures p == 0 ==> heap.blocks == old(heap.blocks) && heap.mem == old(heap.mem)
    ensures p != 0 ==> Happens(heap.pointerWidth, heap.Extent(), Moment(old(heap.mem), old(heap.blocks)),
                               Call(HeapRuns.Khfree(p)), Moment(heap.mem, heap.blocks))
  {
    hide WF, FrameBits.Marked, Good, MapToPhysical, Translate, Release;
    ghost var s := Moment(heap.mem, heap.blocks);
    if p == 0 {
      heap.Khfree(p);
    } else {
      ghost var i := HeapRuns.IndexOf(heap.blocks, HeapRuns.BlockOf(heap.Extent(), heap.blocks, p));
      heap.Khfree(p);
      KhfreeHappens(heap.pointerWidth, heap.Extent(), s, i, Moment(heap.mem, heap.blocks));
    }
  }
}
