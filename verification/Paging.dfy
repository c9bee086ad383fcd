/** paging.c, and mem.c before the heap exists: the code, over the globals it updates. */
module Paging {
  import opened FrameBits
  import opened PageTables
  import opened BootMap
  import opened SharedBitmap

  /** How initialize_paging ends: LeftBitmap when it needs a bit outside the words that the bitmap has to
      itself, NoFrame when it panics. */
  datatype BootEnd = Booted | NoFrame | LeftBitmap

  class BootMemory {
    /** The bitmap, one bit a frame, as far as its words are its own; `nframes` frames of memory. */
    var frames: array<word>
    var nframes: nat
    /** placement_address: where the next boot allocation starts. */
    var placement: nat
    /** kernel_directory: tables and tables_physical, and the page tables themselves by address. */
    var tables: array<nat>
    var physical: array<nat>
    var pages: map<nat, seq<PageEntry>>

    ghost predicate Separate()
      reads this
    {
      tables != physical && tables.Length == 1024 && physical.Length == 1024
    }

    ghost function FrameSet(): Frames
      reads this, frames
    {
      Frames(Marked(frames[..]), 32 * frames.Length, nframes)
    }

    ghost function Dir(): Directory
      reads this, tables, physical
    {
      Directory(placement, tables[..], physical[..], pages)
    }

    ghost function View(): State
      reads this, frames, tables, physical
    {
      State(FrameSet(), Dir())
    }

    ghost predicate Valid()
      reads this, frames, tables, physical
    {
      Separate() && WF(Dir()) && 0 < placement && frames.Length <= nframes / 32 && nframes < 0x4000_0000
    }

    constructor (image: nat)
      ensures fresh(frames) && fresh(tables) && fresh(physical) && Separate()
      ensures placement == image && nframes == 0 && frames.Length == 0 && pages == map[]
    {
      placement, nframes, pages := image, 0, map[];
      frames := new word[0];
      tables := new nat[1024];
      physical := new nat[1024];
    }

    // -------------------------------------------------------------- boot allocation

    /** _kmalloc before the heap exists: bytes never handed out before, page-aligned on request,
        and their physical address is the address itself. */
    method Kmalloc(size: nat, align: bool) returns (addr: nat, phys: nat)
      requires Aligned(placement) + size < SPACE
      modifies this`placement
      ensures addr == (if align then Aligned(old(placement)) else old(placement)) && phys == addr
      ensures placement == addr + size
    {
      if align && placement % PAGE != 0 {
        placement := placement + PAGE - (placement + PAGE) % PAGE;
      }
      phys := placement;
      addr := placement;
      placement := placement + size;
    }

    // -------------------------------------------------------------- the frame bitmap

    method SetFrame(addr: nat)
      requires addr < nframes * PAGE % SPACE ==> addr / PAGE < 32 * frames.Length
      modifies frames
      ensures FrameSet() == PageTables.SetFrame(old(FrameSet()), addr)
      ensures FrameSet().marked == old(FrameSet().marked)
                                   + (if addr < nframes * 0x1000 % 0x1_0000_0000 then {addr / 0x1000} else {})
    {
      if addr < nframes * PAGE % SPACE {
        var frame := addr / PAGE;
        var idx, off := frame / 32, frame % 32;
        SetMarks(frames[..], frame);
        frames[idx] := Or(frames[idx], off);
        assert frames[..] == old(frames[..])[idx := Or(old(frames[..])[idx], off)];
      }
    }

    method ClearFrame(addr: nat)
      requires addr / PAGE < 32 * frames.Length
      modifies frames
      ensures FrameSet() == PageTables.ClearFrame(old(FrameSet()), addr)
      ensures FrameSet().marked == old(FrameSet().marked) - {addr / 0x1000}
    {
      var frame := addr / PAGE;
      var idx, off := frame / 32, frame % 32;
      ClearUnmarks(frames[..], frame);
      frames[idx] := AndNot(frames[idx], off);
      assert frames[..] == old(frames[..])[idx := AndNot(old(frames[..])[idx], off)];
    }

    method TestFrame(addr: nat) returns (marked: bool)
      requires addr / PAGE < 32 * frames.Length
      ensures marked <==> addr / PAGE in FrameSet().marked
    {
      var frame := addr / PAGE;
      marked := Bit(frames[frame / 32], frame % 32);
    }

    /** The scan of the nframes / 32 words, or of those that the bitmap has to itself. */
    method FirstFrame() returns (frame: nat)
      ensures frame == LeastFree(FrameSet(), 0)
    {
      for i := 0 to frames.Length
        invariant forall n :: 0 <= n < 32 * i ==> n in FrameSet().marked
      {
        if frames[i] != FULL {
          for j := 0 to 32
            invariant forall n :: 0 <= n < 32 * i + j ==> n in FrameSet().marked
          {
            if !Bit(frames[i], j) {
              assert (i * 32 + j) / 32 == i && (i * 32 + j) % 32 == j;
              LeastFreeFound(FrameSet(), 0, i * 32 + j);
              return i * 32 + j;
            }
          }
        } else {
          FullWord(frames[i]);
        }
      }
      LeastFreeNone(FrameSet(), 0);
      return NO_FRAME;
    }

    // -------------------------------------------------------------- page entries

    /** get_page: the table and index of the entry of `address`; table 0 is NULL. */
    method GetPage(address: nat, make: bool) returns (table: nat, index: nat)
      requires Valid() && address < SPACE && Aligned(placement) + PAGE < SPACE
      modifies this, tables, physical
      ensures Valid() && FrameSet() == old(FrameSet())
      ensures tables == old(tables) && physical == old(physical) && frames == old(frames) && nframes == old(nframes)
      ensures Dir() == if make then PageTables.GetPage(old(Dir()), address) else old(Dir())
      ensures table == tables[address / PAGE / 1024] && index == address / PAGE % 1024
    {
      GetPageKeeps(Dir(), address);
      var page := address / PAGE;
      var t := page / 1024;
      if tables[t] != 0 {
        return tables[t], page % 1024;
      } else if make {
        var addr, tmp := Kmalloc(PAGE, true);
        tables[t] := addr;
        pages := pages[addr := seq(1024, _ => CLEAR)];
        physical[t] := OrFlags(tmp);
        assert Dir() == PageTables.GetPage(old(Dir()), address);
        return tables[t], page % 1024;
      } else {
        return 0, page % 1024;
      }
    }

    /** `table` and `index` point to the entry of page `j`. */
    ghost predicate PointsTo(table: nat, index: nat, j: nat)
      requires Valid()
      reads this, frames, tables, physical
    {
      j < PAGES && HasTable(Dir(), j) && table == tables[j / 1024] && index == j % 1024
    }

    method StoreEntry(table: nat, index: nat, e: PageEntry, ghost j: nat)
      requires Valid() && PointsTo(table, index, j)
      modifies this`pages
      ensures Valid() && FrameSet() == old(FrameSet())
      ensures Dir() == SetEntry(old(Dir()), j, e)
    {
      SetEntryKeeps(Dir(), j, e);
      assert TableOk(Dir(), j / 1024);
      pages := pages[table := pages[table][index := e]];
    }

    /** alloc_frame; false when no frame is free, which is the panic if all words are the bitmap's own. */
    method AllocFrame(table: nat, index: nat, isKernel: bool, isWriteable: bool, ghost j: nat) returns (ok: bool)
      requires Valid() && PointsTo(table, index, j)
      modifies this`pages, frames
      ensures Valid()
      ensures ok <==> PageTables.AllocFrame(old(View()), j, isKernel, isWriteable).Done?
      ensures View() == if ok then PageTables.AllocFrame(old(View()), j, isKernel, isWriteable).state else old(View())
    {
      assert TableOk(Dir(), j / 1024);
      var e := pages[table][index];
      if e.frame != 0 {
        StoreEntry(table, index, e.(present := true, rw := isWriteable, user := !isKernel), j);
      } else {
        var idx := FirstFrame();
        LeastFreeIsLeast(FrameSet(), 0);
        if idx == NO_FRAME {
          return false;
        }
        SetFrame(idx * PAGE % SPACE);
        StoreEntry(table, index, PageEntry(true, isWriteable, !isKernel, e.accessed, e.dirty, e.unused, idx % PAGES), j);
      }
      return true;
    }

    method DirectFrame(table: nat, index: nat, isKernel: bool, isWriteable: bool, addr: nat, ghost j: nat)
      requires Valid() && PointsTo(table, index, j)
      requires addr < nframes * PAGE % SPACE ==> addr / PAGE < 32 * frames.Length
      modifies this`pages, frames
      ensures Valid()
      ensures View() == PageTables.DirectFrame(old(View()), j, isKernel, isWriteable, addr)
    {
      assert TableOk(Dir(), j / 1024);
      var e := pages[table][index];
      StoreEntry(table, index, PageEntry(true, isWriteable, !isKernel, e.accessed, e.dirty, e.unused, addr / PAGE), j);
      SetFrame(addr);
    }

    /** free_frame. As written the frame number itself is passed to clear_frame. */
    method FreeFrame(table: nat, index: nat, ghost j: nat)
      requires Valid() && PointsTo(table, index, j)
      requires Entry(Dir(), j).frame < 32 * frames.Length
      modifies this`pages, frames
      ensures Valid()
      ensures View() == PageTables.FreeFrame(old(View()), j)
    {
      assert TableOk(Dir(), j / 1024);
      var e := pages[table][index];
      if e.frame != 0 {
        ClearFrame(e.frame * PAGE);
        StoreEntry(table, index, e.(frame := 0), j);
      }
    }

    method MapToPhysical(virt: nat) returns (phys: nat)
      requires Valid() && virt < SPACE
      ensures phys == PageTables.MapToPhysical(Dir(), virt)
    {
      var remaining := virt % PAGE;
      var frameidx := virt / PAGE;
      var tableidx := frameidx / 1024;
      frameidx := frameidx % 1024;
      assert TableOk(Dir(), tableidx);
      if tables[tableidx] != 0 {
        phys := pages[tables[tableidx]][frameidx].frame * PAGE + remaining;
      } else {
        phys := 0;
      }
    }

    // -------------------------------------------------------------- initialize_paging

    /** `Mapped` by the plan of this boot, for a heap that ends inside the address space. */
    ghost predicate Mapping(k: nat, top: nat, p0: nat, q: Plan)
      reads this, frames, tables, physical
    {
      && Valid()
      && p0 % PAGE == 0 && p0 > 0 && HeapEndPage(p0) < PAGES
      && top <= (HeapEndPage(p0) - 1) / 1024
      && placement == p0 + PAGE * top && nframes < PAGES
      && q.Ok() && q.direct == DirectEnd(p0) && q.userFrom == HeapPage(p0) && q.capacity == 32 * frames.Length
      && Mapped(View(), k, top, p0, q)
    }

    lemma MappingIdentityIff(k: nat, top: nat, p0: nat, q: Plan)
      requires Mapping(k, top, p0, q)
      ensures IdentityBelow(Dir(), k * PAGE) <==> PlanIsIdentity(q, k)
    {
      hide Mapped, WF, Marked, IdentityBelow, PlanIsIdentity;
      IdentityIff(View(), k, top, p0, q);
    }

    /** The arrays are the same objects, and the machine has the same memory. */
    twostate predicate SameArrays()
      reads this
    {
      frames == old(frames) && tables == old(tables) && physical == old(physical) && nframes == old(nframes)
    }

    /** get_page in the loops: its table is there afterwards, at the cost of at most one page. */
    method GetMappedPage(i: nat, ghost j: nat, ghost k: nat, ghost top: nat, ghost p0: nat, ghost q: Plan)
      returns (table: nat, index: nat)
      requires Mapping(k, top, p0, q) && i == j * PAGE && j < HeapEndPage(p0) && j / 1024 <= top + 1
      modifies this, tables, physical
      ensures SameArrays() && Mapping(k, Max(top, j / 1024), p0, q) && PointsTo(table, index, j)
      ensures FrameSet() == old(FrameSet())
    {
      hide FrameOf, Resume;
      TablesEndBelowHeap(p0);
      TableStep(View(), k, top, p0, q, j);
      table, index := GetPage(i, true);
    }

    /** The body of the first loop: direct_frame of the page's own address. */
    method MapPageDirect(i: nat, ghost k: nat, ghost p0: nat, ghost q: Plan)
      requires 1 <= k && Mapping(k, (k - 1) / 1024, p0, q) && i == k * PAGE && k < DirectEnd(p0)
      requires k < nframes ==> k < 32 * frames.Length
      modifies this, frames, tables, physical
      ensures SameArrays() && Mapping(k + 1, k / 1024, p0, q)
    {
      hide Mapped, WF, Marked, PageTables.DirectFrame, FrameOf, Resume;
      TablesEndBelowHeap(p0);
      var table, index := GetMappedPage(i, k, k, (k - 1) / 1024, p0, q);
      DirectStep(View(), k, k / 1024, p0, q);
      DirectFrame(table, index, true, false, i, k);
    }

    /** The body of the second and fourth loops: alloc_frame of a page without a frame. */
    method MapPageToFirstFree(i: nat, ghost k: nat, isKernel: bool, ghost top: nat, ghost p0: nat, ghost q: Plan)
      returns (ok: bool)
      requires Mapping(k, top, p0, q) && DirectEnd(p0) <= k && i == k * PAGE && k < HeapEndPage(p0)
      requires (k - 1) / 1024 <= top && (isKernel <==> k < HeapPage(p0))
      modifies this, frames, tables, physical
      ensures SameArrays() && (ok <==> FrameOf(q, k) != NO_FRAME)
      ensures ok ==> Mapping(k + 1, Max(top, k / 1024), p0, q)
      ensures !ok ==> Mapping(k, Max(top, k / 1024), p0, q)
    {
      hide Mapped, WF, Marked, PageTables.AllocFrame, FrameOf, Resume, HeapPage;
      var table, index := GetMappedPage(i, k, k, top, p0, q);
      AllocStep(View(), k, Max(top, k / 1024), p0, q);
      ok := AllocFrame(table, index, isKernel, false, k);
    }

    /** The first loop: its bound `placement_address + 0x3000` moves up a page for each table the
        body carves, and it ends on `DirectEnd`. False when set_frame would store outside the
        bitmap's own words, for page `page`. */
    method MapDirect(ghost p0: nat, ghost q: Plan) returns (ok: bool, ghost page: nat)
      requires Mapping(1, 0, p0, q)
      modifies this, frames, tables, physical
      ensures SameArrays() && 1 <= page <= DirectEnd(p0) && Mapping(page, (page - 1) / 1024, p0, q)
      ensures ok ==> page == DirectEnd(p0) && placement + 0x3000 == DirectEnd(p0) * PAGE
                     && (page <= Max(1, 32 * frames.Length) || nframes <= Max(1, 32 * frames.Length))
      ensures !ok ==> page == Max(1, 32 * frames.Length) < DirectEnd(p0) && page < nframes
    {
      hide Mapped, WF, Marked, FrameOf, Resume;
      TablesEndBelowHeap(p0);
      DirectBound(p0, 1);
      var i := PAGE;
      page := 1;
      while i < placement + 0x3000
        invariant SameArrays() && 1 <= page <= DirectEnd(p0) && i == page * PAGE
        invariant page <= Max(1, 32 * frames.Length) || nframes <= Max(1, 32 * frames.Length)
        invariant Mapping(page, (page - 1) / 1024, p0, q)
        decreases DirectEnd(p0) - page
      {
        DirectBound(p0, page);
        if 32 * frames.Length <= i / PAGE < nframes {
          return false, page;
        }
        MapPageDirect(i, page, p0, q);
        i, page := i + PAGE, page + 1;
      }
      DirectBound(p0, page);
      ok := true;
    }

    /** The second and fourth loops: pages `first` up to `limit` get the first free frame, and that is
        the planned one. False when there is none for page `page`. */
    method MapToFirstFree(first: nat, limit: nat, isKernel: bool, ghost top: nat, ghost p0: nat, ghost q: Plan)
      returns (ok: bool, ghost page: nat)
      requires p0 % PAGE == 0 && DirectEnd(p0) <= first < limit <= HeapEndPage(p0)
      requires if isKernel then limit <= HeapPage(p0) else HeapPage(p0) <= first
      requires Mapping(first, Max(top, (first - 1) / 1024), p0, q)
      modifies this, frames, tables, physical
      ensures SameArrays() && first <= page <= limit
      ensures ok <==> FrameOf(q, limit - 1) != NO_FRAME
      ensures ok ==> page == limit && Mapping(limit, Max(top, (limit - 1) / 1024), p0, q)
      ensures !ok ==> page < limit && FrameOf(q, page) == NO_FRAME && Mapping(page, Max(top, page / 1024), p0, q)
    {
      hide Mapped, WF, Marked, PageTables.AllocFrame, FrameOf, Resume, HeapPage, DirectEnd;
      var i := first * PAGE;
      page := first;
      while i < limit * PAGE
        invariant SameArrays() && first <= page <= limit && i == page * PAGE
        invariant page > first ==> FrameOf(q, page - 1) != NO_FRAME
        invariant Mapping(page, Max(top, (page - 1) / 1024), p0, q)
        decreases limit - page
      {
        var done := MapPageToFirstFree(i, page, isKernel, Max(top, (page - 1) / 1024), p0, q);
        if !done {
          NoFrameStays(q, page, limit - 1);
          return false, page;
        }
        i, page := i + PAGE, page + 1;
      }
      ok := true;
    }

    /** The third loop: the heap pages get their tables before any of them gets a frame. */
    method MakeHeapTables(ghost p0: nat, ghost q: Plan, first: nat)
      requires p0 % PAGE == 0 && first == HeapPage(p0) && Mapping(first, (first - 1) / 1024, p0, q)
      modifies this, frames, tables, physical
      ensures SameArrays() && FrameSet() == old(FrameSet())
      ensures Mapping(first, (HeapEndPage(p0) - 1) / 1024, p0, q)
    {
      hide Mapped, WF, Marked, FrameOf, Resume;
      var i := first * PAGE;
      ghost var j := first;
      while i < first * PAGE + KERNEL_HEAP_INIT
        invariant SameArrays() && FrameSet() == old(FrameSet())
        invariant first <= j <= HeapEndPage(p0) && i == j * PAGE
        invariant Mapping(first, (j - 1) / 1024, p0, q)
        decreases HeapEndPage(p0) - j
      {
        var table, index := GetMappedPage(i, j, first, (j - 1) / 1024, p0, q);
        i, j := i + PAGE, j + 1;
      }
    }

    /** Word `i` of the bitmap after memset has cleared its first `bytes` bytes. */
    static function ClearedWord(stale: seq<word>, bytes: nat, i: nat): word
      requires i < |stale|
    {
      ClearBytes(stale[i], if 4 * i + 4 <= bytes then 4 else if 4 * i <= bytes then bytes - 4 * i else 0)
    }

    /** The bitmap over memory that held `stale`, with its first `bytes` bytes cleared. */
    method ClearBitmap(stale: seq<word>, bytes: nat)
      modifies this`frames
      ensures fresh(frames) && frames.Length == |stale|
      ensures FrameSet().marked == StaleFrames(stale, bytes)
    {
      frames := new word[|stale|](i requires 0 <= i < |stale| => ClearedWord(stale, bytes, i));
      forall n: nat | n < 32 * |stale|
        ensures Bit(frames[..][n / 32], n % 32) <==> IsStale(stale, bytes, n)
      {
        var i := n / 32;
        assert frames[..][i] == ClearedWord(stale, bytes, i);
        ClearLowBits(stale[i], 8 * (if 4 * i + 4 <= bytes then 4 else if 4 * i <= bytes then bytes - 4 * i else 0), n % 32);
      }
    }

    /** A page directory without tables. */
    method NewDirectory() returns (physicalAddr: nat)
      requires 0 < placement && Aligned(placement) + DIRECTORY_SIZE < SPACE
      modifies this
      ensures fresh(tables) && fresh(physical) && Separate() && WF(Dir())
      ensures frames == old(frames) && nframes == old(nframes) && FrameSet() == old(FrameSet())
      ensures placement == Aligned(old(placement)) + DIRECTORY_SIZE && physicalAddr == Aligned(old(placement))
      ensures forall t :: 0 <= t < 1024 ==> Dir().tables[t] == 0
    {
      var directory;
      directory, physicalAddr := Kmalloc(DIRECTORY_SIZE, true);
      tables := new nat[1024](_ => 0);
      physical := new nat[1024](_ => 0);
      pages := map[];
    }

    /** Table 0 is carved for page 0, which is not present, and frame 0 is reserved; false when its bit
        is not in the bitmap's own words. */
    method ReserveFrameZero(ghost q: Plan) returns (ok: bool)
      requires Valid() && Aligned(placement) + PAGE < SPACE
      requires forall t :: 0 <= t < 1024 ==> Dir().tables[t] == 0
      requires q.Ok() && q.capacity == 32 * frames.Length <= nframes < PAGES
      requires FrameSet().marked == q.stale
      modifies this, frames, tables, physical
      ensures SameArrays() && Valid() && (ok <==> nframes == 0 || frames.Length > 0)
      ensures Mapped(View(), 1, 0, Aligned(old(placement)) + PAGE, q)
    {
      hide Mapped, WF, TableOk, Marked, FrameOf, Resume;
      MappedInitially(FrameSet(), Dir(), q);
      GetPageKeeps(Dir(), 0);
      var table, index := GetPage(0, true);
      EntryIsStored(Dir(), 0);
      StoreEntry(table, index, pages[table][index].(present := false), 0);
      ok := nframes == 0 || frames.Length > 0;
      if ok {
        SetFrame(0);
      } else {
        MappedWithoutBits(State(PageTables.SetFrame(FrameSet(), 0), Dir()), FrameSet(), 1, 0, Aligned(old(placement)) + PAGE, q);
      }
    }

    /** The start of initialize_paging: bitmap, directory, table 0, frame 0. Of the bitmap the model
        holds the words in front of the directory. */
    method SetUp(memsize: nat, bitmapBytes: nat, stale: seq<word>) returns (ok: bool)
      requires memsize / 4 < PAGES && |stale| == memsize / 4 / 32
      requires 0 < placement && HeapEndPage(AfterTableZero(placement, bitmapBytes)) < PAGES
      modifies this
      ensures fresh(frames) && fresh(tables) && fresh(physical)
      ensures nframes == memsize / 4 && frames.Length == OwnWords(old(placement), bitmapBytes, |stale|)
      ensures ok <==> nframes == 0 || frames.Length > 0
      ensures Mapping(1, 0, AfterTableZero(old(placement), bitmapBytes), BootPlan(old(placement), stale, bitmapBytes))
    {
      hide Mapped, WF, TableOk, Marked, FrameOf, Resume, StaleFrames, BootsToIdentity, PlanIsIdentity, DirectEnd, HeapPage, OwnWords;
      ghost var p0 := AfterTableZero(placement, bitmapBytes);
      ghost var q := BootPlan(placement, stale, bitmapBytes);
      TablesEndBelowHeap(p0);
      BootsToIdentityIff(placement, stale, bitmapBytes);
      nframes := memsize / 4;
      var own := stale[..OwnWords(placement, bitmapBytes, nframes / 32)];
      var bitmap, unused := Kmalloc(bitmapBytes, false);
      ClearBitmap(own, bitmapBytes);
      unused := NewDirectory();
      ok := ReserveFrameZero(q);
      assert Mapped(View(), 1, 0, p0, q);
      MappedPlacement(View(), 1, 0, p0, q);
    }

    /** The two loops up to the heap; `inside` tells whether frame 0 could be marked. */
    method MapBelowHeap(inside: bool, ghost p0: nat, ghost q: Plan)
      returns (outcome: BootEnd, heapStart: nat, ghost page: nat, ghost top: nat)
      requires Mapping(1, 0, p0, q) && (inside <==> nframes == 0 || frames.Length > 0)
      modifies this, frames, tables, physical
      ensures SameArrays() && Mapping(page, top, p0, q) && Stopped(outcome, p0)
      ensures outcome.Booted? <==> FrameOf(q, HeapPage(p0) - 1) != NO_FRAME
      ensures if outcome.Booted? then heapStart == page * PAGE && page == HeapPage(p0) && top == (page - 1) / 1024
                                      && MarksInside(q)
              else page < HeapPage(p0) && LeavesAt(page, q)
    {
      hide Mapped, WF, Marked, FrameOf, Resume, FreeFrames;
      TablesEndBelowHeap(p0);
      heapStart, page, top := 0, 1, 0;
      var ok := inside;
      if ok {
        ok, page := MapDirect(p0, q);
        top := (page - 1) / 1024;
      }
      if !ok {
        NoneBehind(q, HeapPage(p0) - 1);
        return LeftBitmap, heapStart, page, top;
      }
      heapStart := KERNEL_HEAP_START;
      if heapStart <= placement + 0x3000 {
        heapStart := placement + 0x10_0000;
      }
      ok, page := MapToFirstFree((placement + 0x3000) / PAGE, heapStart / PAGE, true, 0, p0, q);
      top := if ok then (page - 1) / 1024 else page / 1024;
      outcome := if ok then Booted else WithoutFrame();
      if !ok {
        NoFrameStays(q, page, HeapPage(p0) - 1);
      }
    }

    /** The loops of initialize_paging. */
    method MapMemory(inside: bool, ghost p0: nat, ghost q: Plan)
      returns (outcome: BootEnd, heapStart: nat, ghost page: nat, ghost top: nat)
      requires Mapping(1, 0, p0, q) && (inside <==> nframes == 0 || frames.Length > 0)
      modifies this, frames, tables, physical
      ensures SameArrays() && Mapping(page, top, p0, q) && Stopped(outcome, p0)
      ensures outcome.Booted? <==> FrameOf(q, HeapEndPage(p0) - 1) != NO_FRAME
      ensures if outcome.Booted? then heapStart == HeapPage(p0) * PAGE
                                      && page == HeapEndPage(p0) && top == (HeapEndPage(p0) - 1) / 1024
              else page < HeapEndPage(p0) && LeavesAt(page, q)
    {
      hide Mapped, WF, Marked, FrameOf, Resume, FreeFrames, HeapPage, DirectEnd;
      TablesEndBelowHeap(p0);
      outcome, heapStart, page, top := MapBelowHeap(inside, p0, q);
      if outcome.Booted? {
        MakeHeapTables(p0, q, heapStart / PAGE);
        top := (HeapEndPage(p0) - 1) / 1024;
        var ok;
        ok, page := MapToFirstFree(heapStart / PAGE, (heapStart + KERNEL_HEAP_INIT) / PAGE, false, top, p0, q);
        outcome := if ok then Booted else WithoutFrame();
        if !ok {
          NoFrameStays(q, page, HeapEndPage(p0) - 1);
        }
      } else {
        NoFrameStays(q, HeapPage(p0) - 1, HeapEndPage(p0) - 1);
      }
    }

    /** When no frame is free in the bitmap's own words and there are others, the scan goes on there. */
    function WithoutFrame(): BootEnd
      reads this
    {
      if frames.Length == nframes / 32 then NoFrame else LeftBitmap
    }

    ghost predicate Stopped(outcome: BootEnd, p0: nat)
      requires p0 % PAGE == 0
      reads this
    {
      && (outcome.NoFrame? ==> frames.Length == nframes / 32)
      && (outcome.LeftBitmap? ==> frames.Length < nframes / 32
                                  || (nframes % 32 != 0 && 32 * frames.Length < DirectEnd(p0)))
    }

    ghost predicate MarksInside(q: Plan)
      reads this
    {
      q.direct <= Max(1, 32 * frames.Length) || nframes <= Max(1, 32 * frames.Length)
    }

    /** Page `page` is the first that needs a bit outside the words that the bitmap has to itself. */
    ghost predicate LeavesAt(page: nat, q: Plan)
      reads this
    {
      if page < q.direct then page == Max(1, 32 * frames.Length)
      else FrameOf(q, page) == NO_FRAME && MarksInside(q)
    }

    /** What becomes of the mapping when a page needs a word shared with the directory. */
    lemma Leaving(image: nat, bytes: nat, page: nat, top: nat, p0: nat, q: Plan)
      requires Mapping(page, top, p0, q) && page < HeapEndPage(p0)
      requires bytes >= nframes / 32 && frames.Length == OwnWords(image, bytes, nframes / 32)
      requires LeavesAt(page, q)
      ensures frames.Length < nframes / 32 && image % 4 == 0 ==> LosesIdentity(View(), page, q)
    {
      hide FrameOf, LosesIdentity, WF, Marked;
      if frames.Length < nframes / 32 && image % 4 == 0 {
        SomeOwnWord(image, bytes, nframes / 32);
        TablesEndBelowHeap(p0);
        LeavingLosesIdentity(View(), page, top, p0, q);
      }
    }

    /** initialize_paging up to the point where paging is switched on and the heap is created. The
        memory of the bitmap held `stale`; `bitmapBytes` of it are allocated and cleared. As
        written those are nframes / 32 bytes, while the bitmap has nframes / 32 words: the words
        behind the cleared bytes hold whatever was there, and those behind the padding belong to
        the directory as well. The model goes up to the page that needs one of these; from there
        on `SharedBitmap` says what becomes of the mapping, for an image that ends on a word. */
    method InitializePaging(memsize: nat, bitmapBytes: nat, stale: seq<word>)
      returns (outcome: BootEnd, heapStart: nat, ghost page: nat, ghost top: nat)
      requires memsize / 4 < PAGES && |stale| == memsize / 4 / 32
      requires bitmapBytes == |stale| || bitmapBytes == 4 * |stale|
      requires 0 < placement && HeapEndPage(AfterTableZero(placement, bitmapBytes)) < PAGES
      modifies this
      ensures fresh(frames) && fresh(tables) && fresh(physical)
      ensures nframes == memsize / 4 && frames.Length == OwnWords(old(placement), bitmapBytes, |stale|)
      ensures var p0 := AfterTableZero(old(placement), bitmapBytes);
              var q := BootPlan(old(placement), stale, bitmapBytes);
        && Mapping(page, top, p0, q)
        && (outcome.Booted? <==> HeapEndPage(p0) - DirectEnd(p0) <= |FreeFrames(q, DirectEnd(p0))|)
        && (outcome.Booted? ==> heapStart == HeapPage(p0) * PAGE
                                && page == HeapEndPage(p0) && top == (HeapEndPage(p0) - 1) / 1024)
        && (outcome.Booted? && IdentityBelow(Dir(), HeapEndPage(p0) * PAGE) <==>
            BootsToIdentity(old(placement), stale, bitmapBytes))
        && (bitmapBytes == 4 * |stale| ==> (outcome.Booted? <==> HeapEndPage(p0) <= 32 * |stale|))
        && Stopped(outcome, p0)
        && (outcome.LeftBitmap? && frames.Length < nframes / 32 && old(placement) % 4 == 0 ==>
              LosesIdentity(View(), page, q))
    {
      hide Mapping, Mapped, WF, Marked, FrameOf, Resume, StaleFrames, FreeFrames, IdentityBelow, BootsToIdentity;
      hide PlanIsIdentity, LosesIdentity, OwnWords, DirectEnd, HeapPage;
      ghost var image := placement;
      ghost var p0 := AfterTableZero(placement, bitmapBytes);
      ghost var q := BootPlan(placement, stale, bitmapBytes);
      hide AfterTableZero;
      BootOutcome(placement, stale, bitmapBytes);
      var inside := SetUp(memsize, bitmapBytes, stale);
      assert Mapping(1, 0, p0, q);
      outcome, heapStart, page, top := MapMemory(inside, p0, q);
      if outcome.Booted? {
        MappingIdentityIff(page, top, p0, q);
      } else {
        Leaving(image, bitmapBytes, page, top, p0, q);
      }
    }
  }
}
