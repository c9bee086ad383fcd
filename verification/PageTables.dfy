/** Frames, page tables and the bump allocator as one value, and what each operation of paging.c
    and mem.c does to it. `Paging.dfy` has the imperative code. */
module PageTables {

  const PAGE: nat := 0x1000
  const SPACE: nat := 0x1_0000_0000
  const PAGES: nat := 0x10_0000
  const NO_FRAME: nat := 0xFFFF_FFFF

  /** The bit fields of a 32-bit page table entry, lowest first. */
  datatype PageEntry = PageEntry(present: bool, rw: bool, user: bool, accessed: bool, dirty: bool,
                                 unused: nat, frame: nat)

  const CLEAR := PageEntry(false, false, false, false, false, 0, 0)

  /** The bump pointer, the two arrays of the page directory, and the memory of the page tables
      by address. Address 0 is NULL. */
  datatype Directory = Directory(placement: nat, tables: seq<nat>, physical: seq<nat>,
                                 pages: map<nat, seq<PageEntry>>)

  /** `marked` is the set of frames whose bit is set among the `capacity` bits of the bitmap. */
  datatype Frames = Frames(marked: set<nat>, capacity: nat, nframes: nat)

  datatype State = State(frames: Frames, dir: Directory)

  /** `x | 0x7`, on a number: its low three bits become ones. */
  function OrFlags(x: nat): nat { x - x % 8 + 7 }

  predicate TableOk(d: Directory, t: nat)
    requires t < |d.tables| && t < |d.physical|
  {
    if d.tables[t] == 0 then d.physical[t] == 0
    else
      && d.tables[t] in d.pages
      && d.tables[t] % PAGE == 0
      && d.tables[t] + PAGE <= d.placement
      && d.physical[t] == OrFlags(d.tables[t])
  }

  /** Tables are page-aligned, lie below the bump pointer, and no two indices share one. */
  ghost predicate WF(d: Directory) {
    && |d.tables| == 1024 && |d.physical| == 1024
    && (forall t :: 0 <= t < 1024 ==> TableOk(d, t))
    && (forall t, u :: 0 <= t < u < 1024 && d.tables[t] != 0 ==> d.tables[t] != d.tables[u])
    && (forall a :: a in d.pages ==> |d.pages[a]| == 1024 && a + PAGE <= d.placement)
  }

  /** The entry of page number `j`; a page whose table does not exist has a clear one. */
  function Entry(d: Directory, j: nat): PageEntry
    requires WF(d) && j < PAGES
  {
    var a := d.tables[j / 1024];
    assert TableOk(d, j / 1024);
    if a == 0 then CLEAR else d.pages[a][j % 1024]
  }

  predicate HasTable(d: Directory, j: nat)
    requires WF(d) && j < PAGES
  {
    d.tables[j / 1024] != 0
  }

  lemma EntryIsStored(d: Directory, j: nat)
    requires WF(d) && j < PAGES && HasTable(d, j)
    ensures d.tables[j / 1024] in d.pages && |d.pages[d.tables[j / 1024]]| == 1024
    ensures Entry(d, j) == d.pages[d.tables[j / 1024]][j % 1024]
  {
    assert TableOk(d, j / 1024);
  }

  // ---------------------------------------------------------------- bump allocation

  function Aligned(p: nat): (a: nat)
    ensures a % PAGE == 0 && p <= a < p + PAGE
  {
    if p % PAGE == 0 then p else p + PAGE - (p + PAGE) % PAGE
  }

  // ---------------------------------------------------------------- get_page

  /** get_page with `make` set: the table of the page exists afterwards. */
  function GetPage(d: Directory, address: nat): Directory
    requires WF(d) && address < SPACE
  {
    var t := address / PAGE / 1024;
    if d.tables[t] != 0 then d
    else
      var a := Aligned(d.placement);
      d.(placement := a + PAGE,
         tables := d.tables[t := a],
         physical := d.physical[t := OrFlags(a)],
         pages := d.pages[a := seq(1024, _ => CLEAR)])
  }

  /** Creating a table changes no entry, and it happens at most once per index. */
  lemma GetPageKeeps(d: Directory, address: nat)
    requires WF(d) && address < SPACE && d.placement > 0
    ensures var d' := GetPage(d, address);
            && WF(d')
            && HasTable(d', address / PAGE)
            && (forall j :: 0 <= j < PAGES ==> Entry(d', j) == Entry(d, j))
            && GetPage(d', address) == d'
  {
    var d' := GetPage(d, address);
    var t := address / PAGE / 1024;
    if d.tables[t] == 0 {
      var a := Aligned(d.placement);
      assert a !in d.pages;
      forall u | 0 <= u < 1024
        ensures TableOk(d', u) && (u != t ==> d'.tables[u] != a)
      {
        assert TableOk(d, u);
      }
      forall j | 0 <= j < PAGES
        ensures Entry(d', j) == Entry(d, j)
      {
        assert TableOk(d, j / 1024);
      }
    }
  }

  // ---------------------------------------------------------------- entries

  function SetEntry(d: Directory, j: nat, e: PageEntry): Directory
    requires WF(d) && j < PAGES && HasTable(d, j)
  {
    var a := d.tables[j / 1024];
    assert TableOk(d, j / 1024);
    d.(pages := d.pages[a := d.pages[a][j % 1024 := e]])
  }

  /** Storing one entry leaves every other page as it was. */
  lemma SetEntryKeeps(d: Directory, j: nat, e: PageEntry)
    requires WF(d) && j < PAGES && HasTable(d, j)
    ensures var d' := SetEntry(d, j, e);
            && WF(d')
            && (forall k :: 0 <= k < PAGES ==> HasTable(d', k) == HasTable(d, k))
            && (forall k :: 0 <= k < PAGES ==> Entry(d', k) == if k == j then e else Entry(d, k))
  {
    var d' := SetEntry(d, j, e);
    forall t | 0 <= t < 1024
      ensures TableOk(d', t)
    {
      assert TableOk(d, t);
    }
    assert TableOk(d, j / 1024);
    assert forall a :: a in d'.pages ==> |d'.pages[a]| == 1024 && a + PAGE <= d'.placement;
    assert WF(d');
    forall k | 0 <= k < PAGES
      ensures Entry(d', k) == if k == j then e else Entry(d, k)
    {
      assert TableOk(d, k / 1024) && TableOk(d, j / 1024);
      if k / 1024 < j / 1024 {
        assert d.tables[k / 1024] != d.tables[j / 1024];
      } else if k / 1024 > j / 1024 {
        assert d.tables[k / 1024] != d.tables[j / 1024];
      } else if k != j {
        assert k % 1024 != j % 1024;
      }
    }
  }

  // ---------------------------------------------------------------- frames

  /** set_frame, with its guard in wrapping arithmetic. */
  function SetFrame(f: Frames, addr: nat): Frames {
    if addr < f.nframes * PAGE % SPACE then f.(marked := f.marked + {addr / PAGE}) else f
  }

  function ClearFrame(f: Frames, addr: nat): Frames {
    f.(marked := f.marked - {addr / PAGE})
  }

  /** The least unmarked frame from `i` on, as first_frame scans for it. */
  ghost function LeastFree(f: Frames, i: nat): nat
    decreases f.capacity - i
  {
    if i >= f.capacity then NO_FRAME
    else if i !in f.marked then i
    else LeastFree(f, i + 1)
  }

  lemma {:induction false} LeastFreeFound(f: Frames, i: nat, n: nat)
    requires i <= n < f.capacity && n !in f.marked && forall g :: i <= g < n ==> g in f.marked
    ensures LeastFree(f, i) == n
    decreases n - i
  {
    if i < n {
      LeastFreeFound(f, i + 1, n);
    }
  }

  lemma {:induction false} LeastFreeNone(f: Frames, i: nat)
    requires forall g :: i <= g < f.capacity ==> g in f.marked
    ensures LeastFree(f, i) == NO_FRAME
    decreases f.capacity - i
  {
    if i < f.capacity {
      LeastFreeNone(f, i + 1);
    }
  }

  /** What a scan finds is free, with every frame below it marked; it finds nothing exactly when
      every frame from `i` on is marked. */
  lemma {:induction false} LeastFreeIsLeast(f: Frames, i: nat)
    requires f.capacity < NO_FRAME
    ensures var n := LeastFree(f, i);
            && (n != NO_FRAME ==> i <= n < f.capacity && n !in f.marked && forall g :: i <= g < n ==> g in f.marked)
            && (n == NO_FRAME <==> forall g :: i <= g < f.capacity ==> g in f.marked)
    decreases f.capacity - i
  {
    if i < f.capacity && i in f.marked {
      LeastFreeIsLeast(f, i + 1);
    }
  }

  /** A multiple of the page size, cut to 32 bits. */
  lemma PageMultiple(x: nat)
    ensures x * PAGE % SPACE == x % PAGES * PAGE
  {
    var q, r := x / PAGES, x % PAGES;
    assert x * PAGE == q * SPACE + r * PAGE;
  }

  /** Marking the frame that first_frame returned takes effect exactly when the frame is below
      `nframes` modulo 2^20: the guard of set_frame wraps. At 4 GiB of memory it marks nothing. */
  lemma FoundFrameIsMarkedIff(f: Frames)
    requires f.capacity < NO_FRAME && LeastFree(f, 0) != NO_FRAME
    ensures SetFrame(f, LeastFree(f, 0) * PAGE % SPACE).marked == f.marked + {LeastFree(f, 0)} <==>
            LeastFree(f, 0) < f.nframes % PAGES
  {
    var n := LeastFree(f, 0);
    LeastFreeIsLeast(f, 0);
    PageMultiple(n);
    PageMultiple(f.nframes);
    var g := SetFrame(f, n * PAGE % SPACE);
    assert n * PAGE % SPACE / PAGE == n % PAGES;
    assert n in f.marked + {n};
    assert n in g.marked <==> n % PAGES == n && n < f.nframes % PAGES;
  }

  /** So below 4 GiB it always does. */
  lemma FoundFrameIsMarked(f: Frames)
    requires f.nframes < PAGES && f.capacity <= f.nframes && LeastFree(f, 0) != NO_FRAME
    ensures SetFrame(f, LeastFree(f, 0) * PAGE % SPACE) == f.(marked := f.marked + {LeastFree(f, 0)})
    ensures LeastFree(f, 0) < f.capacity && LeastFree(f, 0) % PAGES == LeastFree(f, 0)
  {
    LeastFreeIsLeast(f, 0);
    FoundFrameIsMarkedIff(f);
  }

  datatype Outcome = Panic | Done(state: State)

  function Permit(e: PageEntry, isKernel: bool, isWriteable: bool): PageEntry {
    e.(present := true, rw := isWriteable, user := !isKernel)
  }

  /** alloc_frame on the entry of page `j`. Frame numbers are stored in 20 bits. */
  ghost function AllocFrame(s: State, j: nat, isKernel: bool, isWriteable: bool): Outcome
    requires WF(s.dir) && j < PAGES && HasTable(s.dir, j)
  {
    var e := Permit(Entry(s.dir, j), isKernel, isWriteable);
    if e.frame != 0 then Done(s.(dir := SetEntry(s.dir, j, e)))
    else
      var n := LeastFree(s.frames, 0);
      if n == NO_FRAME then Panic
      else Done(State(SetFrame(s.frames, n * PAGE % SPACE), SetEntry(s.dir, j, e.(frame := n % PAGES))))
  }

  /** direct_frame on the entry of page `j`. */
  function DirectFrame(s: State, j: nat, isKernel: bool, isWriteable: bool, addr: nat): State
    requires WF(s.dir) && j < PAGES && HasTable(s.dir, j)
  {
    var e := Permit(Entry(s.dir, j), isKernel, isWriteable);
    State(SetFrame(s.frames, addr), SetEntry(s.dir, j, e.(frame := addr / PAGE)))
  }

  /** What alloc_frame and direct_frame leave in the entry: the access asked for, and a frame. A page that
      has a frame keeps it and takes no other; one without gets the first free one. */
  lemma AllocGrants(s: State, j: nat, isKernel: bool, isWriteable: bool)
    requires WF(s.dir) && j < PAGES && HasTable(s.dir, j)
    ensures var r, e, n := AllocFrame(s, j, isKernel, isWriteable), Entry(s.dir, j), LeastFree(s.frames, 0);
            && (r.Panic? <==> e.frame == 0 && n == NO_FRAME)
            && (r.Done? ==>
                  && WF(r.state.dir)
                  && Entry(r.state.dir, j) == PageEntry(true, isWriteable, !isKernel, e.accessed, e.dirty, e.unused,
                                                        if e.frame != 0 then e.frame else n % 0x10_0000)
                  && (forall i :: 0 <= i < PAGES && i != j ==> Entry(r.state.dir, i) == Entry(s.dir, i))
                  && (e.frame != 0 ==> r.state.frames == s.frames))
  {
    hide LeastFree;
    var e := Permit(Entry(s.dir, j), isKernel, isWriteable);
    SetEntryKeeps(s.dir, j, e);
    SetEntryKeeps(s.dir, j, e.(frame := LeastFree(s.frames, 0) % PAGES));
  }

  lemma DirectGrants(s: State, j: nat, isKernel: bool, isWriteable: bool, addr: nat)
    requires WF(s.dir) && j < PAGES && HasTable(s.dir, j)
    ensures var t, e := DirectFrame(s, j, isKernel, isWriteable, addr), Entry(s.dir, j);
            && WF(t.dir)
            && Entry(t.dir, j) == PageEntry(true, isWriteable, !isKernel, e.accessed, e.dirty, e.unused, addr / 0x1000)
            && (forall i :: 0 <= i < PAGES && i != j ==> Entry(t.dir, i) == Entry(s.dir, i))
            && (addr < s.frames.nframes * 0x1000 % 0x1_0000_0000 ==>
                  t.frames.marked == s.frames.marked + {addr / 0x1000})
            && (addr >= s.frames.nframes * 0x1000 % 0x1_0000_0000 ==> t.frames == s.frames)
  {
    var e := Permit(Entry(s.dir, j), isKernel, isWriteable).(frame := addr / PAGE);
    SetEntryKeeps(s.dir, j, e);
  }

  /** free_frame, releasing the frame the page owns. */
  function FreeFrame(s: State, j: nat): State
    requires WF(s.dir) && j < PAGES && HasTable(s.dir, j)
  {
    var e := Entry(s.dir, j);
    if e.frame == 0 then s
    else State(ClearFrame(s.frames, e.frame * PAGE), SetEntry(s.dir, j, e.(frame := 0)))
  }

  /** free_frame as written: it passes the frame number where clear_frame takes an address. */
  function FreeFrameAsWritten(s: State, j: nat): State
    requires WF(s.dir) && j < PAGES && HasTable(s.dir, j)
  {
    var e := Entry(s.dir, j);
    if e.frame == 0 then s
    else State(ClearFrame(s.frames, e.frame), SetEntry(s.dir, j, e.(frame := 0)))
  }

  // ---------------------------------------------------------------- translation

  /** map_to_physical: NULL when the page has no table. */
  function MapToPhysical(d: Directory, virt: nat): nat
    requires WF(d) && virt < SPACE
  {
    if HasTable(d, virt / PAGE) then Entry(d, virt / PAGE).frame * PAGE + virt % PAGE else 0
  }

  function Flags(e: PageEntry): (n: nat)
    ensures n < 32 && n % 2 == if e.present then 1 else 0
  {
    (if e.present then 1 else 0) + (if e.rw then 2 else 0) + (if e.user then 4 else 0)
    + (if e.accessed then 8 else 0) + (if e.dirty then 16 else 0)
  }

  /** A page table entry as the 32-bit word in memory. */
  function Word(e: PageEntry): nat {
    Flags(e) + e.unused % 128 * 32 + e.frame * PAGE
  }

  /** All that the processor relies on. */
  ghost predicate Sized(d: Directory) {
    |d.physical| == 1024 && forall a :: a in d.pages ==> |d.pages[a]| == 1024
  }

  datatype Walk = Fault | At(address: nat)

  /** 32-bit paging as the processor does it (section 4.3 of the Intel SDM volume 3A): the upper 20
      bits of the directory word locate the table, whose word locates the page; bit 0 of
      either word says whether it is present. */
  ghost function Translate(d: Directory, virt: nat): Walk
    requires Sized(d) && virt < SPACE
  {
    var pde := d.physical[virt / 0x40_0000];
    var table := pde / PAGE * PAGE;
    if pde % 2 == 0 || table !in d.pages then Fault
    else
      var pte := Word(d.pages[table][virt / PAGE % 1024]);
      if pte % 2 == 0 then Fault else At(pte / PAGE * PAGE + virt % PAGE)
  }

  /** The processor and map_to_physical agree on every present page: the flag bits 0x7 that
      get_page ors into the directory word do not reach the address of an aligned table. */
  lemma WalkAgrees(d: Directory, virt: nat)
    requires WF(d) && virt < SPACE
    ensures Translate(d, virt) ==
            if Entry(d, virt / PAGE).present then At(MapToPhysical(d, virt)) else Fault
  {
    var t := virt / 0x40_0000;
    assert t == virt / PAGE / 1024;
    assert TableOk(d, t);
    WordFields(Entry(d, virt / PAGE));
  }

  /** A new table does change what map_to_physical says: of the addresses on its 1024 pages it was NULL and
      is their offset in the page from then on. Every other address keeps its translation. */
  lemma GetPageKeepsAddressIff(d: Directory, address: nat, virt: nat)
    requires WF(d) && address < SPACE && virt < SPACE && d.placement > 0
    ensures WF(GetPage(d, address))
    ensures MapToPhysical(GetPage(d, address), virt) == MapToPhysical(d, virt) <==>
            HasTable(d, address / PAGE) || virt / PAGE / 1024 != address / PAGE / 1024 || virt % PAGE == 0
    ensures Translate(GetPage(d, address), virt) == Translate(d, virt)
  {
    GetPageKeeps(d, address);
    WalkAgrees(d, virt);
    WalkAgrees(GetPage(d, address), virt);
    var same := virt / PAGE / 1024 == address / PAGE / 1024;
    assert HasTable(GetPage(d, address), virt / PAGE) <==> same || HasTable(d, virt / PAGE);
    assert same ==> (HasTable(d, virt / PAGE) <==> HasTable(d, address / PAGE));
    assert !HasTable(d, virt / PAGE) ==> Entry(d, virt / PAGE) == CLEAR;
    assert Entry(d, virt / PAGE).present ==> HasTable(d, virt / PAGE);
  }

  /** For instance get_page(0x401000) creates table 1, and the address 0x400001 moves from NULL to 1. */
  lemma NewTableMovesAddress(d: Directory)
    requires WF(d) && d.placement > 0 && !HasTable(d, 0x401)
    ensures WF(GetPage(d, 0x40_1000))
    ensures MapToPhysical(d, 0x40_0001) == 0 && MapToPhysical(GetPage(d, 0x40_1000), 0x40_0001) == 1
  {
    GetPageKeeps(d, 0x40_1000);
    assert Entry(d, 0x400) == CLEAR;
  }

  /** Storing one entry leaves the translation of every address on another page as it was. */
  lemma SetEntryKeepsAddress(d: Directory, j: nat, e: PageEntry, virt: nat)
    requires WF(d) && j < PAGES && HasTable(d, j) && virt < SPACE && virt / PAGE != j
    ensures WF(SetEntry(d, j, e))
    ensures MapToPhysical(SetEntry(d, j, e), virt) == MapToPhysical(d, virt)
    ensures Translate(SetEntry(d, j, e), virt) == Translate(d, virt)
  {
    SetEntryKeeps(d, j, e);
    WalkAgrees(d, virt);
    WalkAgrees(SetEntry(d, j, e), virt);
  }

  /** free_frame leaves the page present: the processor then takes it to physical frame 0. */
  lemma FreedPageIsFrameZero(s: State, j: nat, virt: nat)
    requires WF(s.dir) && j < PAGES && HasTable(s.dir, j) && Entry(s.dir, j).frame != 0
    requires virt < SPACE && virt / PAGE == j
    ensures WF(FreeFrame(s, j).dir)
    ensures Translate(FreeFrame(s, j).dir, virt) == if Entry(s.dir, j).present then At(virt % PAGE) else Fault
  {
    SetEntryKeeps(s.dir, j, Entry(s.dir, j).(frame := 0));
    WalkAgrees(FreeFrame(s, j).dir, virt);
  }

  /** free_frame takes the frame out of the entry and out of the bitmap, and nothing else. */
  lemma FreeReleases(s: State, j: nat)
    requires WF(s.dir) && j < PAGES && HasTable(s.dir, j)
    ensures var t, e := FreeFrame(s, j), Entry(s.dir, j);
            && WF(t.dir) && Entry(t.dir, j) == e.(frame := 0)
            && (forall i :: 0 <= i < PAGES && i != j ==> Entry(t.dir, i) == Entry(s.dir, i))
            && t.frames.marked == (if e.frame == 0 then s.frames.marked else s.frames.marked - {e.frame})
  {
    SetEntryKeeps(s.dir, j, Entry(s.dir, j).(frame := 0));
  }

  /** Masking the flags off gives the address back exactly when it is page-aligned. */
  lemma FlagsKeepAddressIff(a: nat)
    ensures OrFlags(a) / PAGE * PAGE == a <==> a % PAGE == 0
  {
    assert OrFlags(a) / PAGE == a / PAGE;
  }

  lemma WordFields(e: PageEntry)
    ensures Word(e) % 2 == (if e.present then 1 else 0) && Word(e) / PAGE == e.frame
    ensures Word(e) % 32 == Flags(e) && Word(e) / 32 % 128 == e.unused % 128
  {
    hide Flags;
    var low := Flags(e) + e.unused % 128 * 32;
    assert Word(e) == low + e.frame * PAGE && 0 <= low < PAGE;
    assert Word(e) == Flags(e) + 32 * (e.unused % 128 + 128 * e.frame);
  }

  /** The places of the bit fields: present, writeable and user are bits 0 to 2, as the processor has them
      (section 4.3 of the Intel SDM volume 3A), accessed and dirty bits 3 and 4, and the frame bits
      12 and up. */
  lemma WordBits(e: PageEntry)
    ensures Word(e) % 32 == (if e.present then 1 else 0) + (if e.rw then 2 else 0) + (if e.user then 4 else 0)
                            + (if e.accessed then 8 else 0) + (if e.dirty then 16 else 0)
    ensures Word(e) / 0x1000 == e.frame
  {
    WordFields(e);
    hide Word;
  }

  /** No two entries share a word: every field can be read back. */
  lemma WordIsInjective(e: PageEntry, f: PageEntry)
    requires e.unused < 128 && f.unused < 128 && Word(e) == Word(f)
    ensures e == f
  {
    WordFields(e);
    WordFields(f);
    FlagsAreInjective(e, f);
  }

  lemma FlagsAreInjective(e: PageEntry, f: PageEntry)
    requires Flags(e) == Flags(f)
    ensures e.present == f.present && e.rw == f.rw && e.user == f.user
    ensures e.accessed == f.accessed && e.dirty == f.dirty
  {
  }
}
