/** What the four mapping loops of initialize_paging keep, and where they end. */
module BootMap {
  import opened FrameBits
  import opened PageTables

  const KERNEL_HEAP_START: nat := 0xC00_0000
  const KERNEL_HEAP_INIT: nat := 0x10_0000
  const DIRECTORY_SIZE: nat := 8196
  const HEAP_DESCRIPTOR_SIZE: nat := 18

  /** What boot starts from, as far as the mapping depends on it: pages below `direct` are mapped
      outright, pages from `userFrom` on belong to the heap, and of the `capacity` bits of the
      bitmap those in `stale` are set when the loops begin. */
  datatype Plan = Plan(direct: nat, userFrom: nat, capacity: nat, stale: set<nat>) {
    predicate Ok() {
      0 < direct <= userFrom && capacity < PAGES
    }
  }

  /** The frame that page `j` gets: its own number below `direct`, and from there on the first frame
      without a stale bit behind the frame of the page before. */
  ghost function FrameOf(q: Plan, j: nat): nat
    decreases j, 1
  {
    if j < q.direct then j else LeastFree(Frames(q.stale, q.capacity, 0), Resume(q, j))
  }

  /** Where the search for the frame of page `j` gets beyond the frames in use. */
  ghost function Resume(q: Plan, j: nat): nat
    decreases j, 0
  {
    if j <= q.direct then j else FrameOf(q, j - 1) + 1
  }

  /** The entry of page `j` after boot: present, read-only, user from page `u` on. Page 0 alone is
      not present. */
  function BootEntry(j: nat, u: nat, frame: nat): PageEntry {
    PageEntry(j > 0, false, j >= u, false, false, 0, frame)
  }

  /** Pages below `k` have their planned frames and no other page has one; the frames marked are
      the stale ones and those up to where the search resumes; the tables are those of indices up
      to `top`, carved one after another from `p0` on (`p0` is where the bump pointer stood after
      table 0). */
  ghost predicate Mapped(s: State, k: nat, top: nat, p0: nat, q: Plan) {
    && WF(s.dir) && 1 <= k <= PAGES && top < 1024 && q.Ok()
    && 0 < p0 && p0 % PAGE == 0 && s.dir.placement == p0 + PAGE * top
    && (forall t :: 0 <= t < 1024 ==> (s.dir.tables[t] != 0 <==> t <= top))
    && (forall j :: 0 <= j < PAGES ==>
                      Entry(s.dir, j) == if j < k then BootEntry(j, q.userFrom, FrameOf(q, j)) else CLEAR)
    && (forall j :: q.direct <= j < k ==> FrameOf(q, j) != NO_FRAME)
    && s.frames.capacity == q.capacity <= s.frames.nframes < PAGES
    && (forall n :: 0 <= n < q.capacity ==> (n in s.frames.marked <==> n < Resume(q, k) || n in q.stale))
  }

  lemma MappedPlacement(s: State, k: nat, top: nat, p0: nat, q: Plan)
    requires Mapped(s, k, top, p0, q)
    ensures s.dir.placement == p0 + PAGE * top
  {
  }

  /** After table 0 has been carved from an empty directory and frame 0 has been marked. */
  lemma MappedInitially(f: Frames, d: Directory, q: Plan)
    requires WF(d) && 0 < d.placement && q.Ok() && q.capacity == f.capacity <= f.nframes < PAGES
    requires forall t :: 0 <= t < 1024 ==> d.tables[t] == 0
    requires f.marked == q.stale
    ensures WF(GetPage(d, 0)) && HasTable(GetPage(d, 0), 0)
    ensures Mapped(State(SetFrame(f, 0), SetEntry(GetPage(d, 0), 0, CLEAR)), 1, 0, Aligned(d.placement) + PAGE, q)
  {
    GetPageKeeps(d, 0);
    SetEntryKeeps(GetPage(d, 0), 0, CLEAR);
    assert FrameOf(q, 0) == 0 && Resume(q, 1) == 1;
    hide FrameOf, Resume, TableOk;
  }

  /** Without bits there is nothing to say about them. */
  lemma MappedWithoutBits(s: State, f: Frames, k: nat, top: nat, p0: nat, q: Plan)
    requires Mapped(s, k, top, p0, q) && f.capacity == s.frames.capacity == 0 && f.nframes == s.frames.nframes
    ensures Mapped(s.(frames := f), k, top, p0, q)
  {
    hide FrameOf, Resume;
  }

  function Max(a: nat, b: nat): nat {
    if a < b then b else a
  }

  /** get_page on a page whose table is the next one at the latest. */
  lemma TableStep(s: State, k: nat, top: nat, p0: nat, q: Plan, j: nat)
    requires Mapped(s, k, top, p0, q) && j < PAGES && j / 1024 <= top + 1
    ensures Mapped(s.(dir := GetPage(s.dir, j * PAGE)), k, Max(top, j / 1024), p0, q)
    ensures HasTable(GetPage(s.dir, j * PAGE), j)
  {
    hide FrameOf, Resume;
    assert j * PAGE / PAGE == j;
    GetPageKeeps(s.dir, j * PAGE);
  }

  lemma MapStep(s: State, s': State, k: nat, top: nat, p0: nat, q: Plan)
    requires Mapped(s, k, top, p0, q) && k < PAGES && HasTable(s.dir, k)
    requires k >= q.direct ==> FrameOf(q, k) != NO_FRAME
    requires s'.dir == SetEntry(s.dir, k, BootEntry(k, q.userFrom, FrameOf(q, k)))
    requires s'.frames.capacity == q.capacity && s'.frames.nframes == s.frames.nframes
    requires forall n :: 0 <= n < q.capacity ==> (n in s'.frames.marked <==> n < Resume(q, k + 1) || n in q.stale)
    ensures Mapped(s', k + 1, top, p0, q)
  {
    hide FrameOf, Resume;
    SetEntryKeeps(s.dir, k, BootEntry(k, q.userFrom, FrameOf(q, k)));
    forall t | 0 <= t < 1024
      ensures s'.dir.tables[t] != 0 <==> t <= top
    {
    }
  }

  /** direct_frame maps page `k` to frame `k` outright, stale bit or not. */
  lemma DirectStep(s: State, k: nat, top: nat, p0: nat, q: Plan)
    requires Mapped(s, k, top, p0, q) && k < q.direct && k < PAGES && HasTable(s.dir, k)
    ensures Mapped(DirectFrame(s, k, true, false, k * PAGE), k + 1, top, p0, q)
  {
    assert k * PAGE / PAGE == k;
    MapStep(s, DirectFrame(s, k, true, false, k * PAGE), k, top, p0, q);
  }

  /** alloc_frame gives page `k` its planned frame, because that is the first free one; it panics
      when there is none. */
  lemma AllocStep(s: State, k: nat, top: nat, p0: nat, q: Plan)
    requires Mapped(s, k, top, p0, q) && q.direct <= k < PAGES && HasTable(s.dir, k)
    ensures AllocFrame(s, k, k < q.userFrom, false).Done? <==> FrameOf(q, k) != NO_FRAME
    ensures FrameOf(q, k) != NO_FRAME ==>
              Mapped(AllocFrame(s, k, k < q.userFrom, false).state, k + 1, top, p0, q)
  {
    hide FrameOf, Resume, LeastFree, SetEntry, SetFrame;
    FirstFreeIsPlanned(s, k, top, p0, q);
    assert Entry(s.dir, k) == CLEAR;
    if FrameOf(q, k) != NO_FRAME {
      FoundFrameIsMarked(s.frames);
      MapStep(s, AllocFrame(s, k, k < q.userFrom, false).state, k, top, p0, q);
    }
  }

  lemma FirstFreeIsPlanned(s: State, k: nat, top: nat, p0: nat, q: Plan)
    requires Mapped(s, k, top, p0, q) && q.direct <= k < PAGES
    ensures LeastFree(s.frames, 0) == FrameOf(q, k)
    ensures FrameOf(q, k) != NO_FRAME ==>
              && Resume(q, k) <= FrameOf(q, k) < q.capacity
              && forall n :: 0 <= n < q.capacity ==>
                   (n < Resume(q, k) || n in q.stale || n == FrameOf(q, k) <==> n < Resume(q, k + 1) || n in q.stale)
  {
    PlannedFrame(q, k);
    if FrameOf(q, k) != NO_FRAME {
      LeastFreeFound(s.frames, 0, FrameOf(q, k));
    } else {
      LeastFreeNone(s.frames, 0);
    }
  }

  /** What boot allows on the pages: all but page 0 are present, none is writeable, and only those of the
      heap are open to user mode. */
  lemma MappedAccess(s: State, k: nat, top: nat, p0: nat, q: Plan, j: nat)
    requires Mapped(s, k, top, p0, q) && j < PAGES
    ensures Entry(s.dir, j).present <==> 0 < j < k
    ensures !Entry(s.dir, j).rw && (Entry(s.dir, j).user <==> q.userFrom <= j < k)
  {
    hide FrameOf, Resume;
    assert Entry(s.dir, j) == if j < k then BootEntry(j, q.userFrom, FrameOf(q, j)) else CLEAR;
  }

  // ---------------------------------------------------------------- the planned frames

  /** The planned frame has no stale bit, and every frame the search passes on the way has one. */
  lemma PlannedFrame(q: Plan, j: nat)
    requires q.Ok() && j >= q.direct
    ensures var n := FrameOf(q, j);
            && (n != NO_FRAME ==> Resume(q, j) <= n < q.capacity && n !in q.stale &&
                                  forall g :: Resume(q, j) <= g < n ==> g in q.stale)
            && (n == NO_FRAME <==> forall g :: Resume(q, j) <= g < q.capacity ==> g in q.stale)
  {
    LeastFreeIsLeast(Frames(q.stale, q.capacity, 0), Resume(q, j));
  }

  lemma {:induction false} PlannedAtLeast(q: Plan, j: nat)
    requires q.Ok() && j < PAGES
    ensures FrameOf(q, j) >= j && Resume(q, j) >= j
  {
    if j >= q.direct {
      PlannedFrame(q, j);
      if j > q.direct {
        PlannedAtLeast(q, j - 1);
      }
    }
  }

  /** When the frames run out they stay out. */
  lemma {:induction false} NoFrameStays(q: Plan, j: nat, k: nat)
    requires q.Ok() && q.direct <= j <= k && FrameOf(q, j) == NO_FRAME
    ensures FrameOf(q, k) == NO_FRAME
    decreases k - j
  {
    if j < k {
      NoFrameStays(q, j, k - 1);
      PlannedFrame(q, k);
    }
  }

  /** When the direct pages reach the end of the bitmap, no frame is left for the others. */
  lemma NoneBehind(q: Plan, j: nat)
    requires q.Ok() && q.capacity <= q.direct <= j
    ensures FrameOf(q, j) == NO_FRAME
  {
    PlannedFrame(q, q.direct);
    NoFrameStays(q, q.direct, j);
  }

  /** Later pages get later frames. */
  lemma {:induction false} PlannedIncrease(q: Plan, i: nat, j: nat)
    requires q.Ok() && i < j < PAGES && (j >= q.direct ==> FrameOf(q, j) != NO_FRAME)
    ensures FrameOf(q, i) < FrameOf(q, j)
    decreases j
  {
    if j >= q.direct {
      PlannedFrame(q, j);
      if j > q.direct {
        if i < j - 1 {
          PlannedIncrease(q, i, j - 1);
        }
      }
    }
  }

  /** Every frame up to where the search resumes is planned for some page or stale. */
  lemma {:induction false} PlannedOnto(q: Plan, k: nat, n: nat)
    requires q.Ok() && k <= PAGES && n < Resume(q, k) && (n >= q.direct ==> n !in q.stale)
    requires forall j :: q.direct <= j < k ==> FrameOf(q, j) != NO_FRAME
    ensures exists j :: 0 <= j < k && FrameOf(q, j) == n
    decreases k
  {
    if k <= q.direct {
      assert FrameOf(q, n) == n;
    } else {
      PlannedFrame(q, k - 1);
      PlannedAtLeast(q, k - 1);
      if n != FrameOf(q, k - 1) {
        PlannedOnto(q, k - 1, n);
      }
    }
  }

  /** Each page below `h` gets the frame of its own number. */
  ghost predicate PlanIsIdentity(q: Plan, h: nat) {
    forall j :: 0 <= j < h ==> FrameOf(q, j) == j
  }

  /** That is so exactly when the bitmap reaches that far and has no stale bit from the end of the
      direct pages on. */
  lemma PlanIsIdentityIff(q: Plan, h: nat)
    requires q.Ok() && q.direct < h <= PAGES
    ensures PlanIsIdentity(q, h) <==> h <= q.capacity && forall n :: q.direct <= n < h ==> n !in q.stale
  {
    if h <= q.capacity && forall n :: q.direct <= n < h ==> n !in q.stale {
      forall j | 0 <= j < h
        ensures FrameOf(q, j) == j
      {
        ClearIsIdentity(q, j);
      }
    }
    if PlanIsIdentity(q, h) {
      forall n | q.direct <= n < h
        ensures n !in q.stale
      {
        assert FrameOf(q, n) == n;
        PlannedFrame(q, n);
      }
      assert FrameOf(q, h - 1) == h - 1;
      PlannedFrame(q, h - 1);
    }
  }

  lemma {:induction false} ClearIsIdentity(q: Plan, j: nat)
    requires q.Ok() && (j >= q.direct ==> j < q.capacity)
    requires forall n :: q.direct <= n <= j ==> n !in q.stale
    ensures FrameOf(q, j) == j
  {
    if j >= q.direct {
      if j > q.direct {
        ClearIsIdentity(q, j - 1);
      }
      PlannedFrame(q, j);
    }
  }

  /** The frames from `i` on without a stale bit. */
  ghost function FreeFrames(q: Plan, i: nat): set<nat> {
    set n: nat | i <= n < q.capacity && n !in q.stale
  }

  /** The pages up to `j` all get a frame exactly when there are that many free ones. */
  lemma {:induction false} FramesSuffice(q: Plan, j: nat)
    requires q.Ok() && j >= q.direct
    ensures FrameOf(q, j) != NO_FRAME <==> j - q.direct < |FreeFrames(q, q.direct)|
    ensures FrameOf(q, j) != NO_FRAME ==>
              |FreeFrames(q, Resume(q, j))| == |FreeFrames(q, q.direct)| - (j - q.direct)
    decreases j
  {
    hide FrameOf;
    PlannedFrame(q, j);
    var left := FreeFrames(q, Resume(q, j));
    assert FrameOf(q, j) != NO_FRAME <==> |left| > 0 by {
      if FrameOf(q, j) != NO_FRAME {
        assert FrameOf(q, j) in left;
      } else {
        assert left == {};
      }
    }
    if j > q.direct {
      FramesSuffice(q, j - 1);
      PlannedFrame(q, j - 1);
      if FrameOf(q, j - 1) != NO_FRAME {
        var before := FreeFrames(q, Resume(q, j - 1));
        assert FrameOf(q, j - 1) in before && left == before - {FrameOf(q, j - 1)};
      } else {
        NoFrameStays(q, j - 1, j);
      }
    }
  }

  /** A single stale bit behind the direct pages shifts the frames of all pages from its own on. */
  lemma {:induction false} OneStaleBitShifts(q: Plan, n: nat, j: nat)
    requires q.Ok() && q.stale == {n} && q.direct <= n <= j && j + 1 < q.capacity
    ensures FrameOf(q, j) == j + 1
    decreases j
  {
    if j > n {
      OneStaleBitShifts(q, n, j - 1);
    } else if n > q.direct {
      ClearIsIdentity(q, n - 1);
    }
    var from := Resume(q, j);
    assert from == if j == n then j else j + 1;
    assert j + 1 !in q.stale;
    PlannedFrame(q, j);
  }

  // ---------------------------------------------------------------- where addresses go

  /** Every mapped address goes into the planned frame of its page, although only the pages of the
      first loop were mapped outright. The processor agrees, except that page 0 faults; so do all
      addresses from the end of the mapped pages on. */
  lemma MappedAddresses(s: State, k: nat, top: nat, p0: nat, q: Plan, virt: nat)
    requires Mapped(s, k, top, p0, q) && virt < SPACE
    ensures virt < k * PAGE ==> MapToPhysical(s.dir, virt) == FrameOf(q, virt / PAGE) * PAGE + virt % PAGE
    ensures virt >= k * PAGE ==> MapToPhysical(s.dir, virt) < PAGE
    ensures Translate(s.dir, virt) ==
            if PAGE <= virt < k * PAGE then At(FrameOf(q, virt / PAGE) * PAGE + virt % PAGE) else Fault
  {
    hide FrameOf;
    WalkAgrees(s.dir, virt);
    var j := virt / PAGE;
    assert Entry(s.dir, j) == if j < k then BootEntry(j, q.userFrom, FrameOf(q, j)) else CLEAR;
    assert j < k <==> virt < k * PAGE;
  }

  /** Addresses below `end` are mapped to themselves, by map_to_physical and by the processor. */
  ghost predicate IdentityBelow(d: Directory, end: nat) {
    && WF(d) && end <= SPACE
    && forall a :: 0 <= a < end ==> MapToPhysical(d, a) == a && (a >= PAGE ==> Translate(d, a) == At(a))
  }

  lemma IdentityIff(s: State, k: nat, top: nat, p0: nat, q: Plan)
    requires Mapped(s, k, top, p0, q)
    ensures IdentityBelow(s.dir, k * PAGE) <==> PlanIsIdentity(q, k)
  {
    hide FrameOf, MapToPhysical, Translate;
    if PlanIsIdentity(q, k) {
      forall a | 0 <= a < k * PAGE
        ensures MapToPhysical(s.dir, a) == a && (a >= PAGE ==> Translate(s.dir, a) == At(a))
      {
        MappedAddresses(s, k, top, p0, q, a);
        assert FrameOf(q, a / PAGE) == a / PAGE;
      }
    }
    if IdentityBelow(s.dir, k * PAGE) {
      forall j | 0 <= j < k
        ensures FrameOf(q, j) == j
      {
        MappedAddresses(s, k, top, p0, q, j * PAGE);
        assert MapToPhysical(s.dir, j * PAGE) == j * PAGE;
      }
    }
  }

  // ---------------------------------------------------------------- where the loops end

  /** Where the bump pointer stands when table 0 has been carved: behind the bitmap come the
      page-aligned directory and the page-aligned table. */
  function AfterTableZero(image: nat, bitmapBytes: nat): (p: nat)
    ensures p % PAGE == 0 && p > 0
  {
    Aligned(Aligned(image + bitmapBytes) + DIRECTORY_SIZE) + PAGE
  }

  /** The first page the moving bound `placement_address + 0x3000` leaves unmapped: the bound
      starts at page `n` and every further 1023 pages carve one more table. */
  function DirectEnd(p0: nat): nat
    requires p0 % PAGE == 0
  {
    var n := p0 / PAGE + 3;
    n + (n - 2) / 1023
  }

  /** The page where the heap starts. */
  function HeapPage(p0: nat): nat
    requires p0 % PAGE == 0
  {
    var direct := DirectEnd(p0);
    if KERNEL_HEAP_START / PAGE <= direct then direct - 3 + 0x100 else KERNEL_HEAP_START / PAGE
  }

  /** The heap starts at 192 MiB, or 1 MiB minus the three pages of slack behind direct pages that
      reach so far. */
  lemma HeapStartIs(p0: nat)
    requires p0 % PAGE == 0
    ensures HeapPage(p0) * 0x1000 ==
            if DirectEnd(p0) < 0xC000 then 0xC00_0000 else DirectEnd(p0) * 0x1000 + 0xF_D000
    ensures HeapEndPage(p0) * 0x1000 == HeapPage(p0) * 0x1000 + 0x10_0000
  {
    hide DirectEnd;
  }

  /** Directory and table 0 take four pages from the first page boundary behind the bitmap. */
  lemma AfterTableZeroIs(image: nat, bitmapBytes: nat)
    ensures var d := AfterTableZero(image, bitmapBytes) - 0x4000;
            d % 0x1000 == 0 && image + bitmapBytes <= d < image + bitmapBytes + 0x1000
  {
    hide Aligned;
    var d := Aligned(image + bitmapBytes);
    var a := Aligned(d + DIRECTORY_SIZE);
    assert a == PAGE * (a / PAGE) && d == PAGE * (d / PAGE);
    assert a / PAGE == d / PAGE + 3;
  }

  function HeapEndPage(p0: nat): nat
    requires p0 % PAGE == 0
  {
    HeapPage(p0) + KERNEL_HEAP_INIT / PAGE
  }

  /** How many of the bitmap's `words` words lie in front of the page directory, which follows the
      `bytes` bytes allocated for it. As written there are nframes / 32 words but as many bytes:
      the words behind these few are at the same time words of the directory. */
  function OwnWords(image: nat, bytes: nat, words: nat): (own: nat)
    ensures own <= words && (4 * words <= bytes ==> own == words)
  {
    var room := (Aligned(image + bytes) - image) / 4;
    if room < words then room else words
  }

  /** When the bitmap runs into the directory, it has words of its own in front, and behind an image that
      ends on a word the directory begins with the next word. */
  lemma SomeOwnWord(image: nat, bytes: nat, words: nat)
    requires image % 4 == 0 && words <= bytes && OwnWords(image, bytes, words) < words
    ensures 0 < OwnWords(image, bytes, words)
    ensures image + 4 * OwnWords(image, bytes, words) == Aligned(image + bytes)
  {
    var a := Aligned(image + bytes);
    assert a == 4 * (0x400 * (a / PAGE)) && image == 4 * (image / 4);
    hide Aligned;
  }

  /** Frame `n` is one whose bit boot finds set: it is behind the cleared bytes, and was set before. */
  ghost predicate IsStale(stale: seq<word>, bytes: nat, n: nat) {
    8 * bytes <= n < 32 * |stale| && Bit(stale[n / 32], n % 32)
  }

  ghost function StaleFrames(stale: seq<word>, bytes: nat): set<nat> {
    set n: nat | n < 32 * |stale| && IsStale(stale, bytes, n)
  }

  /** The words of its own of a bitmap whose memory held `stale`. */
  function Own(image: nat, stale: seq<word>, bytes: nat): seq<word> {
    stale[..OwnWords(image, bytes, |stale|)]
  }

  /** The plan of a boot whose bitmap memory held `stale`, with `bytes` of it allocated and cleared. It
      covers the frames whose bits lie in the bitmap's own words. */
  ghost function BootPlan(image: nat, stale: seq<word>, bytes: nat): Plan {
    var p0, own := AfterTableZero(image, bytes), Own(image, stale, bytes);
    Plan(DirectEnd(p0), HeapPage(p0), 32 * |own|, StaleFrames(own, bytes))
  }

  /** The bitmap words of all frames below `h` lie in front of the page directory. */
  ghost predicate BitmapBelowDirectory(image: nat, bytes: nat, h: nat) {
    forall n :: 0 <= n < h ==> image + n / 32 * 4 + 4 <= Aligned(image + bytes)
  }

  /** That is so exactly when the padding in front of the directory is enough, and for a bitmap that
      reaches so far exactly when they are words of its own. */
  lemma BitmapBelowDirectoryIff(image: nat, bytes: nat, words: nat, h: nat)
    requires 0 < h
    ensures BitmapBelowDirectory(image, bytes, h) <==> image + 4 * ((h + 31) / 32) <= Aligned(image + bytes)
    ensures h <= 32 * OwnWords(image, bytes, words) <==> h <= 32 * words && BitmapBelowDirectory(image, bytes, h)
  {
    var last := h - 1;
    assert last / 32 + 1 == (h + 31) / 32;
    if image + 4 * ((h + 31) / 32) <= Aligned(image + bytes) {
      forall n | 0 <= n < h
        ensures image + n / 32 * 4 + 4 <= Aligned(image + bytes)
      {
        assert n / 32 <= last / 32;
      }
    }
  }

  /** Boot maps every page below the heap's end to itself exactly when the bitmap reaches that far
      without running into the directory, and no stale bit is left on a frame the loops over
      alloc_frame need. */
  ghost predicate BootsToIdentity(image: nat, stale: seq<word>, bytes: nat) {
    var p0 := AfterTableZero(image, bytes);
    && HeapEndPage(p0) <= 32 * |stale|
    && BitmapBelowDirectory(image, bytes, HeapEndPage(p0))
    && forall n :: Max(8 * bytes, DirectEnd(p0)) <= n < HeapEndPage(p0) ==> !Bit(stale[n / 32], n % 32)
  }

  lemma BootsToIdentityIff(image: nat, stale: seq<word>, bytes: nat)
    requires HeapEndPage(AfterTableZero(image, bytes)) < PAGES && 32 * |stale| < PAGES
    ensures var q := BootPlan(image, stale, bytes);
            && q.Ok()
            && (BootsToIdentity(image, stale, bytes) <==>
                PlanIsIdentity(q, HeapEndPage(AfterTableZero(image, bytes))))
  {
    hide AfterTableZero, OwnWords, BitmapBelowDirectory;
    var p0 := AfterTableZero(image, bytes);
    TablesEndBelowHeap(p0);
    var q := BootPlan(image, stale, bytes);
    PlanIsIdentityIff(q, HeapEndPage(p0));
    BitmapBelowDirectoryIff(image, bytes, |stale|, HeapEndPage(p0));
    if HeapEndPage(p0) <= q.capacity {
      forall n | DirectEnd(p0) <= n < HeapEndPage(p0)
        ensures n in q.stale <==> 8 * bytes <= n && Bit(stale[n / 32], n % 32)
      {
      }
    }
  }

  /** Boot gets frames for all its pages, without leaving the bitmap's own words, exactly when there
      are enough free ones behind the direct pages. Then the pages need not be mapped to
      themselves, unless the whole bitmap was cleared. */
  lemma BootOutcome(image: nat, stale: seq<word>, bytes: nat)
    requires HeapEndPage(AfterTableZero(image, bytes)) < PAGES && 32 * |stale| < PAGES
    ensures var q, he := BootPlan(image, stale, bytes), HeapEndPage(AfterTableZero(image, bytes));
            && q.Ok() && q.direct < he
            && (FrameOf(q, he - 1) != NO_FRAME <==> he - q.direct <= |FreeFrames(q, q.direct)|)
            && (BootsToIdentity(image, stale, bytes) <==> PlanIsIdentity(q, he))
            && (BootsToIdentity(image, stale, bytes) ==> FrameOf(q, he - 1) != NO_FRAME)
            && (bytes == 4 * |stale| ==> (BootsToIdentity(image, stale, bytes) <==> he <= 32 * |stale|)
                                         && (FrameOf(q, he - 1) != NO_FRAME <==> he <= 32 * |stale|))
  {
    hide StaleFrames, IsStale, FreeFrames, AfterTableZero, Own;
    var q, last := BootPlan(image, stale, bytes), HeapEndPage(AfterTableZero(image, bytes)) - 1;
    TablesEndBelowHeap(AfterTableZero(image, bytes));
    BootsToIdentityIff(image, stale, bytes);
    FramesSuffice(q, last);
    PlannedFrame(q, last);
    PlannedAtLeast(q, last);
    if bytes == 4 * |stale| {
      ClearedBoot(image, stale);
    }
  }

  /** With the whole bitmap allocated and cleared all its words are its own, and nothing is stale. */
  lemma ClearedBoot(image: nat, stale: seq<word>)
    ensures Own(image, stale, 4 * |stale|) == stale
    ensures StaleFrames(stale, 4 * |stale|) == {}
    ensures BootsToIdentity(image, stale, 4 * |stale|) <==>
            HeapEndPage(AfterTableZero(image, 4 * |stale|)) <= 32 * |stale|
  {
    hide AfterTableZero;
    var h := HeapEndPage(AfterTableZero(image, 4 * |stale|));
    BitmapBelowDirectoryIff(image, 4 * |stale|, |stale|, h);
  }

  /** One boot with the sizes as written: 640 MiB, an image that ends at 1 MiB, and a bitmap memory
      that held a single one bit, in the first byte behind the cleared ones. It succeeds, and maps
      page 40960 and all later ones to the frame behind their own. No directory word is involved. */
  lemma StaleBitAt640MiB(stale: seq<word>, j: nat)
    requires |stale| == 5120 && forall i :: 0 <= i < 5120 ==> stale[i] == if i == 1280 then 1 else 0
    requires 40960 <= j < 49408
    ensures var p0, q := AfterTableZero(0x10_0000, 5120), BootPlan(0x10_0000, stale, 5120);
            && HeapEndPage(p0) == 49408
            && BitmapBelowDirectory(0x10_0000, 5120, HeapEndPage(p0))
            && !BootsToIdentity(0x10_0000, stale, 5120)
            && HeapEndPage(p0) - DirectEnd(p0) <= |FreeFrames(q, DirectEnd(p0))|
            && FrameOf(q, j) == j + 1
  {
    var p0, q := AfterTableZero(0x10_0000, 5120), BootPlan(0x10_0000, stale, 5120);
    assert p0 == 0x10_6000 && OwnWords(0x10_0000, 5120, 5120) == 2048;
    BitmapBelowDirectoryIff(0x10_0000, 5120, 5120, 49408);
    assert q.direct == 265 && HeapEndPage(p0) == 49408;
    assert !BootsToIdentity(0x10_0000, stale, 5120) by {
      assert Bit(stale[40960 / 32], 40960 % 32);
    }
    var own := stale[..2048];
    forall n: nat | n < 32 * 2048
      ensures IsStale(own, 5120, n) <==> n == 40960
    {
      SmallBits(own[n / 32], n % 32);
      assert n == 40960 <==> n / 32 == 1280 && n % 32 == 0;
    }
    assert q.stale == {40960};
    hide FrameOf, FreeFrames, BootsToIdentity, BitmapBelowDirectory;
    OneStaleBitShifts(q, 40960, 49407);
    FramesSuffice(q, 49407);
    OneStaleBitShifts(q, 40960, j);
  }

  /** Another one: 256 MiB, and not a single bit set. The bitmap is long enough and nothing is stale, but
      its word 1024 lies in the directory. Pages get their own frames up to 32767, and then no frame
      of the bitmap's own words is left. */
  lemma PlanAt256MiB(stale: seq<word>)
    requires |stale| == 2048 && forall i :: 0 <= i < 2048 ==> stale[i] == 0
    ensures HeapEndPage(AfterTableZero(0x10_0000, 2048)) == 49408
    ensures StaleFrames(stale, 2048) == {} && !BootsToIdentity(0x10_0000, stale, 2048)
    ensures var q := BootPlan(0x10_0000, stale, 2048);
            && q.Ok() && q.direct == 264 && q.capacity == 32768
            && PlanIsIdentity(q, 32768) && FrameOf(q, 32768) == NO_FRAME
  {
    var p0, q := AfterTableZero(0x10_0000, 2048), BootPlan(0x10_0000, stale, 2048);
    assert p0 == 0x10_5000 && OwnWords(0x10_0000, 2048, 2048) == 1024;
    BitmapBelowDirectoryIff(0x10_0000, 2048, 2048, 49408);
    forall n: nat | n < 32 * 2048
      ensures !Bit(stale[n / 32], n % 32)
    {
      SmallBits(stale[n / 32], n % 32);
    }
    forall n: nat | n < 32 * 1024
      ensures !Bit(stale[..1024][n / 32], n % 32)
    {
      assert stale[..1024][n / 32] == stale[n / 32];
    }
    assert q.stale == {};
    hide FrameOf, Resume, Bit;
    PlanIsIdentityIff(q, 32768);
    PlannedFrame(q, 32768);
    PlannedAtLeast(q, 32768);
  }

  lemma SmallBits(w: nat, j: nat)
    requires w <= 1
    ensures Bit(w, j) <==> w == 1 && j == 0
  {
    if j > 0 {
      SmallBits(w / 2, j - 1);
    }
  }

  /** While page `k` is below the bound it is below `DirectEnd`, and when it meets the bound it is
      `DirectEnd`. */
  lemma DirectBound(p0: nat, k: nat)
    requires p0 % PAGE == 0 && p0 > 0 && 1 <= k <= DirectEnd(p0)
    ensures k < p0 / PAGE + 3 + (k - 1) / 1024 <==> k < DirectEnd(p0)
    ensures k <= p0 / PAGE + 3 + (k - 1) / 1024
  {
  }

  /** The tables and the heap descriptor end below the heap, in both branches. */
  lemma TablesEndBelowHeap(p0: nat)
    requires p0 % PAGE == 0 && p0 > 0
    ensures p0 + PAGE * ((HeapEndPage(p0) - 1) / 1024) + HEAP_DESCRIPTOR_SIZE <= HeapPage(p0) * PAGE
    ensures DirectEnd(p0) < HeapPage(p0)
  {
  }

  lemma ImageBelowHeap(image: nat, bitmapBytes: nat)
    ensures image + bitmapBytes < HeapPage(AfterTableZero(image, bitmapBytes)) * PAGE
  {
    AfterTableZeroIs(image, bitmapBytes);
    TablesEndBelowHeap(AfterTableZero(image, bitmapBytes));
  }

  /** set_frame has no bound of its own. The frames marked up to the end of the first loop have
      their bits in the first `words` words exactly when these hold all frames or the first loop
      ends inside them. */
  lemma DirectMarksInBoundsIff(p0: nat, nframes: nat, words: nat)
    requires p0 % PAGE == 0 && p0 > 0
    ensures (forall k :: 0 <= k < DirectEnd(p0) && k < nframes ==> k / 32 < words) <==>
            nframes <= 32 * words || DirectEnd(p0) <= 32 * words
  {
    var k := 32 * words;
    assert k / 32 == words;
  }
}
