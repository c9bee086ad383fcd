/** Where a boot with the bitmap sized as written runs into the page directory, and what becomes of the
    identity mapping there. The bitmap's own words end at the directory; the next word is the
    directory word of table 0 at the same time. */
module SharedBitmap {
  import opened FrameBits
  import opened PageTables
  import opened BootMap

  /** `s` is the state without the shared word, which now holds `word`. */
  datatype Shared = Shared(s: State, word: nat)

  /** The memory at the moment when the first shared bit is needed. */
  function Entered(s: State): Shared
    requires WF(s.dir)
  {
    Shared(s, s.dir.physical[0])
  }

  /** The directory as the processor reads it. */
  function Hardware(x: Shared): Directory
    requires |x.s.dir.physical| > 0
  {
    x.s.dir.(physical := x.s.dir.physical[0 := x.word])
  }

  /** The bitmap as first_frame reads it, up to the end of the shared word. */
  ghost function Seen(x: Shared): Frames {
    var c := x.s.frames.capacity;
    var marked := set n: nat | n < c + 32 && (if n < c then n in x.s.frames.marked else Bit(x.word, n - c));
    Frames(marked, c + 32, x.s.frames.nframes)
  }

  /** `t` is the state as seen after frame `n` was given: its mark goes into the shared word when its
      bit lies there, and the other marks stay. */
  function WithMark(x: Shared, t: State, n: nat): Shared {
    var c := x.s.frames.capacity;
    if c <= n < c + 32 then Shared(State(x.s.frames, t.dir), OrBit(x.word, n - c))
    else Shared(State(x.s.frames.(marked := x.s.frames.marked + {n}), t.dir), x.word)
  }

  /** Elsewhere: no frame is free up to the end of the shared word. Whatever the code finds behind it, it
      is not the frame of a page below that end. */
  datatype Step = Given(x: Shared) | Elsewhere

  /** The frame that page `k` gets. */
  ghost function FrameFor(x: Shared, k: nat, q: Plan): nat {
    if k < q.direct then k else LeastFree(Seen(x), 0)
  }

  /** The body of a mapping loop for page `k`. */
  ghost function MapPage(x: Shared, k: nat, q: Plan): (r: Step)
    requires WF(x.s.dir) && 0 < x.s.dir.placement && k < PAGES
    ensures r.Given? ==> WF(r.x.s.dir) && 0 < r.x.s.dir.placement
  {
    GetPageKeeps(x.s.dir, k * PAGE);
    assert k * PAGE / PAGE == k;
    var s := State(Seen(x), GetPage(x.s.dir, k * PAGE));
    EntryKeepsWF(s.dir, k);
    if k < q.direct then Given(WithMark(x, DirectFrame(s, k, true, false, k * PAGE), k))
    else
      match AllocFrame(s, k, k < q.userFrom, false)
      case Panic => Elsewhere
      case Done(t) => Given(WithMark(x, t, FrameFor(x, k, q)))
  }

  lemma EntryKeepsWF(d: Directory, k: nat)
    requires WF(d) && k < PAGES && HasTable(d, k)
    ensures forall e :: WF(SetEntry(d, k, e)) && SetEntry(d, k, e).placement == d.placement
  {
    forall e
      ensures WF(SetEntry(d, k, e)) && SetEntry(d, k, e).placement == d.placement
    {
      SetEntryKeeps(d, k, e);
    }
  }

  /** `n` pages from page `k` on. */
  ghost function MapPages(x: Shared, k: nat, n: nat, q: Plan): (r: Step)
    requires WF(x.s.dir) && 0 < x.s.dir.placement && k + n <= PAGES
    ensures r.Given? ==> WF(r.x.s.dir) && 0 < r.x.s.dir.placement
  {
    if n == 0 then Given(x)
    else
      match MapPages(x, k, n - 1, q)
      case Elsewhere => Elsewhere
      case Given(y) => MapPage(y, k + n - 1, q)
  }

  // ---------------------------------------------------------------- what one page keeps

  /** Table 0 exists, and the shared word is a word of the bitmap. */
  ghost predicate Ready(x: Shared) {
    && WF(x.s.dir) && 0 < x.s.dir.placement && HasTable(x.s.dir, 0)
    && x.s.frames.capacity + 32 <= x.s.frames.nframes < PAGES && x.word < 0x1_0000_0000
  }

  ghost predicate ClearFrom(d: Directory, k: nat)
    requires WF(d)
  {
    forall j :: k <= j < PAGES ==> Entry(d, j) == CLEAR
  }

  /** One page changes only its own entry, takes at most one table, and sets bits of the shared word but
      clears none. A page that gets its own frame finds its bit set afterwards. */
  lemma MapPageKeeps(x: Shared, k: nat, q: Plan)
    requires Ready(x) && q.Ok() && 0 < k < x.s.frames.capacity + 32 && ClearFrom(x.s.dir, k)
    ensures var r := MapPage(x, k, q);
            r.Given? ==>
              && Ready(r.x) && r.x.s.frames.capacity == x.s.frames.capacity && ClearFrom(r.x.s.dir, k + 1)
              && r.x.s.dir.placement < x.s.dir.placement + 2 * PAGE
              && (forall j :: 0 <= j < PAGES && j != k ==> Entry(r.x.s.dir, j) == Entry(x.s.dir, j))
              && (forall j: nat :: Bit(x.word, j) ==> Bit(r.x.word, j))
              && (k >= x.s.frames.capacity && Entry(r.x.s.dir, k).frame == k ==> Bit(r.x.word, k - x.s.frames.capacity))
  {
    hide Bit, LeastFree, MapPage, Seen;
    MapPageIs(x, k, q);
    var d, n := GetPage(x.s.dir, k * PAGE), FrameFor(x, k, q);
    if n != NO_FRAME {
      GetPageKeeps(x.s.dir, k * PAGE);
      assert k * PAGE / PAGE == k;
      SetEntryKeeps(d, k, BootEntry(k, q.userFrom, n));
      WithMarkKeeps(x, State(x.s.frames, SetEntry(d, k, BootEntry(k, q.userFrom, n))), n);
      hide WithMark, SetEntry, GetPage;
    }
  }

  lemma MapPageIs(x: Shared, k: nat, q: Plan)
    requires Ready(x) && q.Ok() && 0 < k < x.s.frames.capacity + 32 && Entry(x.s.dir, k) == CLEAR
    ensures WF(GetPage(x.s.dir, k * PAGE)) && HasTable(GetPage(x.s.dir, k * PAGE), k)
    ensures var r, n := MapPage(x, k, q), FrameFor(x, k, q);
            && (r.Given? <==> n != NO_FRAME)
            && (n != NO_FRAME ==>
                  && n < x.s.frames.capacity + 32
                  && r.x == WithMark(x, State(x.s.frames, SetEntry(GetPage(x.s.dir, k * PAGE), k, BootEntry(k, q.userFrom, n))), n))
  {
    hide Bit, LeastFree, SetEntry, WF;
    GetPageKeeps(x.s.dir, k * PAGE);
    assert k * PAGE / PAGE == k;
    LeastFreeIsLeast(Seen(x), 0);
  }

  lemma WithMarkKeeps(x: Shared, t: State, n: nat)
    requires x.word < 0x1_0000_0000
    ensures var y := WithMark(x, t, n);
            && y.s.dir == t.dir && y.word < 0x1_0000_0000
            && y.s.frames.capacity == x.s.frames.capacity && y.s.frames.nframes == x.s.frames.nframes
            && (forall j: nat :: Bit(x.word, j) ==> Bit(y.word, j))
            && (x.s.frames.capacity <= n < x.s.frames.capacity + 32 ==> Bit(y.word, n - x.s.frames.capacity))
  {
    var c := x.s.frames.capacity;
    if c <= n < c + 32 {
      Width();
      OrBitBounded(x.word, n - c, 32);
      forall j: nat
        ensures Bit(OrBit(x.word, n - c), j) <==> n - c == j || Bit(x.word, j)
      {
        OrSetsOneBit(x.word, n - c, j);
      }
      OrSetsOneBit(x.word, n - c, n - c);
    }
  }

  // ---------------------------------------------------------------- the pages that need the shared word

  lemma {:induction false} MapPagesKeep(x: Shared, k: nat, n: nat, q: Plan)
    requires Ready(x) && q.Ok() && 0 < k && k + n <= x.s.frames.capacity + 32 && ClearFrom(x.s.dir, k)
    ensures var r := MapPages(x, k, n, q);
            r.Given? ==>
              && Ready(r.x) && r.x.s.frames.capacity == x.s.frames.capacity && ClearFrom(r.x.s.dir, k + n)
              && r.x.s.dir.placement <= x.s.dir.placement + 2 * PAGE * n
  {
    hide MapPage, WF, Entry;
    if n > 0 {
      MapPagesKeep(x, k, n - 1, q);
      var r := MapPages(x, k, n - 1, q);
      if r.Given? {
        MapPageKeeps(r.x, k + n - 1, q);
      }
    }
  }

  /** One of the pages below `end` has another frame than its own, or could not find its own. */
  ghost predicate Foreign(r: Step, end: nat) {
    r.Given? ==> WF(r.x.s.dir) && exists j :: 0 < j < end && j < PAGES && Entry(r.x.s.dir, j).frame != j
  }

  /** map_to_physical or the processor no longer takes every mapped address to itself. */
  ghost predicate IdentityLost(r: Step, end: nat) {
    Foreign(r, end) || (|r.x.s.dir.physical| == 1024 && Sized(Hardware(r.x)) && Translate(Hardware(r.x), PAGE) == Fault)
  }

  /** As long as every page gets its own frame, the pages fill the shared word bit by bit. */
  lemma {:induction false} WordFills(x: Shared, n: nat, q: Plan)
    requires Ready(x) && q.Ok() && 0 < x.s.frames.capacity && n <= 32 && ClearFrom(x.s.dir, x.s.frames.capacity)
    ensures var r := MapPages(x, x.s.frames.capacity, n, q);
            Foreign(r, x.s.frames.capacity + n) || AllBits(r.x.word, n)
  {
    hide MapPage, Bit;
    if n > 0 {
      WordFills(x, n - 1, q);
      MapPagesKeep(x, x.s.frames.capacity, n - 1, q);
      var c := x.s.frames.capacity;
      var before := MapPages(x, c, n - 1, q);
      if before.Given? {
        StepFills(before.x, n - 1, q);
      }
    }
  }

  lemma StepFills(y: Shared, i: nat, q: Plan)
    requires Ready(y) && q.Ok() && 0 < y.s.frames.capacity && i < 32 && ClearFrom(y.s.dir, y.s.frames.capacity + i)
    requires Foreign(Given(y), y.s.frames.capacity + i) || AllBits(y.word, i)
    ensures var r := MapPage(y, y.s.frames.capacity + i, q);
            Foreign(r, y.s.frames.capacity + i + 1) || AllBits(r.x.word, i + 1)
  {
    hide MapPage, Bit;
    var k := y.s.frames.capacity + i;
    MapPageKeeps(y, k, q);
    var r := MapPage(y, k, q);
    if r.Given? {
      if Entry(r.x.s.dir, k).frame != k {
        assert Foreign(r, k + 1);
      } else if Foreign(Given(y), k) {
        var j :| 0 < j < k && j < PAGES && Entry(y.s.dir, j).frame != j;
        assert Entry(r.x.s.dir, j).frame != j;
      }
    }
  }

  /** With all its bits set, the directory word points behind every table: the processor faults on the
      first 4 MiB, although map_to_physical goes on. */
  lemma FullWordFaults(x: Shared)
    requires Ready(x) && AllBits(x.word, 32) && x.s.dir.placement < SPACE
    ensures Sized(Hardware(x)) && Translate(Hardware(x), PAGE) == Fault
  {
    FullWord(x.word);
    assert x.word == FULL;
  }

  /** When the direct pages reach the shared word, the identity is lost within the 32 pages whose bits it
      holds. */
  lemma DirectPagesLoseIdentity(s: State, top: nat, p0: nat, q: Plan)
    requires 0 < q.capacity < q.direct && q.capacity + 32 <= s.frames.nframes
    requires Mapped(s, q.capacity, top, p0, q) && s.dir.placement + 64 * PAGE < SPACE
    ensures Ready(Entered(s)) && ClearFrom(s.dir, q.capacity)
    ensures IdentityLost(MapPages(Entered(s), q.capacity, 32, q), q.capacity + 32)
  {
    hide FrameOf, Resume, MapPages;
    EnteredReady(s, q.capacity, top, p0, q);
    WordFills(Entered(s), 32, q);
    var r := MapPages(Entered(s), q.capacity, 32, q);
    MapPagesKeep(Entered(s), q.capacity, 32, q);
    if r.Given? && AllBits(r.x.word, 32) {
      FullWordFaults(r.x);
    }
  }

  lemma EnteredReady(s: State, k: nat, top: nat, p0: nat, q: Plan)
    requires Mapped(s, k, top, p0, q) && q.capacity + 32 <= s.frames.nframes && s.dir.placement < SPACE
    ensures Ready(Entered(s)) && ClearFrom(s.dir, k)
    ensures Entered(s).word == s.dir.tables[0] + 7 && s.dir.tables[0] % PAGE == 0
  {
    hide FrameOf, Resume;
    assert TableOk(s.dir, 0);
  }

  /** When a page needs the shared word behind the direct ones, it gets the frame of bit 3 of the directory
      word, for the flags below are set and the address of a table begins at bit 12. That frame is not
      its own; and marking it changes the directory word. */
  lemma FirstSharedFrame(s: State, k: nat, top: nat, p0: nat, q: Plan)
    requires Mapped(s, k, top, p0, q) && q.direct <= k < PAGES && q.direct <= q.capacity
    requires FrameOf(q, k) == NO_FRAME && q.capacity + 32 <= s.frames.nframes && s.dir.placement < SPACE
    ensures k <= q.capacity
    ensures var r := MapPage(Entered(s), k, q);
            && r.Given? && WF(r.x.s.dir)
            && Entry(r.x.s.dir, k) == BootEntry(k, q.userFrom, q.capacity + 3)
            && MapToPhysical(r.x.s.dir, k * PAGE) == (q.capacity + 3) * PAGE
            && r.x.word == Entered(s).word + 8
            && IdentityLost(r, k + 1)
  {
    var x := Entered(s);
    AllOwnMarked(s, k, top, p0, q);
    EnteredReady(s, k, top, p0, q);
    FlagBits(x.word);
    hide FrameOf, Resume, Mapped, MapPage;
    LeastFreeFound(Seen(x), 0, q.capacity + 3);
    MapPageIs(x, k, q);
    var d, e := GetPage(s.dir, k * PAGE), BootEntry(k, q.userFrom, q.capacity + 3);
    SetEntryKeeps(d, k, e);
    assert Entry(SetEntry(d, k, e), k).frame != k;
  }

  /** From the page on whose frame has no bit in front of the directory, no identity comes about: at once
      behind the direct pages, and within the shared word on them. */
  ghost predicate LosesIdentity(s: State, page: nat, q: Plan) {
    var n := if page < q.direct then 32 else 1;
    && WF(s.dir) && 0 < s.dir.placement && page + n <= PAGES
    && IdentityLost(MapPages(Entered(s), page, n, q), page + n)
  }

  lemma LeavingLosesIdentity(s: State, page: nat, top: nat, p0: nat, q: Plan)
    requires Mapped(s, page, top, p0, q) && page < PAGES && s.dir.placement + 64 * PAGE < SPACE
    requires 0 < q.capacity && q.capacity + 32 <= s.frames.nframes
    requires if page < q.direct then page == q.capacity else q.direct <= q.capacity && FrameOf(q, page) == NO_FRAME
    ensures LosesIdentity(s, page, q)
  {
    hide FrameOf, Resume, MapPage, Foreign;
    EnteredReady(s, page, top, p0, q);
    if page < q.direct {
      DirectPagesLoseIdentity(s, top, p0, q);
    } else {
      FirstSharedFrame(s, page, top, p0, q);
      assert MapPages(Entered(s), page, 0, q) == Given(Entered(s));
      assert MapPages(Entered(s), page, 1, q) == MapPage(Entered(s), page, q);
    }
  }

  /** One boot with the sizes as written: 256 MiB, an image that ends at 1 MiB, and bitmap memory without
      a single bit. The bitmap is long enough and nothing is stale, but word 1024 is the directory's:
      page 32768 gets frame 32771, and the mark goes into the directory word of table 0. */
  lemma SharedWordAt256MiB(stale: seq<word>, s: State, top: nat)
    requires |stale| == 2048 && forall i :: 0 <= i < 2048 ==> stale[i] == 0
    requires s.frames.nframes == 65536 && s.dir.placement < SPACE
    requires Mapped(s, 32768, top, AfterTableZero(0x10_0000, 2048), BootPlan(0x10_0000, stale, 2048))
    ensures HeapEndPage(AfterTableZero(0x10_0000, 2048)) == 49408 <= 32 * |stale|
    ensures StaleFrames(stale, 2048) == {} && !BootsToIdentity(0x10_0000, stale, 2048)
    ensures var r := MapPage(Entered(s), 32768, BootPlan(0x10_0000, stale, 2048));
            && r.Given? && WF(r.x.s.dir)
            && Entry(r.x.s.dir, 32768).frame == 32771 && r.x.word == Entered(s).word + 8
  {
    hide FrameOf, Mapped, MapPage, AfterTableZero, Own, StaleFrames, BitmapBelowDirectory, WF;
    var q := BootPlan(0x10_0000, stale, 2048);
    PlanAt256MiB(stale);
    FirstSharedFrame(s, 32768, top, AfterTableZero(0x10_0000, 2048), q);
  }

  lemma AllOwnMarked(s: State, k: nat, top: nat, p0: nat, q: Plan)
    requires Mapped(s, k, top, p0, q) && q.direct <= k && q.direct <= q.capacity && FrameOf(q, k) == NO_FRAME
    ensures k <= q.capacity && q.capacity == s.frames.capacity
    ensures forall n :: 0 <= n < q.capacity ==> n in s.frames.marked
  {
    PlannedFrame(q, k);
    if k > q.direct {
      PlannedFrame(q, k - 1);
      PlannedAtLeast(q, k - 1);
    }
  }

  lemma FlagBits(w: nat)
    requires w % PAGE == 7
    ensures Bit(w, 0) && Bit(w, 1) && Bit(w, 2) && !Bit(w, 3) && OrBit(w, 3) == w + 8
  {
    var m := w / PAGE * 0x200;
    assert w == 2 * (2 * (2 * m + 1) + 1) + 1 && m % 2 == 0;
    hide Bit, OrBit;
    OrBitValue(w, 3);
    ShiftedBit(2 * (2 * m + 1) + 1);
    ShiftedBit(2 * m + 1);
    ShiftedBit(m);
    LowestBit(m);
    assert Power2(3) == 8;
  }

  lemma ShiftedBit(w: nat)
    ensures Bit(2 * w + 1, 0) && forall j: nat :: Bit(2 * w + 1, j + 1) == Bit(w, j)
  {
  }

  lemma LowestBit(w: nat)
    ensures Bit(w, 0) <==> w % 2 == 1
  {
  }
}
