/** Who owns which frame, over every run of alloc_frame, free_frame and get_page. */
module FrameOwnership {
  import opened PageTables

  ghost predicate Owner(d: Directory, n: nat)
    requires WF(d)
  {
    exists j :: 0 <= j < PAGES && Entry(d, j).frame == n
  }

  /** Distinct pages own distinct frames, and the marked frames are exactly the reserved ones,
      frame 0 among them, plus the owned ones. */
  ghost predicate Exclusive(s: State, reserved: set<nat>) {
    && WF(s.dir)
    && s.frames.capacity <= s.frames.nframes < PAGES
    && 0 in reserved
    && (forall n :: n in s.frames.marked ==> n < s.frames.capacity)
    && (forall j, k :: 0 <= j < k < PAGES && Entry(s.dir, j).frame != 0 ==>
                         Entry(s.dir, j).frame != Entry(s.dir, k).frame)
    && (forall j :: 0 <= j < PAGES ==> Entry(s.dir, j).frame == 0 || Entry(s.dir, j).frame !in reserved)
    && (forall n :: n in s.frames.marked <==> n in reserved || Owner(s.dir, n))
  }

  /** alloc_frame, free_frame, and get_page with `make` set. */
  datatype Call = Alloc(page: nat, isKernel: bool, isWriteable: bool) | Free(page: nat) | MakeTable(page: nat)

  /** The first two take a pointer to an entry, so its table exists. The last one makes the table
      when it is missing, which the boot allocator can do once it has a place to start from. */
  ghost predicate Legal(s: State, call: Call) {
    WF(s.dir) && call.page < PAGES && (if call.MakeTable? then s.dir.placement > 0 else HasTable(s.dir, call.page))
  }

  ghost function Step(s: State, call: Call): Outcome
    requires Legal(s, call)
  {
    match call
    case Alloc(j, k, w) => AllocFrame(s, j, k, w)
    case Free(j) => Done(FreeFrame(s, j))
    case MakeTable(j) => Done(s.(dir := GetPage(s.dir, j * PAGE)))
  }

  lemma AllocKeeps(s: State, reserved: set<nat>, j: nat, isKernel: bool, isWriteable: bool)
    requires Exclusive(s, reserved) && j < PAGES && HasTable(s.dir, j)
    requires AllocFrame(s, j, isKernel, isWriteable).Done?
    ensures Exclusive(AllocFrame(s, j, isKernel, isWriteable).state, reserved)
  {
    var s' := AllocFrame(s, j, isKernel, isWriteable).state;
    var e := Permit(Entry(s.dir, j), isKernel, isWriteable);
    if e.frame != 0 {
      SetEntryKeeps(s.dir, j, e);
      SameOwners(s.dir, s'.dir);
    } else {
      var n := LeastFree(s.frames, 0);
      LeastFreeIsLeast(s.frames, 0);
      FoundFrameIsMarked(s.frames);
      SetEntryKeeps(s.dir, j, e.(frame := n));
      NewOwner(s.dir, s'.dir, j, n);
    }
  }

  lemma SameOwners(d: Directory, d': Directory)
    requires WF(d) && WF(d')
    requires forall k :: 0 <= k < PAGES ==> Entry(d', k).frame == Entry(d, k).frame
    ensures forall n :: Owner(d', n) <==> Owner(d, n)
  {
    forall n
      ensures Owner(d', n) <==> Owner(d, n)
    {
      if Owner(d, n) {
        var k :| 0 <= k < PAGES && Entry(d, k).frame == n;
        assert Entry(d', k).frame == n;
      }
      if Owner(d', n) {
        var k :| 0 <= k < PAGES && Entry(d', k).frame == n;
        assert Entry(d, k).frame == n;
      }
    }
  }

  /** Page `j`, which owned nothing, now owns frame `n`. */
  lemma NewOwner(d: Directory, d': Directory, j: nat, n: nat)
    requires WF(d) && WF(d') && j < PAGES && Entry(d, j).frame == 0
    requires forall k :: 0 <= k < PAGES ==> Entry(d', k).frame == if k == j then n else Entry(d, k).frame
    ensures forall m :: m != 0 ==> (Owner(d', m) <==> m == n || Owner(d, m))
  {
    forall m | m != 0
      ensures Owner(d', m) <==> m == n || Owner(d, m)
    {
      if Owner(d, m) {
        var k :| 0 <= k < PAGES && Entry(d, k).frame == m;
        assert Entry(d', k).frame == m;
      }
      assert Entry(d', j).frame == n;
      if Owner(d', m) {
        var k :| 0 <= k < PAGES && Entry(d', k).frame == m;
        assert k == j || Entry(d, k).frame == m;
      }
    }
  }

  lemma FreeKeeps(s: State, reserved: set<nat>, j: nat)
    requires Exclusive(s, reserved) && j < PAGES && HasTable(s.dir, j)
    ensures Exclusive(FreeFrame(s, j), reserved)
  {
    var e := Entry(s.dir, j);
    if e.frame != 0 {
      var s' := FreeFrame(s, j);
      SetEntryKeeps(s.dir, j, e.(frame := 0));
      NewOwner(s'.dir, s.dir, j, e.frame);
      assert !Owner(s'.dir, e.frame);
    }
  }

  lemma MakeTableKeeps(s: State, reserved: set<nat>, j: nat)
    requires Exclusive(s, reserved) && j < PAGES && s.dir.placement > 0
    ensures Exclusive(s.(dir := GetPage(s.dir, j * PAGE)), reserved)
  {
    GetPageKeeps(s.dir, j * PAGE);
    SameOwners(s.dir, GetPage(s.dir, j * PAGE));
  }

  /** Over every run: a run that panics stops there. */
  ghost predicate LegalRun(s: State, calls: seq<Call>)
    decreases |calls|
  {
    calls != [] ==>
      && Legal(s, calls[0])
      && (Step(s, calls[0]).Done? ==> LegalRun(Step(s, calls[0]).state, calls[1..]))
  }

  ghost function Run(s: State, calls: seq<Call>): Outcome
    requires LegalRun(s, calls)
    decreases |calls|
  {
    if calls == [] then Done(s)
    else if Step(s, calls[0]).Panic? then Panic
    else Run(Step(s, calls[0]).state, calls[1..])
  }

  lemma {:induction false} RunKeepsExclusive(s: State, reserved: set<nat>, calls: seq<Call>)
    requires Exclusive(s, reserved) && LegalRun(s, calls) && Run(s, calls).Done?
    ensures Exclusive(Run(s, calls).state, reserved)
    decreases |calls|
  {
    if calls != [] {
      match calls[0] {
        case Alloc(j, k, w) => AllocKeeps(s, reserved, j, k, w);
        case Free(j) => FreeKeeps(s, reserved, j);
        case MakeTable(j) => MakeTableKeeps(s, reserved, j);
      }
      RunKeepsExclusive(Step(s, calls[0]).state, reserved, calls[1..]);
    }
  }

  /** Releasing a frame that was just allocated restores the bitmap. */
  lemma FreeUndoesAlloc(s: State, reserved: set<nat>, j: nat, isKernel: bool, isWriteable: bool)
    requires Exclusive(s, reserved) && j < PAGES && HasTable(s.dir, j) && Entry(s.dir, j).frame == 0
    requires AllocFrame(s, j, isKernel, isWriteable).Done?
    ensures var s' := AllocFrame(s, j, isKernel, isWriteable).state;
            && WF(s'.dir) && HasTable(s'.dir, j)
            && FreeFrame(s', j).frames == s.frames
  {
    var e := Permit(Entry(s.dir, j), isKernel, isWriteable);
    var n := LeastFree(s.frames, 0);
    LeastFreeIsLeast(s.frames, 0);
    FoundFrameIsMarked(s.frames);
    SetEntryKeeps(s.dir, j, e.(frame := n));
    assert n != 0;
  }

  /** free_frame as written keeps the ownership invariant exactly when there is nothing to free:
      otherwise the frame stays marked without an owner. */
  lemma FreeAsWrittenIff(s: State, reserved: set<nat>, j: nat)
    requires Exclusive(s, reserved) && j < PAGES && HasTable(s.dir, j)
    ensures Exclusive(FreeFrameAsWritten(s, j), reserved) <==> Entry(s.dir, j).frame == 0
  {
    var e := Entry(s.dir, j);
    if e.frame != 0 {
      var s' := FreeFrameAsWritten(s, j);
      SetEntryKeeps(s.dir, j, e.(frame := 0));
      assert Owner(s.dir, e.frame);
      NewOwner(s'.dir, s.dir, j, e.frame);
      assert !Owner(s'.dir, e.frame);
      assert e.frame / PAGE != e.frame;
    }
  }

  /** What is released instead is frame 0, for every frame below 16 MiB, and the next scan finds it. */
  lemma FreeAsWrittenReleasesFrameZero(s: State, reserved: set<nat>, j: nat)
    requires Exclusive(s, reserved) && j < PAGES && HasTable(s.dir, j)
    requires 0 < Entry(s.dir, j).frame < PAGE
    ensures 0 in s.frames.marked && LeastFree(FreeFrameAsWritten(s, j).frames, 0) == 0
  {
    assert Owner(s.dir, Entry(s.dir, j).frame);
    LeastFreeFound(FreeFrameAsWritten(s, j).frames, 0, 0);
  }
}
