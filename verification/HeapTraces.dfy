/** Runs of the heap with their memory: what happens to the bytes a caller has stored. */
module HeapTraces {
  import opened LittleEndian
  import opened HeapBlocks
  import opened Heap
  import opened HeapRuns

  datatype Moment = Moment(mem: seq<byte>, blocks: Blocks)

  /** One call, as the contracts of khalloc and khfree describe it. Between calls, callers may store
      into their own payloads: that is the other kind of event. */
  datatype Event = Call(call: HeapRuns.Call) | Store(owner: Block)

  ghost predicate Happens(w: nat, r: Region, s: Moment, e: Event, t: Moment) {
    && Good(s.mem, w, r, s.blocks)
    && match e
       case Call(c) =>
         && Legal(r, s.blocks, c)
         && t.blocks == Step(r, s.blocks, c)
         && Good(t.mem, w, r, t.blocks)
         && Framed(s.mem, t.mem, r, Live(s.blocks) * Live(t.blocks))
       case Store(b) =>
         && b in Live(s.blocks) && t.blocks == s.blocks && |t.mem| == |s.mem|
         && forall a :: 0 <= a < |s.mem| && !InPayload(w, b, a) ==> t.mem[a] == s.mem[a]
  }

  /** A caller that stays inside its payload does not harm the heap. */
  lemma StoreKeepsGood(w: nat, r: Region, s: Moment, b: Block, t: Moment)
    requires Happens(w, r, s, Store(b), t)
    ensures Good(t.mem, w, r, t.blocks)
  {
    PayloadIsFree(s.mem, t.mem, w, r, s.blocks, IndexOf(s.blocks, b));
  }

  ghost predicate Trace(w: nat, r: Region, moments: seq<Moment>, events: seq<Event>) {
    && |moments| == |events| + 1
    && forall i :: 0 <= i < |events| ==> Happens(w, r, moments[i], events[i], moments[i + 1])
  }

  /** Safety of whole runs: whatever is allocated, freed or stored elsewhere in the meantime, the
      bytes of a block stay as they are until its owner stores into it or frees it. */
  lemma {:induction false} PayloadSurvives(w: nat, r: Region, moments: seq<Moment>, events: seq<Event>, b: Block)
    requires Trace(w, r, moments, events) && b in Live(moments[0].blocks)
    requires Store(b) !in events && Call(Khfree(b.addr + r.header)) !in events
    ensures b in Live(moments[|events|].blocks)
    ensures Untouched(moments[0].mem, moments[|events|].mem, {b})
    decreases |events|
  {
    if events != [] {
      var n := |events| - 1;
      var before, last := events[..n], events[n];
      assert Trace(w, r, moments[..n + 1], before);
      PayloadSurvives(w, r, moments[..n + 1], before, b);
      assert Happens(w, r, moments[n], last, moments[n + 1]);
      SurvivesOne(w, r, moments[n], last, moments[n + 1], b);
    }
  }

  lemma SurvivesOne(w: nat, r: Region, s: Moment, e: Event, t: Moment, b: Block)
    requires Happens(w, r, s, e, t) && b in Live(s.blocks)
    requires e != Store(b) && e != Call(Khfree(b.addr + r.header))
    ensures b in Live(t.blocks) && Untouched(s.mem, t.mem, {b})
  {
    hide Good, Inv, Step, Tiles, InPayload;
    GoodHasInv(s.mem, w, r, s.blocks);
    match e
    case Call(c) => CallKeeps(r, s.blocks, c, b);
    case Store(o) => OtherPayload(w, r, s.blocks, b, o);
  }

  /** What the contract of khfree says, as an event. */
  lemma KhfreeHappens(w: nat, r: Region, s: Moment, i: nat, t: Moment)
    requires Good(s.mem, w, r, s.blocks) && Good(t.mem, w, r, t.blocks)
    requires i < |s.blocks| && t.blocks == Release(s.blocks, i)
    requires Framed(s.mem, t.mem, r, Live(t.blocks))
    ensures Happens(w, r, s, Call(Khfree(s.blocks[i].addr + r.header)), t)
  {
    hide Good, Release;
    GoodHasInv(s.mem, w, r, s.blocks);
    StepReleases(r, s.blocks, i);
  }

  lemma KhallocHappens(w: nat, r: Region, s: Moment, size: nat, t: Moment)
    requires Good(s.mem, w, r, s.blocks) && Good(t.mem, w, r, t.blocks)
    requires t.blocks == Allocate(r, s.blocks, size) && Framed(s.mem, t.mem, r, Live(s.blocks))
    ensures Happens(w, r, s, Call(Khalloc(size)), t)
  {
    hide Good;
    GoodHasInv(s.mem, w, r, s.blocks);
  }

  lemma OtherPayload(w: nat, r: Region, bs: Blocks, b: Block, o: Block)
    requires Tiles(r, bs) && b in Live(bs) && o in Live(bs) && b != o
    ensures forall a :: b.addr <= a < b.End() ==> !InPayload(w, o, a)
  {
    PayloadsDisjoint(r, bs, IndexOf(bs, b), IndexOf(bs, o));
  }

  lemma GoodHasInv(m: seq<byte>, w: nat, r: Region, bs: Blocks)
    requires Good(m, w, r, bs)
    ensures Inv(r, bs) && Tiles(r, bs)
  {
  }
}
