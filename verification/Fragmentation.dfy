/** States in which allocate releases a frame that is in use: the lowest free frame and the next one are mapped at their
    higher-half addresses, and the next one is in use.  It takes little to come to such a state once the lower 4 GiB are
    mapped: two frames are handed out, and the first of them is given back. */
module Fragmentation {
  import opened Units
  import opened Words
  import opened PageEntry
  import opened PageTree
  import opened FreeFrames
  import opened SpaceChanges
  import opened FrameRuns
  import FrameAllocator
  import opened PageRuns
  import opened PageAllocation
  import opened AddressSpaces
  import opened KernelStart

  // ---------- a frame in use is lost ----------

  /** Two pages that map the lowest free frame and the one behind it, which is in use and is at `held`. */
  ghost predicate HoldsBehind(frames: seq<bool>, first: nat, second: nat, held: nat) {
    && 0 <= Lowest(frames) && held == (Lowest(frames) + 1) * PAGE && FreeCount(frames) >= 2
    && IsPresent(first) && FrameOf(first) == Lowest(frames) * PAGE
    && IsPresent(second) && FrameOf(second) == held && InUse(frames, held)
  }

  /** The pages at v are such, and the frame that is in use holds no table. */
  ghost predicate NextHeld(s: Space, v: nat, held: nat) {
    && s.tables.Keys == s.places.Keys && HoldsBehind(s.frames, Entry(s, v, 0), Entry(s, v, 1), held)
    && held !in s.tables
  }

  /** Their turns: the first gets the frame that it maps; the second gets another one, and the frame that it maps is
      released. */
  lemma TwoTurns(frames: seq<bool>, first: Page, second: Page, held: nat)
    requires HoldsBehind(frames, first.entry, second.entry, held) && first.need == 0 && second.need == 0
    ensures Fits(frames, first) && PageTaken(frames, first) == Take(frames, 1) && Fits(Take(frames, 1), second)
    ensures !Displaces(first.entry, LowestAddress(frames)) && Displaces(second.entry, FrameAt(frames, 1))
    ensures !InUse(PageTaken(Take(frames, 1), second), held)
  {
    var taken, m: nat := Take(frames, 1), Lowest(frames) + 1;
    assert Take(frames, 0) == frames;
    TakeCount(frames, 1);
    CountZero(taken);
    assert taken[m];
    TakeBit(taken, 1, m);
  }

  lemma PlanOfTwo(p: Plan, held: nat)
    requires |p.pages| == 2 && HoldsBehind(p.frames, p.pages[0].entry, p.pages[1].entry, held)
    requires p.pages[0].need == 0 && p.pages[1].need == 0
    ensures Enough(p) && Smooth(p, 2) && !Clean(p, 2) && !InUse(RunFrames(p, 2), held)
    ensures RunFrames(p, 0) == p.frames && !Displaces(p.pages[0].entry, LowestAddress(p.frames))
  {
    NeedsNothing(p.pages, 2);
    TwoTurns(p.frames, p.pages[0], p.pages[1], held);
    PositionIsCount(p.pages, 2, 1);
    assert RunFrames(p, 1) == Take(p.frames, 1);
    assert PageFits(p, 0) && PageFits(p, 1) && !Suits(p, 1);
  }

  lemma NoNewTables(tables: Tables, p: Plan, held: nat)
    requires |p.pages| == 2 && p.pages[0].need == 0 && p.pages[1].need == 0 && RunFrames(p, 0) == p.frames
    requires !Displaces(p.pages[0].entry, LowestAddress(p.frames)) && FrameOf(p.pages[1].entry) !in tables
    ensures SparesRun(tables, p)
  {
    LeafTablesKept(p);
    forall k: nat | k < 2 ensures SparesPage(tables, p, k) {}
  }

  /** The pages have their tables. */
  lemma HeldPlan(s: Space, root: nat, v: nat, p: Plan, held: nat)
    requires Good(s, root) && NextHeld(s, v, held) && p == PlanOf(s, v, 2)
    ensures p.pages[0] == Page(0, Entry(s, v, 0)) && p.pages[1] == Page(0, Entry(s, v, 1))
  {
    NeedsNone(s, root, v, 0);
    NeedsNone(s, root, v, 1);
  }

  lemma NextPrepared(s: Space, root: nat, hhdm: nat, v: nat, held: nat)
    requires Good(s, root) && v == Base(s.frames, hhdm) && HigherHalfFits(s.frames, hhdm) && NextHeld(s, v, held)
    ensures Prepared(s, hhdm, 2)
  {
    var p := PlanOf(s, v, 2);
    HeldPlan(s, root, v, p, held);
    PlanOfTwo(p, held);
    NoNewTables(s.tables, p, held);
  }

  /** In every such state allocating two pages returns a run, and the frame that was in use is free. */
  lemma NextIsLost(s: Space, s': Space, root: nat, hhdm: nat, v: nat, p: Plan, flags: nat, run: Allocation, held: nat)
    requires Good(s, root) && v == Base(s.frames, hhdm) && NextHeld(s, v, held) && p == PlanOf(s, v, 2)
    requires AllocatedRun(s, s', hhdm, 2, flags, run)
    ensures run == Run(v) && !InUse(s'.frames, held) && !AsItShould(s, s', v, p, flags, run) && Reaches(s, s')
  {
    HeldPlan(s, root, v, p, held);
    PlanOfTwo(p, held);
    SmoothReturns(s, s', v, p, flags, run);
    AllocateWorks(s, s', hhdm, 2, flags, run, v, p);
  }

  /** The same for the call. */
  method LoseNext(space: AddressSpace, ghost v: nat, flags: nat, ghost held: nat) returns (run: Allocation)
    requires space.Valid() && flags < Pow2(WORD) && HigherHalfFits(space.State().frames, space.hhdm)
    requires v == Base(space.State().frames, space.hhdm) && NextHeld(space.State(), v, held)
    modifies space, space.pmm.bitmap, space.pmm.bitmap.words
    ensures space.Valid() && run == Run(v) && !InUse(space.State().frames, held)
  {
    ghost var s := space.State();
    NextPrepared(s, space.pml4, space.hhdm, v, held);
    run := space.Allocate(2, flags);
    NextIsLost(s, space.State(), space.pml4, space.hhdm, v, PlanOf(s, v, 2), flags, run, held);
  }

  // ---------- such a state ----------

  /** The two lowest free frames are neighbours, there is a third one, and the lower 4 GiB have them. */
  ghost predicate Neighbours(frames: seq<bool>) {
    && 0 <= Lowest(frames) < LOW_PAGES - 1 && Lowest(Take(frames, 1)) == Lowest(frames) + 1 && FreeCount(frames) >= 3
  }

  /** The frames once both are handed out and the first one is given back. */
  lemma SecondHeld(frames: seq<bool>, given: nat, held: nat)
    requires Neighbours(frames) && given == Lowest(frames) * PAGE && held == given + PAGE
    ensures given % PAGE == 0 && InUse(Take(Take(frames, 1), 1), given) && !InUse(frames, given) && !InUse(frames, held)
    ensures var after := AfterRelease(Take(Take(frames, 1), 1), given);
            && Lowest(after) == Lowest(frames) && FreeCount(after) >= 2
            && held == (Lowest(after) + 1) * PAGE && InUse(after, held)
  {
    var m: nat := Lowest(frames);
    var one := Take(frames, 1);
    var two := Take(one, 1);
    FrameStart(m, given);
    FrameStart(m + 1, held);
    assert Take(frames, 0) == frames && Take(one, 0) == one;
    assert one == frames[m := true] && two == one[m + 1 := true];
    LowestIs(two[m := false], m);
    TakeCount(frames, 1);
    TakeCount(one, 1);
    CountUpdate(two, m, false);
  }

  /** A frame that is free holds no table. */
  lemma FreeNoTable(tables: Tables, frames: seq<bool>, address: nat)
    requires TablesUsed(tables, frames) && !InUse(frames, address)
    ensures address !in tables
  {}

  /** Two frames are handed out, and the first of them is given back. */
  method HoldSecond(space: AddressSpace, ghost v: nat) returns (held: nat)
    requires space.Valid() && LowMapped(space.State(), space.hhdm) && Neighbours(space.State().frames)
    requires v == Base(space.State().frames, space.hhdm)
    modifies space.pmm.bitmap, space.pmm.bitmap.words
    ensures space.Valid() && |space.State().frames| == old(|space.State().frames|)
    ensures LowMapped(space.State(), space.hhdm) && v == Base(space.State().frames, space.hhdm)
    ensures NextHeld(space.State(), v, held)
  {
    ghost var s := space.State();
    var given := space.TakeFrame();
    held := space.TakeFrame();
    SecondHeld(s.frames, given, held);
    FreeNoTable(s.tables, s.frames, given);
    ghost var s1 := space.State();
    var ok := space.ReleaseFrame(given);
    ReachesGood(s1, space.State(), space.pml4);
    NextIsHeld(s, space.State(), space.hhdm, v, held);
  }

  lemma NextIsHeld(s: Space, s': Space, hhdm: nat, v: nat, held: nat)
    requires TablesUsed(s.tables, s.frames) && LowMapped(s, hhdm) && s' == s.(frames := s'.frames)
    requires 0 <= Lowest(s.frames) == Lowest(s'.frames) < LOW_PAGES - 1 && v == hhdm + Lowest(s.frames) * PAGE
    requires held == (Lowest(s.frames) + 1) * PAGE && !InUse(s.frames, held)
    requires FreeCount(s'.frames) >= 2 && InUse(s'.frames, held)
    ensures LowMapped(s', hhdm) && NextHeld(s', v, held)
  {
    forall k: nat | k < LOW_PAGES ensures IsPresent(Entry(s', hhdm, k)) && FrameOf(Entry(s', hhdm, k)) == k * PAGE {
      assert Entry(s', hhdm, k) == Entry(s, hhdm, k);
    }
    LowEntry(s', hhdm, v, Lowest(s.frames), 0);
    LowEntry(s', hhdm, v, Lowest(s.frames), 1);
    FreeNoTable(s.tables, s.frames, held);
  }

  // ---------- from start-up ----------

  const FRAMES: nat := 4096

  /** The memory map of a machine with 16 MiB of usable memory. */
  function MemMap(): seq<FrameAllocator.Entry> {
    [FrameAllocator.Entry(0, FRAMES * PAGE, true)]
  }

  lemma MemMapEnd()
    ensures FrameAllocator.MapOK(MemMap()) && FrameAllocator.MemEnd(MemMap()) == FRAMES * PAGE
    ensures FrameAllocator.HoldsBitmap(MemMap(), 0, 512)
  {
    assert FrameAllocator.MemEnd(MemMap()[..0]) == 0;
  }

  lemma BitmapBytes()
    ensures FrameAllocator.BitmapBytes(FRAMES * PAGE) == 512
  {
    FrameAllocator.RoundsToFrames(FRAMES * PAGE);
    FrameAllocator.RoundsToWords(FRAMES);
  }

  /** The first n frames are in use. */
  function Used(n: nat): (r: seq<bool>)
    ensures |r| == FRAMES
  {
    seq(FRAMES, i => i < n)
  }

  lemma LowestUsed(n: nat)
    requires n < FRAMES
    ensures Lowest(Used(n)) == n && Take(Used(n), 1) == Used(n + 1)
  {
    LowestIs(Used(n), n);
    assert Take(Used(n), 0) == Used(n);
    assert Used(n)[n := true] == Used(n + 1);
  }

  lemma {:induction false} TakeUsed(n: nat, k: nat)
    requires n + k <= FRAMES
    ensures Take(Used(n), k) == Used(n + k)
  {
    if k == 0 {
      assert Take(Used(n), 0) == Used(n);
    } else {
      TakeUsed(n, k - 1);
      LowestUsed(n + k - 1);
      TakeTake(Used(n), k - 1, 1);
    }
  }

  lemma CountUsed(n: nat)
    requires n <= FRAMES
    ensures FreeCount(Used(n)) >= FRAMES - n
  {
    if n < FRAMES {
      TakeUsed(n, FRAMES - n - 1);
      LowestUsed(FRAMES - 1);
      TakeCount(Used(n), FRAMES - n - 1);
    }
  }

  lemma FreeAtStart(frames: seq<bool>, c: int)
    requires FrameAllocator.HoldsBitmap(MemMap(), c, 512) && FrameAllocator.FreeExactly(frames, MemMap(), c, 512)
    requires |frames| == FRAMES
    ensures frames == Used(1)
  {
    forall n | 0 <= n < FRAMES ensures frames[n] == Used(1)[n] {
      assert FrameAllocator.Available(MemMap(), c, 512, n) <==> MemMap()[0].HasFrame(n) && 512 <= n * PAGE;
    }
  }

  /** Start-up: the first frame holds the bitmap. */
  method Boot() returns (manager: FrameAllocator.PhysicalMemoryManager)
    ensures manager.Valid() && manager.Frames() == Used(1) && fresh(manager.bitmap) && fresh(manager.bitmap.words)
  {
    var memmap := new FrameAllocator.Entry[] [FrameAllocator.Entry(0, FRAMES * PAGE, true)];
    assert memmap[..] == MemMap();
    MemMapEnd();
    BitmapBytes();
    manager := new FrameAllocator.PhysicalMemoryManager(memmap);
    ghost var c :| FrameAllocator.HoldsBitmap(MemMap(), c, manager.bitmap.bsize)
                   && FrameAllocator.FreeExactly(manager.Frames(), MemMap(), c, manager.bitmap.bsize);
    FreeAtStart(manager.Frames(), c);
  }

  /** After start-up the frames up to 2054 hold the bitmap and the tables. */
  lemma StartNeighbours()
    ensures FreeCount(Used(1)) > 2053 && Take(Used(1), 2054) == Used(2055)
    ensures Neighbours(Used(2055)) && Lowest(Used(2055)) == 2055
  {
    CountUsed(1);
    TakeUsed(1, 2054);
    LowestUsed(2055);
    LowestUsed(2056);
    CountUsed(2055);
  }

  /** The boot of that machine. */
  method Start(hhdm: nat) returns (space: AddressSpace)
    requires hhdm % ROOT_SPAN == 0 && hhdm + LOW_MEMORY <= W64
    ensures space.Valid() && space.hhdm == hhdm && LowMapped(space.State(), hhdm) && space.State().frames == Used(2055)
    ensures fresh(space) && fresh(space.pmm.bitmap) && fresh(space.pmm.bitmap.words)
  {
    StartNeighbours();
    var manager := Boot();
    var ok: bool;
    space, ok := InitKernel(manager, hhdm);
    LowTables(space.pml4, hhdm);
  }

  /** From there to a state that is fragmented. */
  method Fragment(hhdm: nat, ghost v: nat) returns (space: AddressSpace, held: nat)
    requires hhdm % ROOT_SPAN == 0 && hhdm + LOW_MEMORY <= W64 && v == hhdm + 2055 * PAGE
    ensures space.Valid() && space.hhdm == hhdm && HigherHalfFits(space.State().frames, hhdm)
    ensures fresh(space) && fresh(space.pmm.bitmap) && fresh(space.pmm.bitmap.words)
    ensures v == Base(space.State().frames, hhdm) && NextHeld(space.State(), v, held) && held == 2056 * PAGE
  {
    space := Start(hhdm);
    StartNeighbours();
    ghost var n := |space.State().frames|;
    held := HoldSecond(space, v);
    AlignedHalf(space.State().frames, n, hhdm);
  }

  lemma AlignedHalf(frames: seq<bool>, n: nat, hhdm: nat)
    requires |frames| == n == FRAMES && hhdm % ROOT_SPAN == 0 && hhdm + LOW_MEMORY <= W64
    ensures HigherHalfFits(frames, hhdm)
  {}

  /** The frame that is held has not been given back, and yet is free after the call: it will be handed out again. */
  method LoseFrame(hhdm: nat, flags: nat) returns (space: AddressSpace, held: nat, run: Allocation)
    requires hhdm % ROOT_SPAN == 0 && hhdm + LOW_MEMORY <= W64 && flags < Pow2(WORD)
    ensures space.Valid() && run == Run(hhdm + 2055 * PAGE)
    ensures held == 2056 * PAGE && !InUse(space.State().frames, held)
  {
    ghost var v := hhdm + 2055 * PAGE;
    space, held := Fragment(hhdm, v);
    run := LoseNext(space, v, flags, held);
  }
}
