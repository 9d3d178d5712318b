/** Allocating a run of pages at the higher-half addresses of the frames, and giving it back. */
module PageAllocation {
  import opened Units
  import opened Words
  import opened PageEntry
  import opened PageTree
  import opened FreeFrames
  import opened SpaceChanges
  import opened FrameRuns
  import opened SpaceSteps
  import opened PageRuns
  import opened PageRanges

  /** What allocate returns: the first page, or null; or it panics. */
  datatype Allocation = Run(virt: nat) | Nothing | Failed

  /** The higher-half address of the lowest free frame. */
  function Base(frames: seq<bool>, hhdm: nat): nat {
    hhdm + LowestAddress(frames)
  }

  /** A run starts at the higher-half address of the first frame n that is free. */
  lemma RunStarts(frames: seq<bool>, hhdm: nat, n: nat)
    requires n < |frames| && !frames[n] && forall m :: 0 <= m < n ==> frames[m]
    ensures LowestAddress(frames) == n * 4096 && Base(frames, hhdm) == hhdm + n * 4096
  {
    assert Lowest(frames) == n;
  }

  /** The run of `count` pages from v: the tables that each one misses when the earlier ones have theirs, and its
      entry. */
  ghost function PlanOf(s: Space, v: nat, count: nat): (p: Plan)
    requires s.tables.Keys == s.places.Keys
    ensures p.frames == s.frames && |p.pages| == count
    ensures forall k: nat {:trigger p.pages[k]} :: k < count ==>
              p.pages[k] == Page(Need(s.places, v, k), Entry(s, v, k))
  {
    Plan(s.frames, seq(count, k requires 0 <= k < count => Page(Need(s.places, v, k), Entry(s, v, k))))
  }

  /** A page with a leaf table misses none. */
  lemma NeedsNone(s: Space, root: nat, v: nat, k: nat)
    requires Tree(s.tables, s.places, root) && s.tables.Keys == s.places.Keys
    requires IsPresent(Entry(s, v, k)) || exists t :: At(s.places, t, Window(v, k)[..DEPTH])
    ensures Need(s.places, v, k) == 0
  {
    var path := Window(v, k);
    WindowValid(v, k);
    ZeroNotPresent();
    if Missing(s.tables, root, path[..DEPTH]) > 0 { NoLeaf(s, root, path); }
    LeafTable(s.tables, s.places, root, path[..DEPTH]);
    AllTaken(s, root, path[..DEPTH]);
    assert path[..DEPTH][..1] == path[..1] && path[..DEPTH][..2] == path[..2] && path[..DEPTH][..3] == path[..3];
  }

  /** No place on the way to a leaf table is untaken. */
  lemma AllTaken(s: Space, root: nat, q: seq<nat>)
    requires Tree(s.tables, s.places, root) && |q| == DEPTH && (forall i :: 0 <= i < DEPTH ==> q[i] < ENTRIES)
    requires Missing(s.tables, root, q) == 0
    ensures Occupied(s.places, q[..1]) && Occupied(s.places, q[..2]) && Occupied(s.places, q[..3])
  {
    assert q[..0] == [] && q[0..] == q;
    MissingIsUntaken(s.tables, s.places, root, root, q, 0);
    assert Untaken(s.places, q, 2) == 0 && Untaken(s.places, q, 1) == 0;
  }

  /** A run of pages that are mapped misses no table. */
  lemma MappedPlan(s: Space, root: nat, v: nat, count: nat, n: nat)
    requires Tree(s.tables, s.places, root) && s.tables.Keys == s.places.Keys && n <= count
    requires forall k: nat {:trigger Entry(s, v, k)} :: k < n ==> IsPresent(Entry(s, v, k))
    ensures Position(PlanOf(s, v, count).pages, n) == n
  {
    var p := PlanOf(s, v, count);
    forall k: nat | k < n ensures p.pages[k].need == 0 {
      assert p.pages[k] == Page(Need(s.places, v, k), Entry(s, v, k));
      NeedsNone(s, root, v, k);
    }
    NeedsNothing(p.pages, n);
  }

  // ---------- a run, page by page ----------

  /** A frame that the k-th page displaces held no table at the start, and none of the pages before took it for one. */
  ghost predicate SparesPage(tables: Tables, p: Plan, k: nat)
    requires k < |p.pages|
  {
    var e := p.pages[k].entry;
    Displaces(e, LowestAddress(RunFrames(p, k))) ==> FrameOf(e) !in tables && !GotTable(p, k, FrameOf(e))
  }

  ghost predicate SparesRun(tables: Tables, p: Plan) {
    forall k: nat {:trigger Reached(p, k)} ::
      k < |p.pages| && Reached(p, k) ==> k < MAX_PAGES && SparesPage(tables, p, k)
  }

  /** The higher-half map has a page for every frame. */
  ghost predicate HigherHalfFits(frames: seq<bool>, hhdm: nat) {
    |frames| <= MAX_PAGES && hhdm % PAGE == 0 && hhdm + |frames| * PAGE <= W64
  }

  /** What allocate relies on: that, and that the pages the call gets to release no table's frame. */
  ghost predicate Prepared(s: Space, hhdm: nat, count: nat)
    requires s.tables.Keys == s.places.Keys
  {
    HigherHalfFits(s.frames, hhdm) && SparesRun(s.tables, PlanOf(s, Base(s.frames, hhdm), count))
  }

  /** The tables that i pages missed have been created, in frames that were taken for them; the others are in place. */
  ghost predicate TreeGrown(s0: Space, s: Space, v: nat, p: Plan, i: nat)
    requires i <= |p.pages|
  {
    && Covers(s0.places, s.places, v, i) && Grown(s0.places, s.places)
    && (Position(p.pages, i) == i ==> s.places == s0.places)
    && forall t {:trigger t in s.tables} :: t in s.tables ==> t in s0.tables || GotTable(p, i, t)
  }

  /** i pages of the run have been mapped. */
  ghost predicate Allocating(s0: Space, s: Space, v: nat, p: Plan, flags: nat, i: nat) {
    && s0.tables.Keys == s0.places.Keys && p == PlanOf(s0, v, |p.pages|) && i <= |p.pages|
    && EntriesSet(s0, s, v, RunRaws(p, flags, i)) && TreeGrown(s0, s, v, p, i)
    && s.frames == RunFrames(p, i) && Smooth(p, i)
  }

  lemma AllocNone(s: Space, v: nat, p: Plan, flags: nat)
    requires s.tables.Keys == s.places.Keys && p == PlanOf(s, v, |p.pages|)
    ensures Allocating(s, s, v, p, flags, 0)
  {
    SetNone(s, v);
    CoversNone(s.places, v);
  }

  /** The turn of the i-th page: it is as it was at the start, but for the tables that earlier pages missed. */
  lemma RunTurn(s0: Space, s: Space, root: nat, v: nat, p: Plan, flags: nat, i: nat, path: seq<nat>)
    requires Tree(s.tables, s.places, root) && Allocating(s0, s, v, p, flags, i) && i < |p.pages| && i < MAX_PAGES
    requires path == Window(v, i)
    ensures ValidPath(path) && s.tables.Keys == s.places.Keys
    ensures p.pages[i] == Page(Missing(s.tables, root, path[..DEPTH]), EntryAt(s.tables, s.places, path))
  {
    WindowValid(v, i);
    NotYetSet(s0, s, v, RunRaws(p, flags, i), i);
    assert Entry(s, v, i) == EntryAt(s.tables, s.places, path);
    NeedIsMissing(s0.places, s, root, v, i, path);
  }

  /** What mapping a page to a frame that has just been handed out means for the frames. */
  lemma PageMapped(s: Space, s1: Space, s': Space, root: nat, frame: nat, path: seq<nat>, raw: nat, ok: bool,
                   page: Page)
    requires s1 == s.(frames := Take(s.frames, 1)) && s1.tables.Keys == s1.places.Keys && |path| == DEPTH + 1
    requires Lowest(s.frames) >= 0 && frame == LowestAddress(s.frames)
    requires page == Page(Missing(s1.tables, root, path[..DEPTH]), EntryAt(s1.tables, s1.places, path))
    requires Mapped(s1, s', root, path, frame, raw, ok)
    ensures (ok <==> Fits(s.frames, page)) && s'.frames == PageTaken(s.frames, page)
  {
    CountZero(s.frames);
    TakeCount(s.frames, 1);
    TakeTake(s.frames, 1, page.need);
  }

  /** A table that is new is in a frame that was taken at this turn. */
  lemma TablesGotten(s0: Space, s: Space, s': Space, v: nat, p: Plan, i: nat)
    requires i < |p.pages| && s.frames == RunFrames(p, i) && TreeGrown(s0, s, v, p, i)
    requires TablesUsed(s'.tables, s'.frames) && s'.frames == RunFrames(p, i + 1)
    requires forall t {:trigger t in s'.tables} :: t in s'.tables ==> t in s.tables || !InUse(Take(s.frames, 1), t)
    ensures forall t {:trigger t in s'.tables} :: t in s'.tables ==> t in s0.tables || GotTable(p, i + 1, t)
  {
    forall t | t in s'.tables ensures t in s0.tables || GotTable(p, i + 1, t) {
      if t !in s.tables { assert TableAt(p, i, t); }
    }
  }

  /** One more page has its tables. */
  lemma TreeGrowsMore(s0: Space, s: Space, s': Space, v: nat, p: Plan, i: nat)
    requires i < |p.pages| && s.frames == RunFrames(p, i) && TreeGrown(s0, s, v, p, i)
    requires TablesUsed(s'.tables, s'.frames) && s'.frames == RunFrames(p, i + 1)
    requires forall t {:trigger t in s'.tables} :: t in s'.tables ==> t in s.tables || !InUse(Take(s.frames, 1), t)
    requires Extends(s.places, s'.places, Window(v, i), DEPTH) && Grown(s.places, s'.places)
    requires p.pages[i].need == 0 ==> s'.places == s.places
    ensures TreeGrown(s0, s', v, p, i + 1)
  {
    TablesGotten(s0, s, s', v, p, i);
    CoversMore(s0.places, s.places, s'.places, v, i);
  }

  /** One more page has its entry. */
  lemma RawsGrowMore(s0: Space, s: Space, s': Space, v: nat, p: Plan, flags: nat, i: nat)
    requires i < |p.pages| && i < MAX_PAGES && EntriesSet(s0, s, v, RunRaws(p, flags, i))
    requires var raw := MakeEntry(LowestAddress(RunFrames(p, i)), LeafFlags(flags));
             Remapped(s.tables, s.places, s'.tables, s'.places, Window(v, i), raw)
    ensures EntriesSet(s0, s', v, RunRaws(p, flags, i + 1))
  {
    SetOneMore(s0, s, s', v, RunRaws(p, flags, i), MakeEntry(LowestAddress(RunFrames(p, i)), LeafFlags(flags)));
  }

  /** One more page is mapped. */
  lemma AllocOneMore(s0: Space, s: Space, s1: Space, s': Space, root: nat, v: nat, p: Plan, flags: nat, i: nat,
                     frame: nat, path: seq<nat>, raw: nat)
    requires Allocating(s0, s, v, p, flags, i) && i < |p.pages| && i < MAX_PAGES && PageFits(p, i)
    requires frame == LowestAddress(s.frames) && s1 == s.(frames := Take(s.frames, 1))
    requires path == Window(v, i) && raw == MakeEntry(frame, LeafFlags(flags))
    requires Mapped(s1, s', root, path, frame, raw, true) && TablesUsed(s'.tables, s'.frames)
    requires s'.frames == RunFrames(p, i + 1) && p.pages[i].need == Missing(s1.tables, root, path[..DEPTH])
    ensures Allocating(s0, s', v, p, flags, i + 1)
  {
    RawsGrowMore(s0, s, s', v, p, flags, i);
    TreeGrowsMore(s0, s, s', v, p, i);
    OneMoreFits(p, i);
  }

  /** The pages so far are mapped, and there is a next one. */
  ghost predicate Midway(s0: Space, s: Space, v: nat, p: Plan, flags: nat, i: nat) {
    Allocating(s0, s, v, p, flags, i) && SparesRun(s0.tables, p) && i < |p.pages|
  }

  /** Mapping the page with the given path to the lowest free frame releases no table's frame. */
  ghost predicate PathReady(s: Space, path: seq<nat>) {
    ValidPath(path) && s.tables.Keys == s.places.Keys && Spares(s, path, LowestAddress(s.frames))
  }

  /** The next page of the run displaces no table. */
  lemma AllocReady(s0: Space, s: Space, root: nat, v: nat, p: Plan, flags: nat, i: nat, path: seq<nat>)
    requires Good(s, root) && Midway(s0, s, v, p, flags, i) && Lowest(s.frames) >= 0 && path == Window(v, i)
    ensures PathReady(s, path) && i < MAX_PAGES && Reached(p, i)
  {
    assert Reached(p, i);
    RunTurn(s0, s, root, v, p, flags, i, path);
    assert SparesPage(s0.tables, p, i);
  }

  /** The i-th page has been mapped, or the call panics at it. */
  ghost predicate MappedNew(s0: Space, s: Space, s': Space, v: nat, p: Plan, flags: nat, i: nat, ok: bool)
    requires i < |p.pages|
  {
    && Reaches(s, s')
    && if ok then Allocating(s0, s', v, p, flags, i + 1) else Lowest(RunFrames(p, i)) >= 0 && !PageFits(p, i)
  }

  lemma NewMapped(s0: Space, s: Space, s1: Space, s': Space, root: nat, v: nat, p: Plan, flags: nat, i: nat,
                  frame: nat, path: seq<nat>, raw: nat, ok: bool)
    requires Good(s1, root) && Good(s', root) && Allocating(s0, s, v, p, flags, i) && i < |p.pages| && i < MAX_PAGES
    requires Lowest(s.frames) >= 0 && frame == LowestAddress(s.frames) && s1 == s.(frames := Take(s.frames, 1))
    requires path == Window(v, i) && raw == MakeEntry(frame, LeafFlags(flags))
    requires Mapped(s1, s', root, path, frame, raw, ok) && Spares(s1, path, frame)
    ensures MappedNew(s0, s, s', v, p, flags, i, ok)
  {
    RunTurn(s0, s, root, v, p, flags, i, path);
    PageMapped(s, s1, s', root, frame, path, raw, ok, p.pages[i]);
    if ok { AllocOneMore(s0, s, s1, s', root, v, p, flags, i, frame, path, raw); }
    ReachesOne(s, HandOut, s1);
    ReachesFurther(s, s1, s');
  }

  /** The frame of a page's former entry is free, and holds a table. */
  ghost predicate LosesTable(s: Space, e: nat) {
    FrameOf(e) in s.tables && !InUse(s.frames, FrameOf(e))
  }

  /** A page that maps a table's frame is mapped without a panic, and that frame is released. */
  lemma NewMappedLoses(s0: Space, s: Space, s1: Space, s': Space, root: nat, v: nat, p: Plan, flags: nat, i: nat,
                       frame: nat, path: seq<nat>, raw: nat, ok: bool)
    requires Good(s1, root) && Allocating(s0, s, v, p, flags, i) && i < |p.pages| && i < MAX_PAGES
    requires s1 == s.(frames := Take(s.frames, 1)) && path == Window(v, i)
    requires |path| == DEPTH + 1 && Mapped(s1, s', root, path, frame, raw, ok) && !Spares(s1, path, frame)
    ensures ok && LosesTable(s', p.pages[i].entry)
  {
    RunTurn(s0, s, root, v, p, flags, i, path);
    ZeroNotPresent();
    if Missing(s1.tables, root, path[..DEPTH]) > 0 { NoLeaf(s1, root, path); }
    assert InUse(s1.frames, FrameOf(p.pages[i].entry));
    TableReleased(s1, s', root, path, frame, raw);
  }

  // ---------- what allocate does ----------

  /** No frame is left after i pages. */
  ghost predicate RanOut(s0: Space, s: Space, v: nat, p: Plan, flags: nat, i: nat) {
    0 < i < |p.pages| && Allocating(s0, s, v, p, flags, i) && Lowest(s.frames) < 0
  }

  /** The state from which the call rolls back, and the pages it has mapped till then. */
  ghost predicate RolledBack(s: Space, s': Space, v: nat, p: Plan, flags: nat) {
    exists mid, i: nat :: RanOut(s, mid, v, p, flags, i) && Dropping(mid, s', v, i)
  }

  /** On the way a displaced frame is not in use, or the frames do not suffice for the tables that a page misses. */
  ghost predicate PanicsMapping(p: Plan) {
    exists i: nat {:trigger PageFits(p, i)} :: i < |p.pages| && Reached(p, i) && !PageFits(p, i)
  }

  /** When the call rolls back a frame is not in use. */
  ghost predicate PanicsRollingBack(s: Space, v: nat, p: Plan, flags: nat) {
    exists mid, i: nat :: RanOut(s, mid, v, p, flags, i) && !Orderly(mid, v, i)
  }

  /** What allocate does, for at least one page and frame. */
  ghost predicate AllocatedPlan(s: Space, s': Space, v: nat, p: Plan, flags: nat, r: Allocation) {
    && (r.Run? || RunKept(p) ==> Reaches(s, s'))
    && match r
       case Run(virt) => virt == v && Allocating(s, s', v, p, flags, |p.pages|)
       case Nothing => RolledBack(s, s', v, p, flags)
       case Failed => (PanicsMapping(p) && Reaches(s, s')) || PanicsRollingBack(s, v, p, flags)
  }

  /** What allocate does, whatever the frames and the pages are. */
  ghost predicate AllocatedRun(s: Space, s': Space, hhdm: nat, count: nat, flags: nat, r: Allocation)
    requires s.tables.Keys == s.places.Keys
  {
    if count == 0 || Lowest(s.frames) < 0 then r == Nothing && s' == s
    else AllocatedPlan(s, s', Base(s.frames, hhdm), PlanOf(s, Base(s.frames, hhdm), count), flags, r)
  }

  /** Bit for bit: each page of a run maps the frame that was the lowest free one at its turn, with the flags of the
      call. */
  lemma RunBits(s0: Space, s: Space, v: nat, p: Plan, flags: nat, i: nat, k: nat)
    requires Allocating(s0, s, v, p, flags, i) && k < i
    ensures LeafBits(Entry(s, v, k), LowestAddress(RunFrames(p, k)), flags)
  {
    assert Entry(s, v, k) == RunRaws(p, flags, i)[k];
    LeafEntryBits(LowestAddress(RunFrames(p, k)), flags);
  }

  // ---------- rolling back ----------

  lemma {:induction false} TakeKeepsAll(tables: Tables, frames: seq<bool>, n: nat)
    requires TablesUsed(tables, frames)
    ensures TablesUsed(tables, Take(frames, n))
  {
    if n == 0 {
      assert Take(frames, 0) == frames;
    } else {
      TakeKeepsAll(tables, frames, n - 1);
      TakeKeepsTables(tables, Take(frames, n - 1));
      TakeTake(frames, n - 1, 1);
    }
  }

  lemma PageKeepsTables(tables: Tables, frames: seq<bool>, page: Page)
    requires TablesUsed(tables, frames)
    requires Displaces(page.entry, LowestAddress(frames)) ==> FrameOf(page.entry) !in tables
    ensures TablesUsed(tables, PageTaken(frames, page))
  {
    TakeKeepsAll(tables, frames, 1);
    TakeKeepsAll(tables, frames, 1 + page.need);
    FrameBits(page.entry);
    if Displaces(page.entry, LowestAddress(frames)) {
      ReleaseKeepsTables(tables, Take(frames, 1), FrameOf(page.entry));
    }
  }

  /** As long as the pages displace no table, the frames that a run releases hold none. */
  lemma {:induction false} RunKeepsTables(tables: Tables, p: Plan, i: nat)
    requires TablesUsed(tables, p.frames) && i <= |p.pages|
    requires forall k: nat {:trigger SparesPage(tables, p, k)} :: k < i ==> SparesPage(tables, p, k)
    ensures TablesUsed(tables, RunFrames(p, i))
  {
    if i > 0 {
      RunKeepsTables(tables, p, i - 1);
      assert SparesPage(tables, p, i - 1);
      PageKeepsTables(tables, RunFrames(p, i - 1), p.pages[i - 1]);
    }
  }

  /** A frame that is handed out fits an entry, and holds no table. */
  lemma FreshFrame(tables: Tables, frames: seq<bool>, flags: nat)
    requires TablesUsed(tables, frames) && flags < Pow2(WORD) && Lowest(frames) >= 0
    ensures var frame := LowestAddress(frames);
            && frame !in tables && IsPresent(MakeEntry(frame, LeafFlags(flags)))
            && FrameOf(MakeEntry(frame, LeafFlags(flags))) == frame
  {
    var frame := LowestAddress(frames);
    LowestFrame(frames);
    LeafMaps(frame, flags);
    assert frame in tables ==> InUse(frames, frame);
  }

  lemma LowestFrame(frames: seq<bool>)
    requires Lowest(frames) >= 0 && |frames| <= MAX_FRAMES
    ensures LowestAddress(frames) == Lowest(frames) * PAGE && LowestAddress(frames) < PHYS_LIMIT
    ensures LowestAddress(frames) % PAGE == 0 && !InUse(frames, LowestAddress(frames))
  {
  }

  /** The pages mapped so far had a frame, and displaced no table. */
  lemma WasReady(tables: Tables, p: Plan, i: nat, k: nat)
    requires SparesRun(tables, p) && k < i <= |p.pages| && Smooth(p, i)
    ensures k < MAX_PAGES && SparesPage(tables, p, k) && Lowest(RunFrames(p, k)) >= 0
  {
    assert PageFits(p, k);
    FitsHasFrame(p, k);
    assert Reached(p, k);
  }

  /** The k-th page maps its frame, which holds no table if it has not been taken for one since. */
  lemma MappedFrame(s0: Space, s: Space, root: nat, v: nat, p: Plan, flags: nat, i: nat, k: nat)
    requires Good(s0, root) && flags < Pow2(WORD) && Midway(s0, s, v, p, flags, i) && k < i && KeptAt(p, i)
    ensures s.tables.Keys == s.places.Keys && FrameOf(Entry(s, v, k)) !in s.tables
  {
    forall j: nat | j < k ensures SparesPage(s0.tables, p, j) { WasReady(s0.tables, p, i, j); }
    WasReady(s0.tables, p, i, k);
    RunKeepsTables(s0.tables, p, k);
    FreshFrame(s0.tables, RunFrames(p, k), flags);
    assert Entry(s, v, k) == RunRaws(p, flags, i)[k];
  }

  /** Rolling back meets no table, unless a frame of the run was taken for one. */
  lemma RollBackReady(s0: Space, s: Space, root: nat, hhdm: nat, v: nat, p: Plan, flags: nat, i: nat)
    requires Good(s0, root) && flags < Pow2(WORD) && Midway(s0, s, v, p, flags, i) && i > 0 && Lowest(s.frames) < 0
    requires v == Base(s0.frames, hhdm) && HigherHalfFits(s0.frames, hhdm)
    ensures i <= MAX_PAGES && v < W64 && v / PAGE * PAGE == v
    ensures s.tables.Keys == s.places.Keys && (RunKept(p) ==> NoTables(s, v, i))
  {
    WasReady(s0.tables, p, i, i - 1);
    WasReady(s0.tables, p, i, 0);
    if RunKept(p) {
      assert KeptAt(p, i);
      forall k: nat | k < i ensures FrameOf(Entry(s, v, k)) !in s.tables {
        MappedFrame(s0, s, root, v, p, flags, i, k);
      }
    }
    BaseAligned(s0.frames, hhdm);
  }

  lemma BaseAligned(frames: seq<bool>, hhdm: nat)
    requires HigherHalfFits(frames, hhdm) && 0 < |frames|
    ensures Base(frames, hhdm) < W64 && Base(frames, hhdm) / PAGE * PAGE == Base(frames, hhdm)
  {
  }

  // ---------- giving a run back ----------

  ghost predicate HoldsAt(p: Plan, s: Space, v: nat, k: nat)
    requires s.tables.Keys == s.places.Keys && k < |p.pages|
  {
    IsPresent(Entry(s, v, k)) && FrameOf(Entry(s, v, k)) == PageFrame(p, k)
  }

  /** The n pages from v hold the frames that were handed out for them. */
  ghost predicate HoldsRun(p: Plan, s: Space, v: nat, n: nat) {
    && s.tables.Keys == s.places.Keys && n <= |p.pages| && Position(p.pages, n) <= FreeCount(p.frames)
    && s.frames == Take(p.frames, Position(p.pages, n))
    && forall k: nat {:trigger HoldsAt(p, s, v, k)} :: k < n ==> HoldsAt(p, s, v, k)
  }

  /** Unmapping i of those pages releases exactly the frames of the first i. */
  lemma {:induction false} DropUndoes(p: Plan, s: Space, v: nat, n: nat, i: nat)
    requires HoldsRun(p, s, v, n) && i <= n
    ensures DropFrames(s, v, i) == Returned(p, n, i)
  {
    if i == 0 {
      ReturnNone(p, n);
    } else {
      DropUndoes(p, s, v, n, i - 1);
      ReturnStep(p, n, i - 1);
      assert HoldsAt(p, s, v, i - 1);
    }
  }

  lemma InUseInTurn(p: Plan, s: Space, v: nat, n: nat, k: nat)
    requires HoldsRun(p, s, v, n) && k < n
    ensures OrderlyAt(s, v, k)
  {
    DropUndoes(p, s, v, n, k);
    ReturnStep(p, n, k);
    assert HoldsAt(p, s, v, k);
  }

  /** Giving the whole run back frees exactly the frames of its pages, without a panic on the way. */
  lemma RunGivenBack(p: Plan, s: Space, v: nat, n: nat)
    requires HoldsRun(p, s, v, n)
    ensures Orderly(s, v, n) && DropFrames(s, v, n) == Returned(p, n, n)
  {
    forall k: nat | k < n ensures OrderlyAt(s, v, k) {
      InUseInTurn(p, s, v, n, k);
    }
    DropUndoes(p, s, v, n, n);
  }

  function Blank(n: nat): (r: seq<nat>)
    ensures |r| == n && forall k: nat :: k < n ==> r[k] == 0
  {
    if n == 0 then [] else Blank(n - 1) + [0]
  }

  /** A run that maps the lowest free frames, with its tables in those in between. */
  ghost predicate CleanlyMapped(s0: Space, s: Space, v: nat, p: Plan, flags: nat, n: nat) {
    && p.frames == s0.frames && n <= |p.pages| && Clean(p, n) && Position(p.pages, n) <= FreeCount(p.frames)
    && s.frames == Take(p.frames, Position(p.pages, n)) && TreeGrown(s0, s, v, p, n)
    && EntriesSet(s0, s, v, RunEntries(p, flags, n))
  }

  /** The k-th frame of a run fits an entry, and holds no table. */
  lemma RunFrame(tables: Tables, p: Plan, flags: nat, n: nat, k: nat)
    requires TablesUsed(tables, p.frames) && flags < Pow2(WORD) && k < n <= |p.pages|
    requires Position(p.pages, n) <= FreeCount(p.frames)
    ensures var e := MakeEntry(PageFrame(p, k), LeafFlags(flags)); IsPresent(e) && FrameOf(e) == PageFrame(p, k)
    ensures PageFrame(p, k) !in tables
  {
    PageNth(p, n, k);
    TakeKeepsAll(tables, p.frames, Position(p.pages, k));
    FreshFrame(tables, Take(p.frames, Position(p.pages, k)), flags);
  }

  /** A clean run that has been allocated can be given back, and maps no table. */
  lemma RunHeld(s0: Space, s: Space, root: nat, v: nat, p: Plan, flags: nat, n: nat)
    requires Good(s0, root) && flags < Pow2(WORD) && CleanlyMapped(s0, s, v, p, flags, n)
    ensures HoldsRun(p, s, v, n) && NoTables(s, v, n) && Orderly(s, v, n)
  {
    forall k: nat | k < n
      ensures HoldsAt(p, s, v, k) && FrameOf(Entry(s, v, k)) !in s.tables
    {
      RunFrame(s0.tables, p, flags, n, k);
      CleanKept(p, n, k);
    }
    RunGivenBack(p, s, v, n);
  }

  /** After the run is given back its pages are unmapped, its frames are free again, and every other page is as it
      was. */
  lemma RunUndone(s0: Space, s: Space, s': Space, v: nat, p: Plan, flags: nat, n: nat)
    requires HoldsRun(p, s, v, n) && EntriesSet(s0, s, v, RunEntries(p, flags, n)) && Dropping(s, s', v, n)
    ensures EntriesSet(s0, s', v, Blank(n)) && s'.frames == Returned(p, n, n)
  {
    RunGivenBack(p, s, v, n);
    forall k: nat | k < n ensures Entry(s', v, k) == 0 {
      assert HoldsAt(p, s, v, k);
      assert Entry(s', v, k) == Erased(s, v, n)[k] == Erase(Entry(s, v, k));
    }
    forall path | ValidPath(path) && Outside(v, n, path)
      ensures EntryAt(s'.tables, s'.places, path) == EntryAt(s0.tables, s0.places, path)
    {
      assert EntryAt(s'.tables, s'.places, path) == EntryAt(s.tables, s.places, path);
    }
  }

  // ---------- when allocate does what it is for ----------

  /** The frames suffice for the run and for the tables that it misses. */
  ghost predicate Enough(p: Plan) {
    Position(p.pages, |p.pages|) <= FreeCount(p.frames)
  }

  /** The run maps the lowest free frames, the tables that it misses get those in between, no other page changes, and no
      other frame; every table stays where it is. */
  ghost predicate AsItShould(s: Space, s': Space, v: nat, p: Plan, flags: nat, r: Allocation) {
    && r == Run(v) && s'.frames == Take(p.frames, Position(p.pages, |p.pages|))
    && TreeGrown(s, s', v, p, |p.pages|) && EntriesSet(s, s', v, RunEntries(p, flags, |p.pages|))
  }

  /** A smooth run is returned. */
  lemma SmoothReturns(s: Space, s': Space, v: nat, p: Plan, flags: nat, r: Allocation)
    requires AllocatedPlan(s, s', v, p, flags, r) && Smooth(p, |p.pages|)
    ensures r == Run(v) && s'.frames == RunFrames(p, |p.pages|)
  {
    forall mid, i: nat ensures !RanOut(s, mid, v, p, flags, i) { NotOutWhenSmooth(s, mid, v, p, flags, i); }
  }

  lemma NotOutWhenSmooth(s: Space, mid: Space, v: nat, p: Plan, flags: nat, i: nat)
    requires Smooth(p, |p.pages|)
    ensures !RanOut(s, mid, v, p, flags, i)
  {
    if i < |p.pages| {
      assert PageFits(p, i);
      FitsHasFrame(p, i);
    }
  }

  /** With frames enough, allocate does what it is for exactly when each page was unmapped or mapped its frame
      already.  Otherwise, if it returns a run, a frame in use has been released. */
  lemma AllocateWorks(s: Space, s': Space, hhdm: nat, count: nat, flags: nat, r: Allocation, v: nat, p: Plan)
    requires s.tables.Keys == s.places.Keys && AllocatedRun(s, s', hhdm, count, flags, r)
    requires v == Base(s.frames, hhdm) && p == PlanOf(s, v, count) && 0 < count && Enough(p)
    ensures AsItShould(s, s', v, p, flags, r) <==> Clean(p, count)
    ensures r.Run? && !Clean(p, count) ==>
              FreeCount(s'.frames) > FreeCount(s.frames) - Position(p.pages, count)
  {
    assert Lowest(s.frames) >= 0 by { CountZero(s.frames); }
    TakeCount(p.frames, Position(p.pages, count));
    if Clean(p, count) {
      CleanFrames(p, count);
      CleanSmooth(p, count);
      CleanRaws(p, flags, count);
      SmoothReturns(s, s', v, p, flags, r);
    } else if r.Run? {
      UncleanCount(p, count);
    }
  }

  /** A clean run is returned, and can be released. */
  lemma CleanRunReleasable(s: Space, s': Space, root: nat, hhdm: nat, v: nat, p: Plan, flags: nat, count: nat,
                           r: Allocation)
    requires Good(s, root) && flags < Pow2(WORD) && HigherHalfFits(s.frames, hhdm)
    requires v == Base(s.frames, hhdm) && p == PlanOf(s, v, count) && 0 < count && Enough(p) && Clean(p, count)
    requires AllocatedRun(s, s', hhdm, count, flags, r)
    ensures r == Run(v) && count <= MAX_PAGES && v < W64 && v / PAGE * PAGE == v
    ensures EntriesSet(s, s', v, RunEntries(p, flags, count)) && HoldsRun(p, s', v, count)
    ensures Orderly(s', v, count) && NoTables(s', v, count) && Reaches(s, s')
  {
    AllocateWorks(s, s', hhdm, count, flags, r, v, p);
    assert AllocatedPlan(s, s', v, p, flags, r) by { CountZero(s.frames); }
    RunHeld(s, s', root, v, p, flags, count);
    FreeAtMost(s.frames);
    BaseAligned(s.frames, hhdm);
  }

  /** After the release the state is sound, the frames of the pages are free again, and all pages but those of the run
      are as before; where no table was missing, so are the frames. */
  lemma CleanRunReleased(s: Space, s1: Space, s2: Space, root: nat, v: nat, p: Plan, flags: nat, n: nat)
    requires Good(s1, root) && HoldsRun(p, s1, v, n) && EntriesSet(s, s1, v, RunEntries(p, flags, n))
    requires NoTables(s1, v, n) && Dropping(s1, s2, v, n) && Sparing(s1, s2, v, n)
    ensures Good(s2, root) && EntriesSet(s, s2, v, Blank(n)) && s2.frames == Returned(p, n, n)
    ensures Position(p.pages, n) == n ==> s2.frames == p.frames
  {
    ReachesGood(s1, s2, root);
    RunUndone(s, s1, s2, v, p, flags, n);
    OnlyTablesStay(p, n);
  }

  // ---------- when the frames do not suffice ----------

  /** A clean run is the only one to run out of frames where they do not suffice. */
  lemma RanOutAt(s: Space, mid: Space, v: nat, p: Plan, flags: nat, n: nat, i: nat)
    requires n < |p.pages| && Clean(p, n + 1) && LastsFor(p, n) && RanOut(s, mid, v, p, flags, i)
    ensures i == n && Position(p.pages, n) == FreeCount(p.frames)
  {
    CleanStops(p, n);
    SmoothUpTo(p, i, n);
    if i < n { FitsHasFrame(p, i); }
  }

  /** What has been mapped then can be given back. */
  lemma OutGivesBack(s: Space, mid: Space, root: nat, v: nat, p: Plan, flags: nat, n: nat)
    requires Good(s, root) && flags < Pow2(WORD) && n < |p.pages| && Clean(p, n + 1) && LastsFor(p, n)
    requires RanOut(s, mid, v, p, flags, n)
    ensures HoldsRun(p, mid, v, n) && Orderly(mid, v, n) && EntriesSet(s, mid, v, RunEntries(p, flags, n))
  {
    CleanPrefix(p, n, n + 1);
    CleanFrames(p, n);
    CleanRaws(p, flags, n);
    RunHeld(s, mid, root, v, p, flags, n);
  }

  lemma PanicsOnlyThere(p: Plan, n: nat)
    requires n < |p.pages| && Clean(p, n + 1) && LastsFor(p, n)
    ensures PanicsMapping(p) ==> Position(p.pages, n) < FreeCount(p.frames)
  {
    CleanStops(p, n);
    forall i: nat | i < |p.pages| && Reached(p, i) && !PageFits(p, i) ensures i == n {
      SmoothUpTo(p, i, n);
    }
  }

  lemma NoPanicRollingBack(s: Space, root: nat, v: nat, p: Plan, flags: nat, n: nat)
    requires Good(s, root) && flags < Pow2(WORD) && n < |p.pages| && Clean(p, n + 1) && LastsFor(p, n)
    ensures !PanicsRollingBack(s, v, p, flags)
  {
    forall mid, i: nat | RanOut(s, mid, v, p, flags, i) ensures Orderly(mid, v, i) {
      RanOutAt(s, mid, v, p, flags, n, i);
      OutGivesBack(s, mid, root, v, p, flags, n);
    }
  }

  lemma UndoneWhenClean(s: Space, s': Space, root: nat, v: nat, p: Plan, flags: nat, n: nat)
    requires Good(s, root) && flags < Pow2(WORD) && n < |p.pages| && Clean(p, n + 1) && LastsFor(p, n)
    requires RolledBack(s, s', v, p, flags)
    ensures Position(p.pages, n) == FreeCount(p.frames)
    ensures s'.frames == Returned(p, n, n) && EntriesSet(s, s', v, Blank(n))
  {
    var mid, i: nat :| RanOut(s, mid, v, p, flags, i) && Dropping(mid, s', v, i);
    RanOutAt(s, mid, v, p, flags, n, i);
    OutGivesBack(s, mid, root, v, p, flags, n);
    RunUndone(s, mid, s', v, p, flags, n);
  }

  /** A clean run that is too long for the free frames, which last for n pages: if none is left then, the call returns
      null, the pages are unmapped, exactly their frames are free again, and no other page has changed; if some are
      left, but not as many as the next page misses tables, the call panics. */
  lemma AllocateRollsBack(s: Space, s': Space, root: nat, hhdm: nat, count: nat, flags: nat, r: Allocation,
                          v: nat, p: Plan, n: nat)
    requires Good(s, root) && flags < Pow2(WORD) && AllocatedRun(s, s', hhdm, count, flags, r)
    requires v == Base(s.frames, hhdm) && p == PlanOf(s, v, count)
    requires FreeCount(s.frames) > 0 && n < count && Clean(p, n + 1) && LastsFor(p, n)
    ensures r == if Position(p.pages, n) == FreeCount(p.frames) then Nothing else Failed
    ensures r == Nothing ==> s'.frames == Returned(p, n, n) && EntriesSet(s, s', v, Blank(n))
    ensures r == Nothing && Position(p.pages, n) == n ==> s'.frames == s.frames
  {
    assert AllocatedPlan(s, s', v, p, flags, r) by { CountZero(s.frames); }
    CleanStops(p, n);
    PanicsOnlyThere(p, n);
    NoPanicRollingBack(s, root, v, p, flags, n);
    SmoothUpTo(p, count, n);
    if r == Nothing {
      UndoneWhenClean(s, s', root, v, p, flags, n);
      OnlyTablesStay(p, n);
    }
  }

  /** Under the higher-half map allocate does what it is for exactly when the lowest free frames are consecutive. */
  lemma IdentityRun(s: Space, root: nat, v: nat, count: nat)
    requires Tree(s.tables, s.places, root) && s.tables.Keys == s.places.Keys
    requires 0 < count <= FreeCount(s.frames) && IdentityMapped(PlanOf(s, v, count), count)
    ensures var p := PlanOf(s, v, count); Enough(p) && (Clean(p, count) <==> Consecutive(s.frames, count))
  {
    var p := PlanOf(s, v, count);
    forall k: nat | k < count ensures IsPresent(Entry(s, v, k)) {
      assert p.pages[k] == Page(Need(s.places, v, k), Entry(s, v, k));
    }
    MappedPlan(s, root, v, count, count);
    CleanWhenConsecutive(p, count);
  }
}
