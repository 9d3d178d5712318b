/** The start of the kernel's address space: the lower 4 GiB are mapped at their higher-half addresses. */
module KernelStart {
  import opened Units
  import opened Words
  import opened PageEntry
  import opened PageTree
  import opened FreeFrames
  import opened SpaceChanges
  import opened FrameRuns
  import FrameAllocator
  import opened SpaceSteps
  import opened PageRuns
  import opened PageRanges
  import opened PageAllocation
  import opened AddressSpaces

  const LOW_MEMORY: nat := 0x1_0000_0000            // 4 GiB
  const LOW_PAGES: nat := 0x10_0000
  const LOW_FLAGS: nat := 0x8000_0000_0000_0002     // Writable, ExecuteDisable
  const NULL_FLAGS: nat := 0x8000_0000_0000_0000    // ExecuteDisable

  /** The k-th page of the higher half maps frame k, for the frames of the lower 4 GiB. */
  ghost predicate LowMapped(s: Space, hhdm: nat) {
    && s.tables.Keys == s.places.Keys
    && forall k: nat {:trigger Entry(s, hhdm, k)} :: k < LOW_PAGES ==>
         IsPresent(Entry(s, hhdm, k)) && FrameOf(Entry(s, hhdm, k)) == k * PAGE
  }

  // ---------- the tables that are needed ----------

  /** The higher half starts at a multiple of what one entry of the root covers, 512 GiB. */
  const ROOT_SPAN: nat := 0x80_0000_0000

  lemma LowPath(hhdm: nat, k: nat)
    requires hhdm % ROOT_SPAN == 0 && k < LOW_PAGES
    ensures Window(hhdm, k) == [hhdm / ROOT_SPAN % ENTRIES, k / 0x4_0000, k / 512 % 512, k % 512]
  {
    var x, a := hhdm + k * PAGE, hhdm / ROOT_SPAN;
    Indices(x);
    LowIndices(a, k, x);
  }

  lemma LowIndices(a: nat, k: nat, x: nat)
    requires x == a * ROOT_SPAN + k * PAGE && k < LOW_PAGES
    ensures x / 0x80_0000_0000 == a && x / 0x4000_0000 % 512 == k / 0x4_0000
    ensures x / 0x20_0000 % 512 == k / 512 % 512 && x / 0x1000 % 512 == k % 512
  {
    assert x / 0x1000 == a * 0x800_0000 + k;
    assert x / 0x20_0000 == x / 0x1000 / 512 == a * 0x4_0000 + k / 512;
    assert x / 0x4000_0000 == x / 0x20_0000 / 512 == a * 512 + k / 512 / 512;
  }

  lemma OnlyRoot(root: nat, q: seq<nat>)
    requires q != []
    ensures !Occupied(map[root := []], q)
  {}

  /** Which places two pages share. */
  lemma Shares(hhdm: nat, j: nat, k: nat)
    requires hhdm % ROOT_SPAN == 0 && j < k < LOW_PAGES
    ensures Begins(Window(hhdm, k)[..1], Window(hhdm, j), DEPTH)
    ensures Begins(Window(hhdm, k)[..2], Window(hhdm, j), DEPTH) <==> j / 0x4_0000 == k / 0x4_0000
    ensures Begins(Window(hhdm, k)[..3], Window(hhdm, j), DEPTH) <==> j / 512 == k / 512
  {
    LowPath(hhdm, j);
    LowPath(hhdm, k);
    SamePrefixes(Window(hhdm, k), Window(hhdm, j));
    assert j / 0x4_0000 == j / 512 / 512 && k / 0x4_0000 == k / 512 / 512;
  }

  lemma SamePrefixes(a: seq<nat>, b: seq<nat>)
    requires |a| == |b| == DEPTH + 1 && a[0] == b[0]
    ensures Begins(a[..1], b, DEPTH)
    ensures Begins(a[..2], b, DEPTH) <==> a[1] == b[1]
    ensures Begins(a[..3], b, DEPTH) <==> a[1] == b[1] && a[2] == b[2]
  {
    assert b[..1] == a[..1];
    if a[1] == b[1] { assert b[..2] == a[..2]; }
    if a[1] == b[1] && a[2] == b[2] { assert b[..3] == a[..3]; }
    if a[..2] <= b { assert a[..2][1] == b[1]; }
    if a[..3] <= b { assert a[..3][1] == b[1] && a[..3][2] == b[2]; }
  }

  /** The k-th page is the first one that needs a table exactly at the start of what the table covers. */
  lemma LacksLow(root: nat, hhdm: nat, k: nat)
    requires hhdm % ROOT_SPAN == 0 && k < LOW_PAGES
    ensures Lacks(map[root := []], hhdm, k, 1) <==> k == 0
    ensures Lacks(map[root := []], hhdm, k, 2) <==> k % 0x4_0000 == 0
    ensures Lacks(map[root := []], hhdm, k, 3) <==> k % 512 == 0
  {
    LowPath(hhdm, k);
    var path := Window(hhdm, k);
    OnlyRoot(root, path[..1]);
    OnlyRoot(root, path[..2]);
    OnlyRoot(root, path[..3]);
    forall j: nat | j < k
      ensures Begins(path[..2], Window(hhdm, j), DEPTH) ==> k % 0x4_0000 != 0
      ensures Begins(path[..3], Window(hhdm, j), DEPTH) ==> k % 512 != 0
    {
      Shares(hhdm, j, k);
    }
    if k > 0 { Shares(hhdm, k - 1, k); }
  }

  /** The tables that the first n pages need: one for all, one for each GiB, and one for each 2 MiB. */
  function TablesFor(n: nat): nat {
    (if n == 0 then 0 else 1) + (n + 0x3_FFFF) / 0x4_0000 + (n + 511) / 512
  }

  lemma OneMorePage(k: nat)
    ensures TablesFor(k + 1) == TablesFor(k) + (if k == 0 then 1 else 0) + (if k % 0x4_0000 == 0 then 1 else 0)
                                + if k % 512 == 0 then 1 else 0
  {
    OneMoreGiB(k);
    OneMoreTable(k);
  }

  lemma OneMoreGiB(k: nat)
    ensures (k + 1 + 0x3_FFFF) / 0x4_0000 == (k + 0x3_FFFF) / 0x4_0000 + if k % 0x4_0000 == 0 then 1 else 0
  {}

  lemma OneMoreTable(k: nat)
    ensures (k + 1 + 511) / 512 == (k + 511) / 512 + if k % 512 == 0 then 1 else 0
  {}

  lemma NeedLow(root: nat, hhdm: nat, k: nat)
    requires hhdm % ROOT_SPAN == 0 && k < LOW_PAGES
    ensures Need(map[root := []], hhdm, k) == TablesFor(k + 1) - TablesFor(k)
  {
    LacksLow(root, hhdm, k);
    OneMorePage(k);
  }

  lemma TotalStep(places: Places, v: nat, n: nat)
    requires n > 0
    ensures Total(Needs(places, v, n)) == Total(Needs(places, v, n - 1)) + Need(places, v, n - 1)
  {
    assert Needs(places, v, n)[..n - 1] == Needs(places, v, n - 1);
  }

  lemma {:induction false} LowNeeds(root: nat, hhdm: nat, n: nat)
    requires hhdm % ROOT_SPAN == 0 && n <= LOW_PAGES
    ensures Total(Needs(map[root := []], hhdm, n)) == TablesFor(n)
  {
    if n > 0 {
      LowNeeds(root, hhdm, n - 1);
      NeedLow(root, hhdm, n - 1);
      TotalStep(map[root := []], hhdm, n);
    }
  }

  // ---------- init_kernel ----------

  /** The entries that init_kernel sets. */
  ghost predicate LowEntries(s: Space, hhdm: nat) {
    && s.tables.Keys == s.places.Keys
    && Entry(s, hhdm, 0) == MakeEntry(0, LeafFlags(NULL_FLAGS))
    && (forall k: nat {:trigger Entry(s, hhdm, k)} :: 0 < k < LOW_PAGES ==>
          Entry(s, hhdm, k) == RangeEntry(0, LOW_FLAGS, k))
    && forall path {:trigger EntryAt(s.tables, s.places, path)} ::
         ValidPath(path) && Outside(hhdm, LOW_PAGES, path) ==> EntryAt(s.tables, s.places, path) == 0
  }

  lemma FlagsFit()
    ensures LOW_FLAGS < Pow2(WORD) && NULL_FLAGS < Pow2(WORD)
  {
    Pow2Values();
  }

  lemma EmptyDisplacesNone(s: Space, v: nat, phys: nat, n: nat)
    requires s.tables.Keys == s.places.Keys
    requires forall path {:trigger EntryAt(s.tables, s.places, path)} :: ValidPath(path) ==>
               EntryAt(s.tables, s.places, path) == 0
    ensures DisplacesNone(s, v, phys, n) && SparesRange(s, v, phys, n)
  {
    ZeroNotPresent();
    forall k: nat | k < n ensures !DisplacesAt(s, v, phys, k) && SparesAt(s, v, phys, k) { WindowValid(v, k); }
  }

  lemma FlagsMap(flags: nat, k: nat)
    requires flags < Pow2(WORD) && k < LOW_PAGES
    ensures var e := MakeEntry(k * PAGE, LeafFlags(flags)); IsPresent(e) && FrameOf(e) == k * PAGE
  {
    FrameStart(k, k * PAGE);
    LeafMaps(k * PAGE, flags);
  }

  /** The page of address 0 is mapped a second time, without Writable: that takes no frame, and releases none. */
  lemma NullMapped(s: Space, s': Space, root: nat, hhdm: nat, ok: bool)
    requires Good(s, root) && Entry(s, hhdm, 0) == RangeEntry(0, LOW_FLAGS, 0)
    requires Mapped(s, s', root, Window(hhdm, 0), 0, MakeEntry(0, LeafFlags(NULL_FLAGS)), ok)
    ensures ok && s'.frames == s.frames && Spares(s, Window(hhdm, 0), 0)
  {
    var path := Window(hhdm, 0);
    WindowValid(hhdm, 0);
    FlagsFit();
    FlagsMap(LOW_FLAGS, 0);
    ZeroNotPresent();
    if Missing(s.tables, root, path[..DEPTH]) > 0 { NoLeaf(s, root, path); }
    assert Take(s.frames, 0) == s.frames;
  }

  /** The entries after both calls of map. */
  lemma EntriesThen(s0: Space, s: Space, s': Space, hhdm: nat)
    requires EntriesSet(s0, s, hhdm, RangeEntries(0, LOW_FLAGS, LOW_PAGES))
    requires forall path {:trigger EntryAt(s0.tables, s0.places, path)} :: ValidPath(path) ==>
               EntryAt(s0.tables, s0.places, path) == 0
    requires Remapped(s.tables, s.places, s'.tables, s'.places, Window(hhdm, 0), MakeEntry(0, LeafFlags(NULL_FLAGS)))
    ensures LowEntries(s', hhdm)
  {
    WindowValid(hhdm, 0);
    forall k: nat | 0 < k < LOW_PAGES ensures Entry(s', hhdm, k) == RangeEntry(0, LOW_FLAGS, k) {
      WindowValid(hhdm, k);
      WindowDistinct(hhdm, 0, k);
      assert Entry(s, hhdm, k) == RangeEntry(0, LOW_FLAGS, k);
    }
    forall q | ValidPath(q) && Outside(hhdm, LOW_PAGES, q) ensures EntryAt(s'.tables, s'.places, q) == 0 {
      assert q != Window(hhdm, 0);
      assert EntryAt(s.tables, s.places, q) == EntryAt(s0.tables, s0.places, q);
    }
  }

  lemma EntriesMap(s: Space, hhdm: nat)
    requires LowEntries(s, hhdm)
    ensures LowMapped(s, hhdm)
  {
    FlagsFit();
    FlagsMap(NULL_FLAGS, 0);
    forall k: nat | 0 < k < LOW_PAGES ensures IsPresent(Entry(s, hhdm, k)) && FrameOf(Entry(s, hhdm, k)) == k * PAGE {
      FlagsMap(LOW_FLAGS, k);
    }
  }

  /** Who may do what with the pages of the higher half, bit for bit: page k maps frame k (bits 12 to 51), is present
      (bit 0), is not executable (bit 63), and is writable (bit 1) unless k is 0; no other bit is set. */
  ghost predicate LowAccess(s: Space, hhdm: nat) {
    && s.tables.Keys == s.places.Keys
    && forall k: nat, b: nat {:trigger Bit(Entry(s, hhdm, k), b)} :: k < 0x10_0000 && b < 64 ==>
         (Bit(Entry(s, hhdm, k), b)
          <==> b == 0 || b == 63 || (b == 1 && k != 0) || (12 <= b < 52 && Bit(k * 4096, b)))
  }

  /** The bits of the flags that are passed. */
  lemma StartFlagBits(b: nat)
    requires b < 64
    ensures Bit(LOW_FLAGS, b) <==> b == 1 || b == 63
    ensures Bit(NULL_FLAGS, b) <==> b == 63
  {
    TopBit(0, 63, b);
    TopBit(2, 63, b);
    Pow2Values();
    ShrZero(b);
    TwoBit(b);
  }

  lemma TwoBit(b: nat)
    ensures Bit(2, b) <==> b == 1
  {
    if b > 0 { OneBit(b - 1); }
  }

  /** A bit above a smaller number. */
  lemma TopBit(y: nat, n: nat, b: nat)
    requires y < Pow2(n)
    ensures Bit(Pow2(n) + y, b) <==> b == n || Bit(y, b)
  {
    Pow2Add(0, n);
    OrConcat(1, y, n);
    OrBit(Up(1, n), y, b);
    FlagBit(n, b);
  }

  lemma EntriesAllow(s: Space, hhdm: nat)
    requires LowEntries(s, hhdm)
    ensures LowAccess(s, hhdm)
  {
    forall k: nat, b: nat | k < 0x10_0000 && b < 64
      ensures Bit(Entry(s, hhdm, k), b)
              <==> b == 0 || b == 63 || (b == 1 && k != 0) || (12 <= b < 52 && Bit(k * 4096, b))
    {
      var flags := if k == 0 then NULL_FLAGS else LOW_FLAGS;
      assert Entry(s, hhdm, k) == MakeEntry(k * PAGE, LeafFlags(flags));
      LeafEntryBits(k * PAGE, flags);
      StartFlagBits(b);
    }
  }

  /** The tables for the lower 4 GiB, below an empty root. */
  ghost function LowNeed(root: nat, hhdm: nat): nat {
    Total(Needs(map[root := []], hhdm, LOW_PAGES))
  }

  /** They are 2053 when the higher half starts where an entry of the root does. */
  lemma LowTables(root: nat, hhdm: nat)
    requires hhdm % ROOT_SPAN == 0
    ensures LowNeed(root, hhdm) == 2053
  {
    LowNeeds(root, hhdm, LOW_PAGES);
  }

  /** The range map of the lower 4 GiB in an empty tree. */
  lemma LowFits(s: Space, root: nat, hhdm: nat, frames: seq<bool>)
    requires FreeCount(frames) > 0 && s.frames == Take(frames, 1)
    requires s.tables.Keys == s.places.Keys && s.places == map[root := []]
    requires forall path {:trigger EntryAt(s.tables, s.places, path)} :: ValidPath(path) ==>
               EntryAt(s.tables, s.places, path) == 0
    ensures SparesRange(s, hhdm, 0, LOW_PAGES)
    ensures RangeFrames(s, hhdm, 0, LOW_PAGES) == Take(frames, 1 + LowNeed(root, hhdm))
    ensures RangeFits(s, hhdm, 0, LOW_PAGES) <==> FreeCount(frames) > LowNeed(root, hhdm)
  {
    EmptyDisplacesNone(s, hhdm, 0, LOW_PAGES);
    UnmappedRange(s, hhdm, 0, LOW_PAGES);
    TakeCount(frames, 1);
    TakeTake(frames, 1, LowNeed(root, hhdm));
  }

  /** The first call of map. */
  method MapLow(space: AddressSpace, hhdm: nat, ghost frames: seq<bool>) returns (ok: bool)
    requires space.Valid() && hhdm + LOW_MEMORY <= W64
    requires FreeCount(frames) > 0 && space.State().frames == Take(frames, 1)
    requires space.State().places == map[space.pml4 := []]
    requires forall path {:trigger EntryAt(space.tables, space.places, path)} :: ValidPath(path) ==>
               EntryAt(space.tables, space.places, path) == 0
    modifies space, space.pmm.bitmap, space.pmm.bitmap.words
    ensures space.Valid() && (ok <==> FreeCount(frames) > LowNeed(space.pml4, hhdm))
    ensures ok ==> space.State().frames == Take(frames, 1 + LowNeed(space.pml4, hhdm))
    ensures ok ==> EntriesSet(old(space.State()), space.State(), hhdm, RangeEntries(0, LOW_FLAGS, LOW_PAGES))
  {
    FlagsFit();
    ghost var n := LOW_PAGES;
    assert Pages(LOW_MEMORY) == n;
    LowFits(space.State(), space.pml4, hhdm, frames);
    ok := space.MapRange(hhdm, 0, LOW_MEMORY, LOW_FLAGS);
  }

  /** The start of init_kernel: the lower 4 GiB are mapped at the higher half, and the page of address 0 is not
      writable. */
  method InitKernel(manager: FrameAllocator.PhysicalMemoryManager, hhdm: nat) returns (space: AddressSpace, ok: bool)
    requires manager.Valid() && |manager.Frames()| <= MAX_FRAMES && FreeCount(manager.Frames()) > 0
    requires hhdm + LOW_MEMORY <= W64
    modifies manager.bitmap, manager.bitmap.words
    ensures fresh(space) && space.Valid() && space.pmm == manager && space.hhdm == hhdm
    ensures ok <==> FreeCount(old(manager.Frames())) > LowNeed(space.pml4, hhdm)
    ensures ok ==> space.State().frames == Take(old(manager.Frames()), 1 + LowNeed(space.pml4, hhdm))
    ensures ok ==> LowEntries(space.State(), hhdm) && LowMapped(space.State(), hhdm) && LowAccess(space.State(), hhdm)
  {
    ghost var frames := manager.Frames();
    space := new AddressSpace(manager, hhdm);
    ghost var s0 := space.State();
    ok := MapLow(space, hhdm, frames);
    if !ok {
      return;
    }
    ghost var s := space.State();
    assert Entry(s, hhdm, 0) == RangeEntry(0, LOW_FLAGS, 0);
    FlagsFit();
    ok := space.Map(hhdm, 0, NULL_FLAGS);
    NullMapped(s, space.State(), space.pml4, hhdm, ok);
    EntriesThen(s0, s, space.State(), hhdm);
    EntriesMap(space.State(), hhdm);
    EntriesAllow(space.State(), hhdm);
  }

  // ---------- what that means ----------

  /** virt2phys undoes tohh on the lower 4 GiB. */
  lemma LowTranslates(s: Space, hhdm: nat, x: nat)
    requires LowMapped(s, hhdm) && hhdm % PAGE == 0 && x < LOW_MEMORY
    ensures Translate(EntryAt(s.tables, s.places, Path(hhdm + x)), hhdm + x) == x
  {
    var k, e := x / PAGE, Entry(s, hhdm, x / PAGE);
    LowPage(hhdm, x, k);
    assert IsPresent(e) && FrameOf(e) == k * PAGE;
    JoinOffset(e, hhdm + x);
  }

  lemma LowPage(hhdm: nat, x: nat, k: nat)
    requires hhdm % PAGE == 0 && k == x / PAGE
    ensures Path(hhdm + x) == Window(hhdm, k) && k * PAGE + (hhdm + x) % PAGE == x
  {
    SplitPage(hhdm / PAGE, x, hhdm + x);
    PageOf(hhdm, k);
    SamePath(hhdm + k * PAGE, hhdm + x);
  }

  lemma SplitPage(h: nat, x: nat, y: nat)
    requires y == h * PAGE + x
    ensures y / PAGE == h + x / PAGE && y % PAGE == x % PAGE
  {}

  lemma LowEntry(s: Space, hhdm: nat, v: nat, m: nat, k: nat)
    requires LowMapped(s, hhdm) && v == hhdm + m * PAGE && m + k < LOW_PAGES
    ensures IsPresent(Entry(s, v, k)) && FrameOf(Entry(s, v, k)) == m * PAGE + k * PAGE
  {
    WindowIs(hhdm, m + k, v + k * PAGE);
    assert Entry(s, v, k) == Entry(s, hhdm, m + k);
  }

  /** While that map is in place, allocate does what it is for exactly when the lowest free frames are consecutive. */
  lemma LowRun(s: Space, root: nat, hhdm: nat, v: nat, p: Plan, count: nat)
    requires Good(s, root) && LowMapped(s, hhdm) && v == Base(s.frames, hhdm) && p == PlanOf(s, v, count)
    requires 0 < count <= FreeCount(s.frames) && Lowest(s.frames) + count <= LOW_PAGES
    ensures Enough(p) && (Clean(p, count) <==> Consecutive(s.frames, count))
  {
    CountZero(s.frames);
    forall k: nat | k < count
      ensures IsPresent(p.pages[k].entry) && FrameOf(p.pages[k].entry) == LowestAddress(s.frames) + k * PAGE
    {
      LowEntry(s, hhdm, v, Lowest(s.frames), k);
    }
    IdentityRun(s, root, v, count);
  }
}
