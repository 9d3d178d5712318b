/** An address space: pages mapped to frames by a radix tree whose tables are frames of the allocator. */
module AddressSpaces {
  import opened Units
  import opened Words
  import opened PageEntry
  import opened PageTree
  import opened FreeFrames
  import opened SpaceChanges
  import opened FrameRuns
  import opened FrameAllocator
  import opened SpaceSteps
  import opened PageRuns
  import opened PageRanges
  import opened PageAllocation

  lemma RoundsDown(virt: nat)
    requires virt < W64
    ensures PAGE <= Pow2(WORD) && RoundDown(virt, PAGE) == virt / PAGE * PAGE
  {
    Pow2Values();
    MaskRounds(virt, PAGE, PAGE_BITS, WORD);
  }

  class AddressSpace {
    const pmm: PhysicalMemoryManager
    const pml4: nat
    const hhdm: nat                 // where the higher-half map of physical memory starts
    var tables: Tables
    ghost var places: Places

    ghost predicate Valid()
      reads this, pmm.bitmap, pmm.bitmap.words
    {
      pmm.Valid() && Good(State(), pml4)
    }

    /** The tables are a tree, whatever the frames are: what walking and unmapping need. */
    ghost predicate Walkable()
      reads this, pmm.bitmap, pmm.bitmap.words
    {
      pmm.Valid() && Tree(tables, places, pml4)
    }

    ghost function State(): Space
      requires pmm.Valid()
      reads this, pmm.bitmap, pmm.bitmap.words
    {
      Space(tables, places, pmm.Frames())
    }

    /** Mapping the i-th page from v to the lowest free frame releases no table's frame. */
    ghost predicate Ready(v: nat, i: nat)
      requires Walkable()
      reads this, pmm.bitmap, pmm.bitmap.words
    {
      PathReady(State(), Window(v, i))
    }

    /** The entry of the page at `virt`, 0 when it has no leaf table. */
    ghost function EntryOf(virt: nat): nat
      requires Walkable()
      reads this, pmm.bitmap, pmm.bitmap.words
    {
      EntryAt(tables, places, Path(virt))
    }

    /** The start of init_kernel, which panics when no frame is free: an empty root table. */
    constructor (manager: PhysicalMemoryManager, offset: nat)
      requires manager.Valid() && |manager.Frames()| <= MAX_FRAMES && FreeCount(manager.Frames()) > 0
      modifies manager.bitmap, manager.bitmap.words
      ensures Valid() && pmm == manager && hhdm == offset && State().frames == Take(old(manager.Frames()), 1)
      ensures pml4 == Lowest(old(manager.Frames())) * PAGE
      ensures tables == map[pml4 := Zeros()] && places == map[pml4 := []]
      ensures forall path {:trigger EntryAt(tables, places, path)} :: ValidPath(path) ==>
                EntryAt(tables, places, path) == 0
    {
      ghost var frames := manager.Frames();
      CountZero(frames);
      var frame := manager.AllocateFrame();
      TakeOne(frames, frame / PAGE);
      EmptyTree(frame);
      NewTableUsed(map[], map[frame := Zeros()], frames, frame);
      pmm := manager;
      hhdm := offset;
      pml4 := frame;
      tables := map[frame := Zeros()];
      places := map[frame := []];
    }

    /** The last part of create_table: the table in `frame` is zeroed and linked from entry i of table t. */
    method StoreTable(t: nat, i: nat, frame: nat, flags: nat)
      requires pmm.Valid() && t in tables && t in places && i < |tables[t]|
      modifies `tables, `places
      ensures pmm.Valid() && pmm.Frames() == old(pmm.Frames())
      ensures tables == NewTables(old(tables), t, i, frame, flags) && places == NewPlaces(old(places), t, i, frame)
    {
      tables := NewTables(tables, t, i, frame, flags);
      places := NewPlaces(places, t, i, frame);
    }

    /** create_table, in entry i of table t. */
    method CreateTable(t: nat, i: nat, flags: nat) returns (r: Step)
      requires Valid() && HasEntry(State(), t, i) && !IsPresent(tables[t][i]) && TableFlags(flags)
      modifies this, pmm.bitmap, pmm.bitmap.words
      ensures Valid() && Created(old(State()), State(), t, i, flags, r) && Linked(old(State()), State(), flags)
    {
      ghost var s := State();
      var frame := pmm.AllocateFrame();
      CountZero(s.frames);
      if frame < 0 {
        NotCreated(s, pml4, t, i, flags);
        LinkedSelf(s, flags);
        return Halted;
      }
      TableCreated(s, pml4, t, i, frame, flags);
      StoreTable(t, i, frame, flags);
      CreateLinks(s, State(), t, i, frame, flags);
      r := Next(frame);
      assert State() == Space(NewTables(s.tables, t, i, frame, flags), NewPlaces(s.places, t, i, frame),
                              Take(s.frames, 1));
    }

    method GetNextTable(t: nat, i: nat, flags: nat, allocate: bool) returns (r: Step)
      requires Walkable() && HasEntry(State(), t, i) && (allocate ==> Valid() && TableFlags(flags))
      modifies this, pmm.bitmap, pmm.bitmap.words
      ensures Walkable() && (allocate ==> Valid()) && Stepped(old(State()), State(), t, i, flags, allocate, r)
      ensures Linked(old(State()), State(), flags)
    {
      LinkedSelf(State(), flags);
      var entry := tables[t][i];
      if IsPresent(entry) {
        return Next(FrameOf(entry));
      }
      if !allocate {
        return Absent;
      }
      r := CreateTable(t, i, flags);
    }

    /** One step of virt2pte: get_next_table for index d of the path. */
    method Descend(ghost s0: Space, d: nat, t: nat, path: seq<nat>, flags: nat, allocate: bool) returns (r: Step)
      requires Walkable() && d < DEPTH && (allocate ==> Valid() && TableFlags(flags))
      requires Way(s0, State(), pml4, path, d, t) && (!allocate ==> State() == s0) && Linked(s0, State(), flags)
      modifies this, pmm.bitmap, pmm.bitmap.words
      ensures Walkable() && (if allocate then Valid() else State() == s0)
      ensures r.Next? ==> Way(s0, State(), pml4, path, d + 1, r.table)
      ensures !r.Next? ==> Walked(s0, State(), pml4, path, allocate, r)
      ensures Linked(s0, State(), flags)
    {
      ghost var s := State();
      WayReady(s0, s, pml4, path, d, t);
      var present := IsPresent(tables[t][path[d]]);
      r := GetNextTable(t, path[d], flags, allocate);
      WayLinked(s0, s, State(), pml4, path, d, t, flags, allocate, r);
      if present {
        WayAlong(s0, s, pml4, path, d, t);
      } else if allocate {
        WayCreated(s0, s, State(), pml4, path, d, t, flags, r);
      } else {
        WayBreaks(s, pml4, path, d, t);
      }
    }

    /** The last step of virt2pte: from a page directory to the page table. */
    method FromDirectory(ghost s: Space, pd: nat, path: seq<nat>, flags: nat, allocate: bool) returns (r: Step)
      requires Walkable() && (allocate ==> Valid() && TableFlags(flags))
      requires Way(s, State(), pml4, path, 2, pd) && (!allocate ==> State() == s) && Linked(s, State(), flags)
      modifies this, pmm.bitmap, pmm.bitmap.words
      ensures Walkable() && (allocate ==> Valid()) && Walked(s, State(), pml4, path, allocate, r)
      ensures Linked(s, State(), flags)
    {
      r := Descend(s, 2, pd, path, flags, allocate);
      if r.Next? {
        WayEnds(s, State(), pml4, path, r.table, allocate);
      }
    }

    /** The last two steps. */
    method FromDirectoryPointers(ghost s: Space, pdp: nat, path: seq<nat>, flags: nat, allocate: bool) returns (r: Step)
      requires Walkable() && (allocate ==> Valid() && TableFlags(flags))
      requires Way(s, State(), pml4, path, 1, pdp) && (!allocate ==> State() == s) && Linked(s, State(), flags)
      modifies this, pmm.bitmap, pmm.bitmap.words
      ensures Walkable() && (allocate ==> Valid()) && Walked(s, State(), pml4, path, allocate, r)
      ensures Linked(s, State(), flags)
    {
      r := Descend(s, 1, pdp, path, flags, allocate);
      if r.Next? {
        r := FromDirectory(s, r.table, path, flags, allocate);
      }
    }

    /** The three tables that virt2pte goes through below the root. */
    method LeafTableOf(path: seq<nat>, flags: nat, allocate: bool) returns (r: Step)
      requires Walkable() && (allocate ==> Valid() && TableFlags(flags)) && ValidPath(path)
      modifies this, pmm.bitmap, pmm.bitmap.words
      ensures Walkable() && (allocate ==> Valid()) && Walked(old(State()), State(), pml4, path, allocate, r)
      ensures Linked(old(State()), State(), flags)
    {
      ghost var s := State();
      WayStart(s, pml4, path);
      LinkedSelf(s, flags);
      r := Descend(s, 0, pml4, path, flags, allocate);
      if r.Next? {
        r := FromDirectoryPointers(s, r.table, path, flags, allocate);
      }
    }

    method Virt2Pte(virt: nat, flags: nat, allocate: bool) returns (r: Step, index: nat)
      requires Walkable() && (allocate ==> Valid() && TableFlags(flags))
      modifies this, pmm.bitmap, pmm.bitmap.words
      ensures Walkable() && (allocate ==> Valid()) && Walked(old(State()), State(), pml4, Path(virt), allocate, r)
      ensures index == Path(virt)[DEPTH] < ENTRIES && Linked(old(State()), State(), flags)
    {
      Indices(virt);
      var path := Path(virt);
      r := LeafTableOf(path, flags, allocate);
      index := PtIndex(virt);
    }

    /** release_frame; it panics when the address is unaligned or the frame is not in use. */
    method ReleaseFrame(frame: nat) returns (ok: bool)
      requires Walkable()
      modifies pmm.bitmap, pmm.bitmap.words
      ensures Walkable() && (ok <==> frame % PAGE == 0 && InUse(old(pmm.Frames()), frame))
      ensures State() == if ok then old(State()).(frames := AfterRelease(old(pmm.Frames()), frame)) else old(State())
      ensures frame !in tables ==> Reaches(old(State()), State())
    {
      ReleaseReaches(State(), frame);
      ok := pmm.ReleaseFrame(frame);
    }

    /** set_raw, on entry i of table t. */
    method StoreEntry(t: nat, i: nat, raw: nat)
      requires pmm.Valid() && t in tables && i < |tables[t]|
      modifies `tables
      ensures pmm.Valid() && State() == old(State()).(tables := SetEntry(old(tables), t, i, raw))
    {
      tables := SetEntry(tables, t, i, raw);
    }

    /** The part of map that follows virt2pte. */
    method SetLeaf(ghost s: Space, ghost path: seq<nat>, t: nat, i: nat, phys: nat, raw: nat, ghost flags: nat)
      returns (ok: bool)
      requires Valid() && Good(s, pml4) && ValidPath(path) && i == path[DEPTH] && raw < W64
      requires Walked(s, State(), pml4, path, true, Next(t)) && Linked(s, State(), flags)
      modifies this, pmm.bitmap, pmm.bitmap.words
      ensures Walkable() && Mapped(s, State(), pml4, path, phys, raw, ok) && Linked(s, State(), flags)
    {
      ghost var s1 := State();
      FoundEntry(s, s1, pml4, path, true, t);
      var entry := tables[t][i];
      FrameBits(entry);
      if Displaces(entry, phys) {
        ok := ReleaseFrame(FrameOf(entry));
        if !ok {
          NotReplaced(s, s1, pml4, path, t, phys, raw);
          return;
        }
      }
      EntrySet(s, s1, MapEntry(s1, t, i, phys, raw), pml4, path, t, phys, raw);
      StoreEntry(t, i, raw);
      assert State() == MapEntry(s1, t, i, phys, raw);
      SetLinks(s, s1, State(), t, i, raw, flags);
      ok := true;
    }

    method Map(virt: nat, phys: nat, flags: nat) returns (ok: bool)
      requires Valid() && flags < Pow2(WORD)
      modifies this, pmm.bitmap, pmm.bitmap.words
      ensures Walkable() && (Spares(old(State()), Path(virt), phys) ==> Valid())
      ensures Mapped(old(State()), State(), pml4, Path(virt), phys, MakeEntry(phys, LeafFlags(flags)), ok)
      ensures Linked(old(State()), State(), flags) && (ok ==> LeafBits(EntryOf(virt), phys, flags))
    {
      ghost var s, path := State(), Path(virt);
      Indices(virt);
      var pdFlags, pteFlags := FixFlags(flags);
      EntryRoundTrip(phys, pteFlags);
      var r, i := Virt2Pte(virt, pdFlags, true);
      LinkedFor(s, State(), pdFlags, flags);
      if r.Halted? {
        NotMapped(s, State(), pml4, path, phys, MakeEntry(phys, pteFlags));
        return false;
      }
      ok := SetLeaf(s, path, r.table, i, phys, MakeEntry(phys, pteFlags), flags);
      LeafEntryBits(phys, flags);
      MapKeepsGood(s, State(), pml4, path, phys, MakeEntry(phys, pteFlags), ok);
    }

    /** The part of unmap that follows virt2pte. */
    method ClearLeaf(ghost path: seq<nat>, t: nat, i: nat) returns (ok: bool)
      requires Walkable() && ValidPath(path) && i == path[DEPTH] && At(places, t, path[..DEPTH])
      modifies this, pmm.bitmap, pmm.bitmap.words
      ensures Walkable() && Unmapped(old(State()), State(), path, ok)
    {
      ghost var s := State();
      EntryOfTable(tables, places, pml4, path, t);
      var entry := tables[t][i];
      if !IsPresent(entry) {
        NotUnmapped(s, path);
        return true;
      }
      FrameBits(entry);
      StoreEntry(t, i, 0);
      ok := pmm.ReleaseFrame(FrameOf(entry));
      EntryCleared(s, State(), pml4, path, t);
    }

    method Unmap(virt: nat) returns (ok: bool)
      requires Walkable()
      modifies this, pmm.bitmap, pmm.bitmap.words
      ensures Walkable() && Unmapped(old(State()), State(), Path(virt), ok)
      ensures old(Valid()) && SparesTables(old(State()), Path(virt)) ==> Valid()
    {
      ghost var s, path := State(), Path(virt);
      Indices(virt);
      var r, i := Virt2Pte(virt, 0, false);
      if r.Absent? {
        NoLeaf(s, pml4, path);
        ZeroNotPresent();
        NotUnmapped(s, path);
        return true;
      }
      ok := ClearLeaf(path, r.table, i);
      UnmapKeepsGood(s, State(), pml4, path, ok);
    }

    /** virt2phys */
    method Virt2Phys(virt: nat) returns (phys: int)
      requires Walkable()
      modifies this, pmm.bitmap, pmm.bitmap.words
      ensures Walkable() && State() == old(State())
      ensures phys == Translate(EntryOf(virt), virt)
    {
      ghost var s, path := State(), Path(virt);
      Indices(virt);
      var r, i := Virt2Pte(virt, 0, false);
      if r.Absent? {
        NoLeaf(s, pml4, path);
        ZeroNotPresent();
        return -1;
      }
      EntryOfTable(tables, places, pml4, path, r.table);
      var entry := tables[r.table][i];
      phys := if IsPresent(entry) then Or(FrameOf(entry), And(virt, PAGE - 1)) else -1;
    }

    /** One step of a range map. */
    method MapNext(ghost s0: Space, ghost v: nat, ghost p: nat, flags: nat, ghost i: nat, ghost n: nat,
                   virt: nat, phys: nat) returns (ok: bool)
      requires Valid() && flags < Pow2(WORD) && Mapping(s0, State(), v, p, flags, i) && i < n <= MAX_PAGES
      requires Growing(s0, State(), v, p, i) && virt == v + i * PAGE && phys == p + i * PAGE && Reaches(s0, State())
      requires SparesRange(s0, v, p, n)
      modifies this, pmm.bitmap, pmm.bitmap.words
      ensures Valid() && Reaches(s0, State())
      ensures ok ==> Mapping(s0, State(), v, p, flags, i + 1) && Growing(s0, State(), v, p, i + 1)
      ensures !ok ==> !RangeFits(s0, v, p, n) && (Lowest(pmm.Frames()) == -1 || PanicsReleasing(s0, v, p, n))
    {
      ghost var s, path, raw := State(), Path(virt), MakeEntry(phys, LeafFlags(flags));
      WindowIs(v, i, virt);
      MapReady(s0, s, v, p, flags, i, n, path, phys);
      ok := Map(virt, phys, flags);
      ReachesFurther(s0, s, State());
      GrowOneMore(s0, s, State(), pml4, v, p, i, path, phys, raw, ok);
      if ok {
        MapOneMore(s0, s, State(), pml4, v, p, flags, i, path, phys, raw);
      } else {
        MapExhausts(s0, s, State(), pml4, v, p, i, n, path, phys, raw);
      }
    }

    /** One step of a range unmap. */
    method UnmapNext(ghost s0: Space, ghost v: nat, ghost i: nat, ghost n: nat, virt: nat) returns (ok: bool)
      requires Walkable() && Dropping(s0, State(), v, i) && i < n <= MAX_PAGES && virt == v + i * PAGE
      requires Sparing(s0, State(), v, n)
      modifies this, pmm.bitmap, pmm.bitmap.words
      ensures Walkable() && (if ok then Dropping(s0, State(), v, i + 1) else !Orderly(s0, v, n))
      ensures Sparing(s0, State(), v, n)
    {
      ghost var s, path := State(), Path(virt);
      WindowIs(v, i, virt);
      ok := Unmap(virt);
      DropSpares(s0, s, State(), v, i, n, path, ok);
      DropOneMore(s0, s, State(), v, i, n, path, ok);
    }

    /** map on an AddressRange; it panics exactly when the tables that a page needs do not find frames enough, or the
        frame that it displaces is not in use. */
    method MapRange(virt: nat, phys: nat, size: nat, flags: nat) returns (ok: bool)
      requires Valid() && flags < Pow2(WORD)
      requires virt + size <= W64 && phys + size <= W64 && Pages(size) <= MAX_PAGES
      requires SparesRange(State(), virt, phys, Pages(size))
      modifies this, pmm.bitmap, pmm.bitmap.words
      ensures Valid() && Reaches(old(State()), State()) && (ok <==> RangeFits(old(State()), virt, phys, Pages(size)))
      ensures ok ==> EntriesSet(old(State()), State(), virt, RangeEntries(phys, flags, Pages(size)))
      ensures ok ==> pmm.Frames() == RangeFrames(old(State()), virt, phys, Pages(size))
      ensures !ok ==> Lowest(pmm.Frames()) == -1 || PanicsReleasing(old(State()), virt, phys, Pages(size))
    {
      ghost var s0, n, i: nat := State(), Pages(size), 0;
      MapNone(s0, virt, phys, flags);
      ReachesSelf(s0);
      var offset := 0;
      while offset < size
        invariant offset == i * PAGE && i <= n
        invariant Valid() && Mapping(s0, State(), virt, phys, flags, i) && Growing(s0, State(), virt, phys, i)
                  && Reaches(s0, State())
        decreases size - offset
      {
        NextPage(size, offset, i, n);
        ok := MapNext(s0, virt, phys, flags, i, n, virt + offset, phys + offset);
        if !ok {
          return;
        }
        offset, i := offset + PAGE, i + 1;
      }
      NextPage(size, offset, i, n);
      ok := true;
    }

    /** One turn of the loop of unmap, at an offset within the range. */
    method UnmapAt(ghost s0: Space, virt: nat, ghost size: nat, ghost i: nat, ghost n: nat, offset: nat)
      returns (ok: bool)
      requires Walkable() && Dropping(s0, State(), virt, i) && Sparing(s0, State(), virt, n)
      requires offset == i * PAGE && offset < size && n == Pages(size) <= MAX_PAGES
      modifies this, pmm.bitmap, pmm.bitmap.words
      ensures Walkable() && (if ok then Dropping(s0, State(), virt, i + 1) else !Orderly(s0, virt, n))
      ensures Sparing(s0, State(), virt, n) && i < n && offset + PAGE == (i + 1) * PAGE
    {
      NextPage(size, offset, i, n);
      ok := UnmapNext(s0, virt, i, n, virt + offset);
    }

    /** unmap on an AddressRange; it panics exactly when the turn comes of a page whose frame is not in use. */
    method UnmapRange(virt: nat, size: nat) returns (ok: bool)
      requires Walkable() && virt + size <= W64 && Pages(size) <= MAX_PAGES
      modifies this, pmm.bitmap, pmm.bitmap.words
      ensures Walkable() && (ok <==> Orderly(old(State()), virt, Pages(size)))
      ensures ok ==> Dropping(old(State()), State(), virt, Pages(size))
      ensures Sparing(old(State()), State(), virt, Pages(size))
    {
      ghost var s0, n, i: nat := State(), Pages(size), 0;
      DropNone(s0, virt);
      SparingNone(s0, virt, n);
      var offset := 0;
      while offset < size
        invariant offset == i * PAGE && i <= n
        invariant Walkable() && Dropping(s0, State(), virt, i) && Sparing(s0, State(), virt, n)
        decreases size - offset
      {
        ok := UnmapAt(s0, virt, size, i, n, offset);
        if !ok {
          return;
        }
        offset, i := offset + PAGE, i + 1;
      }
      NextPage(size, offset, i, n);
      ok := true;
    }

    /** The loop of release. */
    method ReleasePages(v: nat, count: nat) returns (ok: bool)
      requires Walkable() && count <= MAX_PAGES
      modifies this, pmm.bitmap, pmm.bitmap.words
      ensures Walkable() && (ok <==> Orderly(old(State()), v, count))
              && (ok ==> Dropping(old(State()), State(), v, count))
      ensures Sparing(old(State()), State(), v, count)
    {
      ghost var s0 := State();
      DropNone(s0, v);
      SparingNone(s0, v, count);
      for i := 0 to count
        invariant Walkable() && Dropping(s0, State(), v, i) && Sparing(s0, State(), v, count)
      {
        ok := UnmapNext(s0, v, i, count, v + i * PAGE);
        if !ok {
          return;
        }
      }
      ok := true;
    }

    /** release */
    method Release(virt: nat, count: nat) returns (ok: bool)
      requires Walkable() && virt < W64 && count <= MAX_PAGES
      modifies this, pmm.bitmap, pmm.bitmap.words
      ensures Walkable() && (ok <==> Orderly(old(State()), virt / PAGE * PAGE, count))
      ensures ok ==> Dropping(old(State()), State(), virt / PAGE * PAGE, count)
      ensures Sparing(old(State()), State(), virt / PAGE * PAGE, count)
    {
      RoundsDown(virt);
      ok := ReleasePages(RoundDown(virt, PAGE), count);
    }

    /** allocate_frame */
    method TakeFrame() returns (frame: int)
      requires Valid()
      modifies pmm.bitmap, pmm.bitmap.words
      ensures Valid() && State() == old(State()).(frames := Take(old(pmm.Frames()), 1))
              && Reaches(old(State()), State())
      ensures frame == if Lowest(old(pmm.Frames())) < 0 then -1 else Lowest(old(pmm.Frames())) * PAGE
    {
      ReachesOne(State(), HandOut, State().(frames := Take(pmm.Frames(), 1)));
      TakeKeepsTables(tables, pmm.Frames());
      frame := pmm.AllocateFrame();
    }

    /** One page of allocate, once it has its frame. */
    method MapNew(ghost s0: Space, ghost s: Space, ghost v: nat, ghost p: Plan, ghost i: nat, ghost path: seq<nat>,
                  virt: nat, frame: nat, flags: nat) returns (ok: bool)
      requires Valid() && flags < Pow2(WORD) && Allocating(s0, s, v, p, flags, i) && i < |p.pages| && i < MAX_PAGES
      requires Lowest(s.frames) >= 0 && frame == LowestAddress(s.frames) && State() == s.(frames := Take(s.frames, 1))
      requires virt == v + i * PAGE && path == Window(v, i) && |path| == DEPTH + 1
      modifies this, pmm.bitmap, pmm.bitmap.words
      ensures Walkable() && s.tables.Keys == s.places.Keys
      ensures Spares(s, path, frame) ==> Valid() && MappedNew(s0, s, State(), v, p, flags, i, ok)
      ensures !Spares(s, path, frame) ==> ok && LosesTable(State(), p.pages[i].entry)
    {
      ghost var s1, raw := State(), MakeEntry(frame, LeafFlags(flags));
      WindowIs(v, i, virt);
      assert EntryOf(virt) == EntryAt(s.tables, s.places, path);
      ok := Map(virt, frame, flags);
      if Spares(s, path, frame) {
        NewMapped(s0, s, s1, State(), pml4, v, p, flags, i, frame, path, raw, ok);
      } else {
        NewMappedLoses(s0, s, s1, State(), pml4, v, p, flags, i, frame, path, raw, ok);
      }
    }

    /** A frame for the i-th page, and its mapping, whatever the page maps before.  If that is the frame of a table, the
        frame is free afterwards, and the table is in use all the same. */
    method AllocatePage(ghost s0: Space, first: nat, ghost p: Plan, i: nat, flags: nat) returns (frame: int, ok: bool)
      requires Valid() && flags < Pow2(WORD) && Allocating(s0, State(), first, p, flags, i) && i < |p.pages|
      requires Lowest(pmm.Frames()) >= 0 ==> i < MAX_PAGES
      modifies this, pmm.bitmap, pmm.bitmap.words
      ensures Walkable() && (frame < 0 <==> old(Lowest(pmm.Frames())) < 0)
      ensures frame < 0 ==> State() == old(State())
      ensures frame >= 0 && old(Ready(first, i)) ==>
                Valid() && MappedNew(s0, old(State()), State(), first, p, flags, i, ok)
      ensures frame >= 0 && !old(Ready(first, i)) ==> ok && LosesTable(State(), p.pages[i].entry)
    {
      ghost var s, path := State(), Window(first, i);
      WindowValid(first, i);
      CountZero(s.frames);
      frame := TakeFrame();
      ok := false;
      if frame < 0 {
        NoMoreToTake(s.frames, 0, 1);
        return;
      }
      ok := MapNew(s0, s, first, p, i, path, first + i * PAGE, frame, flags);
    }

    /** The branch of allocate for which no frame is left: the i pages mapped so far are released. */
    method RollBack(ghost s0: Space, first: nat, ghost p: Plan, i: nat, flags: nat) returns (ok: bool)
      requires Valid() && Good(s0, pml4) && flags < Pow2(WORD) && Midway(s0, State(), first, p, flags, i)
      requires i > 0 && Lowest(pmm.Frames()) < 0 && first == Base(s0.frames, hhdm) && HigherHalfFits(s0.frames, hhdm)
      modifies this, pmm.bitmap, pmm.bitmap.words
      ensures Walkable() && (RunKept(p) ==> Reaches(old(State()), State()))
      ensures if ok then RolledBack(s0, State(), first, p, flags) else PanicsRollingBack(s0, first, p, flags)
    {
      ghost var s := State();
      RollBackReady(s0, s, pml4, hhdm, first, p, flags, i);
      assert RanOut(s0, s, first, p, flags, i);
      ok := Release(first, i);
    }

    /** The loop of allocate, for the pages after the first. */
    method MapOthers(ghost s0: Space, first: nat, ghost p: Plan, count: nat, flags: nat) returns (r: Allocation)
      requires Valid() && Good(s0, pml4) && flags < Pow2(WORD) && SparesRun(s0.tables, p)
      requires first == Base(s0.frames, hhdm) && HigherHalfFits(s0.frames, hhdm)
      requires 0 < count == |p.pages| && Allocating(s0, State(), first, p, flags, 1) && Reaches(s0, State())
      modifies this, pmm.bitmap, pmm.bitmap.words
      ensures Walkable() && AllocatedPlan(s0, State(), first, p, flags, r)
    {
      for i := 1 to count
        invariant Valid() && Allocating(s0, State(), first, p, flags, i) && Reaches(s0, State())
      {
        ghost var s := State();
        if Lowest(s.frames) >= 0 { AllocReady(s0, s, pml4, first, p, flags, i, Window(first, i)); }
        var frame, ok := AllocatePage(s0, first, p, i, flags);
        if frame < 0 {
          ok := RollBack(s0, first, p, i, flags);
          if RunKept(p) { ReachesFurther(s0, s, State()); }
          return if ok then Nothing else Failed;
        }
        ReachesFurther(s0, s, State());
        if !ok {
          return Failed;
        }
      }
      r := Run(first);
    }

    /** The first page of allocate. */
    method MapFirst(ghost s0: Space, first: nat, ghost p: Plan, frame: nat, flags: nat) returns (ok: bool)
      requires Valid() && Good(s0, pml4) && flags < Pow2(WORD) && Lowest(s0.frames) >= 0 && SparesRun(s0.tables, p)
      requires p == PlanOf(s0, first, |p.pages|) && |p.pages| > 0
      requires State() == s0.(frames := Take(s0.frames, 1)) && frame == LowestAddress(s0.frames)
      modifies this, pmm.bitmap, pmm.bitmap.words
      ensures Valid() && if ok then Allocating(s0, State(), first, p, flags, 1) else PanicsMapping(p)
      ensures Reaches(s0, State())
    {
      ghost var path := Window(first, 0);
      AllocNone(s0, first, p, flags);
      AllocReady(s0, s0, pml4, first, p, flags, 0, path);
      ok := MapNew(s0, s0, first, p, 0, path, first, frame, flags);
    }

    /** allocate, once there is a frame for the first page. */
    method AllocateFrom(ghost s0: Space, first: nat, ghost p: Plan, frame: nat, count: nat, flags: nat)
      returns (r: Allocation)
      requires Valid() && Good(s0, pml4) && flags < Pow2(WORD) && Lowest(s0.frames) >= 0 && SparesRun(s0.tables, p)
      requires first == Base(s0.frames, hhdm) && HigherHalfFits(s0.frames, hhdm)
      requires 0 < count == |p.pages| && p == PlanOf(s0, first, |p.pages|)
      requires State() == s0.(frames := Take(s0.frames, 1)) && frame == LowestAddress(s0.frames)
      modifies this, pmm.bitmap, pmm.bitmap.words
      ensures Walkable() && AllocatedPlan(s0, State(), first, p, flags, r)
    {
      var ok := MapFirst(s0, first, p, frame, flags);
      if !ok {
        return Failed;
      }
      r := MapOthers(s0, first, p, count, flags);
    }

    /** allocate */
    method Allocate(count: nat, flags: nat) returns (r: Allocation)
      requires Valid() && flags < Pow2(WORD) && Prepared(State(), hhdm, count)
      modifies this, pmm.bitmap, pmm.bitmap.words
      ensures Walkable() && AllocatedRun(old(State()), State(), hhdm, count, flags, r)
      ensures Reaches(old(State()), State()) ==> Valid()
    {
      ghost var s0 := State();
      if count == 0 {
        return Nothing;
      }
      CountZero(s0.frames);
      var frame := TakeFrame();
      if frame < 0 {
        NoMoreToTake(s0.frames, 0, 1);
        return Nothing;
      }
      ghost var p := PlanOf(s0, Base(s0.frames, hhdm), count);
      r := AllocateFrom(s0, frame + hhdm, p, frame, count, flags);
      if Reaches(s0, State()) { ReachesGood(s0, State(), pml4); }
    }
  }

  /** When a run that has been allocated is released, its pages are unmapped, its frames are free again, and every other
      page is as it was; where no table was missing, the frames are as before. */
  method AllocateThenRelease(space: AddressSpace, count: nat, flags: nat, ghost v: nat, ghost p: Plan)
    requires space.Valid() && flags < Pow2(WORD) && Prepared(space.State(), space.hhdm, count) && 0 < count
    requires v == Base(space.State().frames, space.hhdm) && p == PlanOf(space.State(), v, count)
    requires Enough(p) && Clean(p, count)
    modifies space, space.pmm.bitmap, space.pmm.bitmap.words
    ensures space.Valid() && space.pmm.Frames() == Returned(p, count, count)
    ensures Position(p.pages, count) == count ==> space.pmm.Frames() == old(space.pmm.Frames())
    ensures EntriesSet(old(space.State()), space.State(), v, Blank(count))
  {
    ghost var s0 := space.State();
    var run := space.Allocate(count, flags);
    ghost var s := space.State();
    CleanRunReleasable(s0, s, space.pml4, space.hhdm, v, p, flags, count, run);
    var ok := space.Release(run.virt, count);
    CleanRunReleased(s0, s, space.State(), space.pml4, v, p, flags, count);
  }
}
