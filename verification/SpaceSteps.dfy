/** What the operations of an address space do to its page tables and to the frames of the allocator. */
module SpaceSteps {
  import opened Units
  import opened Words
  import opened PageEntry
  import opened PageTree
  import opened FreeFrames
  import opened SpaceChanges

  /** What a step to a table finds: the table, none (a null pointer), or a panic because no frame is free. */
  datatype Step = Next(table: nat) | Absent | Halted

  /** New tables lie in frames that were free, and no frame is released. */
  ghost predicate TakesOnly(s: Space, s': Space) {
    && (forall t {:trigger t in s'.tables} :: t in s'.tables ==> t in s.tables || !InUse(s.frames, t))
    && |s.frames| == |s'.frames| && forall n :: 0 <= n < |s.frames| && s.frames[n] ==> s'.frames[n]
  }

  /** Changes after which no page has changed, no table has moved, and no frame has been released. */
  ghost predicate Same(s: Space, s': Space) {
    && SamePages(s.tables, s.places, s'.tables, s'.places) && Grown(s.places, s'.places) && TakesOnly(s, s')
    && Reaches(s, s')
  }

  // ---------- the entries above the leaves ----------

  /** Entry i of table u is as before, or 0 in a table that is new, or links a table that is new, where there was no
      present entry, with the flags that the page at the end of the way asks for. */
  ghost predicate LinkedAt(s: Space, s': Space, u: nat, i: nat, flags: nat)
    requires u in s'.tables && i < |s'.tables[u]|
  {
    var e := s'.tables[u][i];
    || (u in s.tables && i < |s.tables[u]| && e == s.tables[u][i])
    || (u !in s.tables && e == 0)
    || (&& FrameOf(e) in s'.tables && FrameOf(e) !in s.tables && TableBits(e, FrameOf(e), flags)
        && (u in s.tables ==> i < |s.tables[u]| && !IsPresent(s.tables[u][i])))
  }

  /** No table has gone, and all entries above the leaves are so. */
  ghost predicate Linked(s: Space, s': Space, flags: nat) {
    && s.tables.Keys <= s'.tables.Keys
    && forall u, i: nat {:trigger LinkedAt(s, s', u, i, flags)} ::
         Inner(s'.tables, s'.places, u) && i < |s'.tables[u]| ==> LinkedAt(s, s', u, i, flags)
  }

  lemma LinkedSelf(s: Space, flags: nat)
    ensures Linked(s, s, flags)
  {}

  lemma LinkPresent(e: nat, table: nat, flags: nat)
    requires TableBits(e, table, flags)
    ensures IsPresent(e)
  {
    assert Bit(e, 0);
    FlagTest(e, PRESENT_BIT);
  }

  lemma LinkedJoin(a: Space, b: Space, c: Space, flags: nat)
    requires Linked(a, b, flags) && Linked(b, c, flags) && b.tables.Keys == b.places.Keys && Grown(b.places, c.places)
    ensures Linked(a, c, flags)
  {
    forall u, i: nat | Inner(c.tables, c.places, u) && i < |c.tables[u]| ensures LinkedAt(a, c, u, i, flags) {
      assert LinkedAt(b, c, u, i, flags);
      if u in b.tables && i < |b.tables[u]| {
        assert Inner(b.tables, b.places, u);
        assert LinkedAt(a, b, u, i, flags);
        var e := b.tables[u][i];
        if !IsPresent(e) && TableBits(e, FrameOf(e), flags) { LinkPresent(e, FrameOf(e), flags); }
      }
    }
  }

  /** A table is created with these flags. */
  lemma CreateLinks(s: Space, s': Space, t: nat, i: nat, frame: nat, flags: nat)
    requires HasEntry(s, t, i) && !IsPresent(s.tables[t][i]) && TableFlags(flags)
    requires frame !in s.tables && frame % PAGE == 0 && frame < PHYS_LIMIT
    requires s'.tables == NewTables(s.tables, t, i, frame, flags)
    ensures Linked(s, s', flags)
  {
    var e := MakeEntry(frame, flags);
    NewEntry(frame, flags);
    TableEntryBits(frame, flags, flags);
    forall u, j: nat | Inner(s'.tables, s'.places, u) && j < |s'.tables[u]| ensures LinkedAt(s, s', u, j, flags) {
      if u == t && j == i { assert s'.tables[u][j] == e; }
    }
  }

  /** Writing the entry of a page changes none above the leaves. */
  lemma SetLinks(s: Space, s1: Space, s': Space, t: nat, i: nat, raw: nat, flags: nat)
    requires Linked(s, s1, flags) && t in s1.tables && i < |s1.tables[t]| && t in s1.places && |s1.places[t]| == DEPTH
    requires s'.tables == SetEntry(s1.tables, t, i, raw) && s'.places == s1.places
    ensures Linked(s, s', flags)
  {
    forall u, j: nat | Inner(s'.tables, s'.places, u) && j < |s'.tables[u]| ensures LinkedAt(s, s', u, j, flags) {
      assert Inner(s1.tables, s1.places, u);
      assert LinkedAt(s, s1, u, j, flags);
    }
  }

  /** The flags of the tables are those of the page, as fix_flags has them. */
  lemma LinkedFor(s: Space, s': Space, pdFlags: nat, flags: nat)
    requires Linked(s, s', pdFlags)
    requires forall k: nat {:trigger Bit(pdFlags, k)} :: k < 64 ==>
               (Bit(pdFlags, k) <==> k == 0 || (Bit(flags, k) && k != 7 && k != 63))
    ensures Linked(s, s', flags)
  {
    forall u, i: nat | Inner(s'.tables, s'.places, u) && i < |s'.tables[u]| ensures LinkedAt(s, s', u, i, flags) {
      assert LinkedAt(s, s', u, i, pdFlags);
      var e := s'.tables[u][i];
      assert TableBits(e, FrameOf(e), pdFlags) ==> TableBits(e, FrameOf(e), flags);
    }
  }

  lemma LeadsToTable(s: Space, root: nat, t: nat, i: nat)
    requires Tree(s.tables, s.places, root)
    ensures Inner(s.tables, s.places, t) && i < |s.tables[t]| && IsPresent(s.tables[t][i]) ==>
              FrameOf(s.tables[t][i]) in s.tables
  {
    if Inner(s.tables, s.places, t) && i < |s.tables[t]| { assert Leads(s.tables, s.places, t, i); }
  }

  /** A table that is new is linked with exactly the flags that the page asks for. */
  lemma NewTableLinked(s: Space, s': Space, root: nat, flags: nat, c: nat)
    requires Tree(s.tables, s.places, root) && Tree(s'.tables, s'.places, root) && Grown(s.places, s'.places)
    requires Linked(s, s', flags) && c in s'.tables && c !in s.tables
    ensures exists t, i: nat :: Parent(s'.tables, s'.places, t, i, c) && TableBits(s'.tables[t][i], c, flags)
  {
    assert c != root && HasParent(s'.tables, s'.places, c);
    var t, i :| Parent(s'.tables, s'.places, t, i, c);
    var j: nat := i;
    assert Inner(s'.tables, s'.places, t);
    assert LinkedAt(s, s', t, j, flags);
    ZeroNotPresent();
    LeadsToTable(s, root, t, j);
    assert Parent(s'.tables, s'.places, t, j, c) && TableBits(s'.tables[t][j], c, flags);
  }

  // ---------- one level down ----------

  /** What create_table does. */
  ghost predicate Created(s: Space, s': Space, t: nat, i: nat, flags: nat, r: Step)
    requires HasEntry(s, t, i)
  {
    && Same(s, s') && s'.frames == Take(s.frames, 1)
    && (r.Halted? <==> FreeCount(s.frames) == 0) && !r.Absent?
    && (r.Next? ==> r.table == Lowest(s.frames) * PAGE && s'.tables == NewTables(s.tables, t, i, r.table, flags)
                    && s'.places == NewPlaces(s.places, t, i, r.table) && r.table !in s.tables)
    && (r.Halted? ==> s' == s)
  }

  /** What get_next_table does. */
  ghost predicate Stepped(s: Space, s': Space, t: nat, i: nat, flags: nat, allocate: bool, r: Step)
    requires HasEntry(s, t, i)
  {
    if IsPresent(s.tables[t][i]) then s' == s && r == Next(FrameOf(s.tables[t][i]))
    else if allocate then Created(s, s', t, i, flags, r)
    else s' == s && r == Absent
  }

  lemma NotCreated(s: Space, root: nat, t: nat, i: nat, flags: nat)
    requires Good(s, root) && HasEntry(s, t, i) && FreeCount(s.frames) == 0
    ensures Created(s, s, t, i, flags, Halted)
  {
    assert Take(s.frames, 0) == s.frames;
    NoMoreToTake(s.frames, 0, 1);
    ReachesSelf(s);
  }

  lemma CreateReaches(s: Space, t: nat, i: nat, frame: nat, flags: nat)
    requires HasEntry(s, t, i) && !IsPresent(s.tables[t][i]) && TableFlags(flags)
    requires frame % PAGE == 0 && frame / PAGE == Lowest(s.frames)
    ensures Reaches(s, Space(NewTables(s.tables, t, i, frame, flags), NewPlaces(s.places, t, i, frame),
                             Take(s.frames, 1)))
  {
    var s' := Space(NewTables(s.tables, t, i, frame, flags), NewPlaces(s.places, t, i, frame), Take(s.frames, 1));
    assert frame == Lowest(s.frames) * PAGE;
    ReachesOne(s, Create(t, i, flags), s');
  }

  /** A table is created: the tree and the bitmap stay sound, and no page changes. */
  lemma TableCreated(s: Space, root: nat, t: nat, i: nat, frame: nat, flags: nat)
    requires Good(s, root) && HasEntry(s, t, i) && !IsPresent(s.tables[t][i]) && TableFlags(flags)
    requires frame % PAGE == 0 && frame / PAGE == Lowest(s.frames)
    ensures var s' := Space(NewTables(s.tables, t, i, frame, flags), NewPlaces(s.places, t, i, frame),
                            Take(s.frames, 1));
            Good(s', root) && Created(s, s', t, i, flags, Next(frame))
  {
    CreateKeepsGood(s, root, t, i, frame, flags);
    CreateIsSame(s.tables, s.places, root, t, i, frame, flags);
    assert Take(s.frames, 0) == s.frames;
    CountZero(s.frames);
    CreateReaches(s, t, i, frame, flags);
  }

  // ---------- the way to a leaf ----------

  /** Of `need` tables that were missing, `still` are; the others took the lowest free frames. */
  ghost predicate Budget(frames0: seq<bool>, need: nat, frames: seq<bool>, still: nat) {
    still <= need && need - still <= FreeCount(frames0) && frames == Take(frames0, need - still)
  }

  lemma BudgetStep(frames0: seq<bool>, need: nat, frames: seq<bool>, still: nat)
    requires Budget(frames0, need, frames, still) && still > 0 && FreeCount(frames) > 0
    ensures Budget(frames0, need, Take(frames, 1), still - 1)
  {
    TakeTake(frames0, need - still, 1);
    TakeCount(frames0, need - still);
  }

  lemma BudgetSpent(frames0: seq<bool>, need: nat, frames: seq<bool>, still: nat)
    requires Budget(frames0, need, frames, still) && still > 0 && FreeCount(frames) == 0
    ensures FreeCount(frames0) < need && Take(frames, 1) == Take(frames0, need)
  {
    TakeCount(frames0, need - still);
    NoMoreToTake(frames0, need - still, still);
    assert Take(frames, 0) == frames;
    NoMoreToTake(frames, 0, 1);
  }

  /** On the way from s0, table t has been reached by the first d indices of the path. */
  ghost predicate Way(s0: Space, s: Space, root: nat, path: seq<nat>, d: nat, t: nat) {
    && Same(s0, s) && ValidPath(path) && d <= DEPTH && At(s.places, t, path[..d])
    && Extends(s0.places, s.places, path, d)
    && Budget(s0.frames, Missing(s0.tables, root, path[..DEPTH]), s.frames, Missing(s.tables, t, path[d..DEPTH]))
    && (Missing(s.tables, t, path[d..DEPTH]) == Missing(s0.tables, root, path[..DEPTH]) ==> s == s0)
  }

  lemma WayStart(s: Space, root: nat, path: seq<nat>)
    requires Tree(s.tables, s.places, root) && ValidPath(path)
    ensures Way(s, s, root, path, 0, root)
  {
    assert path[0..DEPTH] == path[..DEPTH];
    assert Take(s.frames, 0) == s.frames;
    ReachesSelf(s);
    ExtendsNone(s.places, root, path);
  }

  lemma WayReady(s0: Space, s: Space, root: nat, path: seq<nat>, d: nat, t: nat)
    requires Tree(s.tables, s.places, root) && Way(s0, s, root, path, d, t) && d < DEPTH
    ensures HasEntry(s, t, path[d])
    ensures Missing(s.tables, t, path[d..DEPTH])
            == if IsPresent(s.tables[t][path[d]])
               then Missing(s.tables, FrameOf(s.tables[t][path[d]]), path[d + 1..DEPTH]) else DEPTH - d
    ensures path[..d] + [path[d]] == path[..d + 1]
  {
    assert TableOK(s.tables, t);
    assert path[d..DEPTH][1..] == path[d + 1..DEPTH];
  }

  lemma SameTransitive(a: Space, b: Space, c: Space)
    requires Same(a, b) && Same(b, c)
    ensures Same(a, c)
  {
    ReachesFurther(a, b, c);
    forall path | ValidPath(path) ensures EntryAt(c.tables, c.places, path) == EntryAt(a.tables, a.places, path) {
      assert EntryAt(b.tables, b.places, path) == EntryAt(a.tables, a.places, path);
    }
  }

  lemma FreshMissing(tables: Tables, t: nat, path: seq<nat>)
    requires t in tables && tables[t] == Zeros()
    ensures Missing(tables, t, path) == |path|
  {
    ZeroNotPresent();
  }

  /** What virt2pte does: with `allocate` the missing tables are created, without it nothing changes. */
  ghost predicate Walked(s: Space, s': Space, root: nat, path: seq<nat>, allocate: bool, r: Step)
    requires |path| == DEPTH + 1
  {
    var need := Missing(s.tables, root, path[..DEPTH]);
    && (r.Next? ==> At(s'.places, r.table, path[..DEPTH]))
    && if allocate then
         && Same(s, s') && s'.frames == Take(s.frames, need) && (need == 0 ==> s' == s)
         && !r.Absent? && (r.Halted? <==> FreeCount(s.frames) < need)
         && (r.Next? ==> Extends(s.places, s'.places, path, DEPTH))
       else
         s' == s && !r.Halted? && (r.Absent? <==> need > 0)
  }

  /** The next table exists. */
  lemma WayAlong(s0: Space, s: Space, root: nat, path: seq<nat>, d: nat, t: nat)
    requires Tree(s.tables, s.places, root) && Way(s0, s, root, path, d, t) && d < DEPTH
    requires HasEntry(s, t, path[d]) && IsPresent(s.tables[t][path[d]])
    ensures Way(s0, s, root, path, d + 1, FrameOf(s.tables[t][path[d]]))
  {
    WayReady(s0, s, root, path, d, t);
    assert Leads(s.tables, s.places, t, path[d]);
    ExtendsAlong(s0.places, s.places, path, d, FrameOf(s.tables[t][path[d]]));
  }

  /** The next table is missing, and is not to be created. */
  lemma WayBreaks(s: Space, root: nat, path: seq<nat>, d: nat, t: nat)
    requires Tree(s.tables, s.places, root) && Way(s, s, root, path, d, t) && d < DEPTH
    requires HasEntry(s, t, path[d]) && !IsPresent(s.tables[t][path[d]])
    ensures Walked(s, s, root, path, false, Absent)
  {
    WayReady(s, s, root, path, d, t);
  }

  /** The next table is created, or there is no frame for it. */
  lemma WayCreated(s0: Space, s: Space, s': Space, root: nat, path: seq<nat>, d: nat, t: nat, flags: nat, r: Step)
    requires Good(s, root) && Way(s0, s, root, path, d, t) && d < DEPTH
    requires HasEntry(s, t, path[d]) && !IsPresent(s.tables[t][path[d]]) && Created(s, s', t, path[d], flags, r)
    ensures r.Next? ==> Way(s0, s', root, path, d + 1, r.table)
    ensures r.Halted? ==> Walked(s0, s', root, path, true, Halted)
  {
    WayReady(s0, s, root, path, d, t);
    SameTransitive(s0, s, s');
    if r.Next? {
      FreshMissing(s'.tables, r.table, path[d + 1..DEPTH]);
      ExtendsNew(s0.places, s.places, path, d, t, r.table);
      BudgetStep(s0.frames, Missing(s0.tables, root, path[..DEPTH]), s.frames, DEPTH - d);
    } else {
      BudgetSpent(s0.frames, Missing(s0.tables, root, path[..DEPTH]), s.frames, DEPTH - d);
    }
  }

  /** Each step of the way adds links with the same flags. */
  lemma WayLinked(s0: Space, s: Space, s': Space, root: nat, path: seq<nat>, d: nat, t: nat, flags: nat,
                  allocate: bool, r: Step)
    requires Tree(s.tables, s.places, root) && Way(s0, s, root, path, d, t) && d < DEPTH && HasEntry(s, t, path[d])
    requires Stepped(s, s', t, path[d], flags, allocate, r) && Linked(s0, s, flags) && Linked(s, s', flags)
    ensures Linked(s0, s', flags)
  {
    LinkedJoin(s0, s, s', flags);
  }

  /** No table is missing at the end of the way. */
  lemma WayEnds(s0: Space, s: Space, root: nat, path: seq<nat>, t: nat, allocate: bool)
    requires Way(s0, s, root, path, DEPTH, t) && (!allocate ==> s == s0)
    ensures Walked(s0, s, root, path, allocate, Next(t))
  {
    TakeCount(s0.frames, Missing(s0.tables, root, path[..DEPTH]));
  }

  // ---------- translating and unmapping a page ----------

  /** pte2frame, and the offset within the page: the translation of an address whose page has entry e, or -1
      for the null address. */
  function Translate(e: nat, virt: nat): int {
    if IsPresent(e) then Or(FrameOf(e), And(virt, PAGE - 1)) else -1
  }

  /** The frame of a page, if it is mapped, holds no table: unmapping it releases none. */
  ghost predicate SparesTables(s: Space, path: seq<nat>)
    requires s.tables.Keys == s.places.Keys && |path| == DEPTH + 1
  {
    var e := EntryAt(s.tables, s.places, path); IsPresent(e) ==> FrameOf(e) !in s.tables
  }

  /** What unmap does: a mapped page, and no other, loses its entry, and its frame is released; it panics
      when that frame is not in use. */
  ghost predicate Unmapped(s: Space, s': Space, path: seq<nat>, ok: bool)
    requires s.tables.Keys == s.places.Keys && |path| == DEPTH + 1
  {
    var e := EntryAt(s.tables, s.places, path);
    && (SparesTables(s, path) ==> Reaches(s, s'))
    && s'.places == s.places && (ok <==> IsPresent(e) ==> InUse(s.frames, FrameOf(e)))
    && Remapped(s.tables, s.places, s'.tables, s'.places, path, if IsPresent(e) then 0 else e)
    && s'.frames == if IsPresent(e) then AfterRelease(s.frames, FrameOf(e)) else s.frames
  }

  lemma NotUnmapped(s: Space, path: seq<nat>)
    requires s.tables.Keys == s.places.Keys && |path| == DEPTH + 1 && !IsPresent(EntryAt(s.tables, s.places, path))
    ensures Unmapped(s, s, path, true)
  {
    ReachesSelf(s);
  }

  /** The entry of a mapped page is cleared, and its frame is released if it is in use. */
  lemma EntryCleared(s: Space, s': Space, root: nat, path: seq<nat>, t: nat)
    requires Tree(s.tables, s.places, root) && ValidPath(path) && At(s.places, t, path[..DEPTH])
    requires IsPresent(EntryAt(s.tables, s.places, path)) && path[DEPTH] < |s.tables[t]|
    requires s' == Space(SetEntry(s.tables, t, path[DEPTH], 0), s.places,
                         AfterRelease(s.frames, FrameOf(EntryAt(s.tables, s.places, path))))
    ensures Tree(s'.tables, s'.places, root)
    ensures Unmapped(s, s', path, InUse(s.frames, FrameOf(EntryAt(s.tables, s.places, path))))
  {
    EntryOfTable(s.tables, s.places, root, path, t);
    assert path == path[..DEPTH] + [path[DEPTH]];
    SetKeepsTree(s.tables, s.places, root, t, path[DEPTH], 0);
    SetRemaps(s.tables, s.places, root, t, path[DEPTH], 0);
    if SparesTables(s, path) { ClearReaches(s, s', t, path[DEPTH]); }
  }

  /** Two changes: the entry is written, and the frame is given back. */
  lemma ClearReaches(s: Space, s': Space, t: nat, i: nat)
    requires t in s.places && t in s.tables && |s.places[t]| == DEPTH && i < ENTRIES == |s.tables[t]|
    requires FrameOf(s.tables[t][i]) !in s.tables
    requires s' == Space(SetEntry(s.tables, t, i, 0), s.places, AfterRelease(s.frames, FrameOf(s.tables[t][i])))
    ensures Reaches(s, s')
  {
    var frame := FrameOf(s.tables[t][i]);
    var mid := MapEntry(s, t, i, frame, 0);
    FrameBits(s.tables[t][i]);
    ReachesOne(s, Write(t, i, frame, 0), mid);
    ReachesOne(mid, GiveBack(frame), s');
    ReachesFurther(s, mid, s');
  }

  /** An unmapping that spares the tables keeps a sound state sound. */
  lemma UnmapKeepsGood(s: Space, s': Space, root: nat, path: seq<nat>, ok: bool)
    requires |path| == DEPTH + 1 && s.tables.Keys == s.places.Keys && Unmapped(s, s', path, ok)
    ensures Good(s, root) && SparesTables(s, path) ==> Good(s', root)
  {
    if Good(s, root) && SparesTables(s, path) { ReachesGood(s, s', root); }
  }

  // ---------- mapping a page ----------

  /** The frame that mapping a page displaces, if there is one, holds no table. */
  ghost predicate Spares(s: Space, path: seq<nat>, phys: nat)
    requires s.tables.Keys == s.places.Keys && |path| == DEPTH + 1
  {
    var e := EntryAt(s.tables, s.places, path); Displaces(e, phys) ==> FrameOf(e) !in s.tables
  }

  /** What map does: the page, and no other, gets the entry; the tables that were missing take the lowest free
      frames; a frame that was mapped there is released.  The panics are exactly a lack of frames for the tables
      and a displaced frame that is not in use. */
  ghost predicate Mapped(s: Space, s': Space, root: nat, path: seq<nat>, phys: nat, raw: nat, ok: bool)
    requires s.tables.Keys == s.places.Keys && |path| == DEPTH + 1
  {
    var e, need := EntryAt(s.tables, s.places, path), Missing(s.tables, root, path[..DEPTH]);
    && (ok <==> need <= FreeCount(s.frames) && (Displaces(e, phys) ==> InUse(s.frames, FrameOf(e))))
    && Grown(s.places, s'.places) && (need == 0 ==> s'.places == s.places)
    && (ok ==> Extends(s.places, s'.places, path, DEPTH))
    && (Spares(s, path, phys) ==> Reaches(s, s'))
    && (forall t {:trigger t in s'.tables} :: t in s'.tables ==> t in s.tables || !InUse(s.frames, t))
    && (if ok then Remapped(s.tables, s.places, s'.tables, s'.places, path, raw)
        else SamePages(s.tables, s.places, s'.tables, s'.places))
    && s'.frames == if Displaces(e, phys) then AfterRelease(s.frames, FrameOf(e)) else Take(s.frames, need)
  }

  /** Without a leaf table the page has no entry. */
  lemma NoLeaf(s: Space, root: nat, path: seq<nat>)
    requires Tree(s.tables, s.places, root) && ValidPath(path) && Missing(s.tables, root, path[..DEPTH]) > 0
    ensures EntryAt(s.tables, s.places, path) == 0
  {
    LeafTable(s.tables, s.places, root, path[..DEPTH]);
  }

  /** The entry virt2pte finds is the page's; a present one was there before. */
  lemma FoundEntry(s: Space, s': Space, root: nat, path: seq<nat>, allocate: bool, t: nat)
    requires Tree(s.tables, s.places, root) && Tree(s'.tables, s'.places, root) && ValidPath(path)
             && Walked(s, s', root, path, allocate, Next(t))
    ensures t in s'.tables && t in s'.places && s'.places[t] == path[..DEPTH] && |s'.tables[t]| == ENTRIES
    ensures s'.tables[t][path[DEPTH]] == EntryAt(s.tables, s.places, path)
    ensures IsPresent(s'.tables[t][path[DEPTH]]) ==> s' == s && Missing(s.tables, root, path[..DEPTH]) == 0
  {
    EntryOfTable(s'.tables, s'.places, root, path, t);
    ZeroNotPresent();
    if Missing(s.tables, root, path[..DEPTH]) > 0 { NoLeaf(s, root, path); }
  }

  /** Writing the entry of a page keeps the tree; if no table's frame is released, it is one change of a sound state. */
  lemma EntryWritten(s: Space, root: nat, path: seq<nat>, t: nat, phys: nat, raw: nat)
    requires Good(s, root) && ValidPath(path) && At(s.places, t, path[..DEPTH]) && raw < W64
    ensures t in s.tables && |s.tables[t]| == ENTRIES && s.tables[t][path[DEPTH]] == EntryAt(s.tables, s.places, path)
    ensures Tree(SetEntry(s.tables, t, path[DEPTH], raw), s.places, root)
    ensures Remapped(s.tables, s.places, SetEntry(s.tables, t, path[DEPTH], raw), s.places, path, raw)
    ensures Spares(s, path, phys) ==>
              Good(MapEntry(s, t, path[DEPTH], phys, raw), root) && Reaches(s, MapEntry(s, t, path[DEPTH], phys, raw))
  {
    EntryOfTable(s.tables, s.places, root, path, t);
    assert path == path[..DEPTH] + [path[DEPTH]];
    SetKeepsTree(s.tables, s.places, root, t, path[DEPTH], raw);
    SetRemaps(s.tables, s.places, root, t, path[DEPTH], raw);
    if Spares(s, path, phys) { WriteReaches(s, root, t, path[DEPTH], phys, raw); }
  }

  lemma WriteReaches(s: Space, root: nat, t: nat, i: nat, phys: nat, raw: nat)
    requires Good(s, root) && t in s.places && t in s.tables && |s.places[t]| == DEPTH && i < ENTRIES == |s.tables[t]|
    requires raw < W64 && (Displaces(s.tables[t][i], phys) ==> FrameOf(s.tables[t][i]) !in s.tables)
    ensures Good(MapEntry(s, t, i, phys, raw), root) && Reaches(s, MapEntry(s, t, i, phys, raw))
  {
    var s' := MapEntry(s, t, i, phys, raw);
    ReachesOne(s, Write(t, i, phys, raw), s');
    WriteKeepsGood(s, root, t, i, phys, raw);
  }

  /** What map does once virt2pte has led from s to s1. */
  lemma EntrySet(s: Space, s1: Space, s': Space, root: nat, path: seq<nat>, t: nat, phys: nat, raw: nat)
    requires Good(s, root) && Good(s1, root) && ValidPath(path) && Walked(s, s1, root, path, true, Next(t)) && raw < W64
    requires t in s1.tables && |s1.tables[t]| == ENTRIES && s' == MapEntry(s1, t, path[DEPTH], phys, raw)
    requires var e := EntryAt(s.tables, s.places, path); Displaces(e, phys) ==> InUse(s.frames, FrameOf(e))
    ensures Tree(s'.tables, s'.places, root) && Mapped(s, s', root, path, phys, raw, true)
    ensures Spares(s, path, phys) ==> Good(s', root)
  {
    FoundEntry(s, s1, root, path, true, t);
    EntryWritten(s1, root, path, t, phys, raw);
    RemappedAfter(s.tables, s.places, s1.tables, s1.places, s'.tables, s'.places, path, raw);
    if Spares(s, path, phys) {
      assert Spares(s1, path, phys);
      ReachesFurther(s, s1, s');
    }
  }

  lemma RemappedAfter(a: Tables, pa: Places, b: Tables, pb: Places, c: Tables, pc: Places, path: seq<nat>, raw: nat)
    requires SamePages(a, pa, b, pb) && Remapped(b, pb, c, pc, path, raw)
    ensures Remapped(a, pa, c, pc, path, raw)
  {
    forall p | ValidPath(p) ensures EntryAt(c, pc, p) == if p == path then raw else EntryAt(a, pa, p) {
      assert EntryAt(b, pb, p) == EntryAt(a, pa, p);
    }
  }

  /** The panic of release_frame, for a displaced frame that is not in use. */
  lemma NotReplaced(s: Space, s1: Space, root: nat, path: seq<nat>, t: nat, phys: nat, raw: nat)
    requires Good(s, root) && Good(s1, root) && ValidPath(path) && Walked(s, s1, root, path, true, Next(t))
    requires var e := EntryAt(s.tables, s.places, path); Displaces(e, phys) && !InUse(s.frames, FrameOf(e))
    ensures Mapped(s, s1, root, path, phys, raw, false)
  {
    FoundEntry(s, s1, root, path, true, t);
  }

  /** A mapping that spares the tables keeps a sound state sound. */
  lemma MapKeepsGood(s: Space, s': Space, root: nat, path: seq<nat>, phys: nat, raw: nat, ok: bool)
    requires Good(s, root) && |path| == DEPTH + 1 && Mapped(s, s', root, path, phys, raw, ok)
    ensures Spares(s, path, phys) ==> Good(s', root)
  {
    if Spares(s, path, phys) { ReachesGood(s, s', root); }
  }

  /** If the displaced frame holds a table, that table's frame is free afterwards. */
  lemma TableReleased(s: Space, s': Space, root: nat, path: seq<nat>, phys: nat, raw: nat)
    requires Good(s, root) && |path| == DEPTH + 1 && Mapped(s, s', root, path, phys, raw, true)
             && !Spares(s, path, phys)
    ensures var frame := FrameOf(EntryAt(s.tables, s.places, path)); frame in s'.tables && !InUse(s'.frames, frame)
  {}

  lemma NotMapped(s: Space, s': Space, root: nat, path: seq<nat>, phys: nat, raw: nat)
    requires Good(s, root) && ValidPath(path) && Walked(s, s', root, path, true, Halted)
    ensures Mapped(s, s', root, path, phys, raw, false)
  {
    NoLeaf(s, root, path);
    ZeroNotPresent();
  }

  /** A single zeroed table is a tree, and maps nothing. */
  lemma EmptyTree(root: nat)
    requires root % PAGE == 0 && root < PHYS_LIMIT
    ensures var tables, places := map[root := Zeros()], map[root := []];
            && Tree(tables, places, root) && tables.Keys == places.Keys
            && forall path {:trigger EntryAt(tables, places, path)} :: ValidPath(path) ==>
                  EntryAt(tables, places, path) == 0
  {
    var tables: Tables, places: Places := map[root := Zeros()], map[root := []];
    assert TableOK(tables, root);
    ZeroNotPresent();
  }
}
