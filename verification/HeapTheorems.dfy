/** What holds of the kernel heap over whole runs, and what the operations mean to a caller. */
module HeapTheorems {
  import opened Units
  import opened HeapLayout
  import opened HeapSteps
  import opened HeapRecords
  import opened HeapProofs
  import opened KernelHeap

  // ---------- every step keeps the layout good ----------

  lemma MallocGood(s: State, s': State, req: nat, page: nat, p: nat)
    requires Good(s) && req <= MAX_REQ && (page != 0 ==> FreshPages(s.blocks, page, PagesFor(req + PAD)))
    requires MallocStep(s, s', req, page, p)
    ensures Good(s')
  {
    if i, k :| Placed(s, s', req, p, i, k) {
      PlaceSound(s.blocks, i, k, req);
    } else if page != 0 {
      EmptyBlockFits(s.blocks, page, req);
      NewBlockKeepsSound(s.blocks, page, req);
    }
  }

  lemma NewBlockKeepsSound(bs: seq<Block>, page: nat, req: nat)
    requires Sound(bs + [EmptyBlock(page, req)]) && EmptyBlock(page, req).FirstFit(req + PAD + MINOR, 0)
    ensures Sound(bs + [NewBlock(page, req)])
  {
    var n, e := |bs|, EmptyBlock(page, req);
    PlaceSound(bs + [e], n, 0, req);
    assert (bs + [e])[n] == e;
    assert InsertAt(e, 0, NewSection(e, 0, req)).secs == NewBlock(page, req).secs;
    assert PlaceAt(bs + [e], n, 0, req) == bs + [NewBlock(page, req)];
  }

  lemma FreeGood(s: State, s': State, p: nat)
    requires Good(s) && FreeStep(s, s', p)
    ensures Good(s')
  {
    var i: nat, k: nat :| Freed(s, s', p, i, k);
    FreeSound(s.blocks, i, k);
  }

  lemma ReallocGood(s: State, s': State, p: nat, i: nat, k: nat, size: nat, page: nat, r: Outcome)
    requires Good(s) && size <= MAX_REQ && (page != 0 ==> FreshPages(s.blocks, page, PagesFor(size + PAD)))
    requires PointsTo(s.blocks, p, i, k) && ReallocStep(s, s', p, i, k, size, page, r) && r.Returned?
    ensures Good(s')
  {
    var req := s.blocks[i].secs[k].req;
    if size <= req {
      ShrinkSound(s.blocks, i, k, size);
      ShrinkListed(s.blocks, i, k, size, s.bet);
    } else {
      var mid, q :| Moved(s, mid, s', p, req, size, page, q, r);
      MallocGood(s, mid, size, page, q);
      FreeGood(mid, s', p);
    }
  }

  lemma ShrinkListed(bs: seq<Block>, i: nat, k: nat, size: nat, a: nat)
    requires IsSection(bs, i, k) && ListedOrNull(bs, a)
    ensures ListedOrNull(ShrinkAt(bs, i, k, size), a)
  {
    if a != 0 {
      var j :| 0 <= j < |bs| && bs[j].addr == a;
      assert ShrinkAt(bs, i, k, size)[j].addr == a;
    }
  }

  // ---------- runs ----------

  datatype Event =
    | Malloc(req: nat, page: nat, p: nat)
    | Free(p: nat)
    | Realloc(p: nat, size: nat, page: nat, r: Outcome)

  /** One call on valid arguments; liballoc_alloc returns fresh pages or NULL. */
  ghost predicate Step(s: State, e: Event, s': State) {
    match e
    case Malloc(req, page, p) =>
      && req <= MAX_REQ && (page != 0 ==> FreshPages(s.blocks, page, PagesFor(req + PAD)))
      && MallocStep(s, s', req, page, p)
    case Free(p) =>
      FreeStep(s, s', p)
    case Realloc(p, size, page, r) =>
      && 0 < size <= MAX_REQ && (page != 0 ==> FreshPages(s.blocks, page, PagesFor(size + PAD))) && r.Returned?
      && Reallocated(s, s', p, size, page, r)
  }

  ghost predicate Reallocated(s: State, s': State, p: nat, size: nat, page: nat, r: Outcome) {
    exists i, k :: PointsTo(s.blocks, p, i, k) && ReallocStep(s, s', p, i, k, size, page, r)
  }

  lemma ReallocatedGood(s: State, s': State, p: nat, size: nat, page: nat, r: Outcome)
    requires Good(s) && size <= MAX_REQ && (page != 0 ==> FreshPages(s.blocks, page, PagesFor(size + PAD)))
    requires Reallocated(s, s', p, size, page, r) && r.Returned?
    ensures Good(s')
  {
    var i, k :| PointsTo(s.blocks, p, i, k) && ReallocStep(s, s', p, i, k, size, page, r);
    ReallocGood(s, s', p, i, k, size, page, r);
  }

  lemma MallocEventGood(s: State, req: nat, page: nat, p: nat, s': State)
    requires Good(s) && Step(s, Malloc(req, page, p), s')
    ensures Good(s')
  {
    MallocGood(s, s', req, page, p);
  }

  lemma ReallocEventGood(s: State, p: nat, size: nat, page: nat, r: Outcome, s': State)
    requires Good(s) && Step(s, Realloc(p, size, page, r), s')
    ensures Good(s')
  {
    ReallocatedGood(s, s', p, size, page, r);
  }

  lemma StepIsGood(s: State, e: Event, s': State)
    requires Good(s) && Step(s, e, s')
    ensures Good(s')
  {
    match e {
      case Malloc(req, page, p) => MallocEventGood(s, req, page, p, s');
      case Free(p) => FreeGood(s, s', p);
      case Realloc(p, size, page, r) => ReallocEventGood(s, p, size, page, r, s');
    }
  }

  /** A run from the empty heap. */
  ghost predicate Run(states: seq<State>, events: seq<Event>) {
    && |states| == |events| + 1 && states[0] == State([], 0)
    && forall t :: 0 <= t < |events| ==> Step(states[t], events[t], states[t + 1])
  }

  /** Every state of every run is good: blocks and sections are disjoint and in order, no listed block
      is empty, and the best bet is NULL or listed. */
  lemma {:induction false} RunIsGood(states: seq<State>, events: seq<Event>, t: nat)
    requires Run(states, events) && t < |states|
    ensures Good(states[t])
  {
    if t > 0 {
      RunIsGood(states, events, t - 1);
      StepIsGood(states[t - 1], events[t - 1], states[t]);
    }
  }

  // ---------- memory safety of the pointers ----------

  ghost predicate InUser(t: Section, x: int) {
    t.User() <= x < t.User() + t.req
  }

  /** Whatever has happened before: a live pointer is 16-byte aligned, its range lies in its own payload,
      and apart from every other live range, from all headers and from all alignment bytes. */
  lemma UserRangesAreSafe(states: seq<State>, events: seq<Event>, t: nat, i: int, k: int, x: int)
    requires Run(states, events) && t < |states| && IsSection(states[t].blocks, i, k)
    requires InUser(states[t].blocks[i].secs[k], x)
    ensures var bs := states[t].blocks;
            && bs[i].secs[k].User() % ALIGNMENT == 0 && InPayload(bs, i, k, x) && x < W64
            && (forall j, l :: IsSection(bs, j, l) && (j, l) != (i, k) ==> !InUser(bs[j].secs[l], x))
            && (forall j, l :: IsSection(bs, j, l) ==> !(bs[j].secs[l].addr <= x < bs[j].secs[l].Payload()))
            && (forall j, l :: IsSection(bs, j, l) ==> x != bs[j].secs[l].User() - ALIGN_INFO)
            && (forall j :: 0 <= j < |bs| ==> !(bs[j].addr <= x < bs[j].addr + MAJOR))
  {
    var bs := states[t].blocks;
    RunIsGood(states, events, t);
    SectionInBlock(bs, i, k);
    forall j, l | IsSection(bs, j, l)
      ensures (j, l) != (i, k) ==> !InUser(bs[j].secs[l], x)
      ensures !(bs[j].secs[l].addr <= x < bs[j].secs[l].Payload()) && x != bs[j].secs[l].User() - ALIGN_INFO
    {
      SectionInBlock(bs, j, l);
      if (j, l) != (i, k) { SectionsDisjoint(bs, i, k, j, l); }
    }
    forall j | 0 <= j < |bs| ensures !(bs[j].addr <= x < bs[j].addr + MAJOR) {
      SectionClearOfMajors(bs, j, i, k);
    }
  }

  /** m bytes at a and n bytes at b do not overlap. */
  ghost predicate Beside(a: nat, m: nat, b: nat, n: nat) {
    a + m <= b || b + n <= a
  }

  /** No two headers overlap, of sections and of blocks. */
  ghost predicate HeadersApart(bs: seq<Block>) {
    && (forall i, k, j, l :: IsSection(bs, i, k) && IsSection(bs, j, l) && (i, k) != (j, l) ==>
          Beside(bs[i].secs[k].addr, MINOR, bs[j].secs[l].addr, MINOR))
    && (forall i, k, m :: IsSection(bs, i, k) && 0 <= m < |bs| ==>
          Beside(bs[i].secs[k].addr, MINOR, bs[m].addr, MAJOR))
    && (forall m, n :: 0 <= m < |bs| && 0 <= n < |bs| && m != n ==> Beside(bs[m].addr, MAJOR, bs[n].addr, MAJOR))
  }

  lemma MajorsApart(bs: seq<Block>, m: int, n: int)
    requires Sound(bs) && 0 <= m < |bs| && 0 <= n < |bs| && m != n
    ensures Beside(bs[m].addr, MAJOR, bs[n].addr, MAJOR)
  {
    assert bs[m].WF() && bs[n].WF();
    if m < n {
      assert Apart(bs[m], bs[n]);
    } else {
      assert Apart(bs[n], bs[m]);
    }
  }

  lemma SoundHeaders(bs: seq<Block>)
    requires Sound(bs)
    ensures HeadersApart(bs)
  {
    forall i, k, j, l | IsSection(bs, i, k) && IsSection(bs, j, l) && (i, k) != (j, l)
      ensures Beside(bs[i].secs[k].addr, MINOR, bs[j].secs[l].addr, MINOR)
    {
      SectionsDisjoint(bs, i, k, j, l);
    }
    forall i, k, m | IsSection(bs, i, k) && 0 <= m < |bs|
      ensures Beside(bs[i].secs[k].addr, MINOR, bs[m].addr, MAJOR)
    {
      SectionClearOfMajors(bs, m, i, k);
    }
    forall m, n | 0 <= m < |bs| && 0 <= n < |bs| && m != n ensures Beside(bs[m].addr, MAJOR, bs[n].addr, MAJOR) {
      MajorsApart(bs, m, n);
    }
  }

  /** Headers do not overlap each other either. */
  lemma HeadersAreDisjoint(states: seq<State>, events: seq<Event>, t: nat)
    requires Run(states, events) && t < |states|
    ensures HeadersApart(states[t].blocks)
  {
    RunIsGood(states, events, t);
    SoundHeaders(states[t].blocks);
  }

  // ---------- kfree undoes kmalloc ----------

  /** A live pointer is freed at the one section it points to. */
  lemma FreeIsDetermined(s: State, s': State, p: nat, i: nat, k: nat)
    requires Sound(s.blocks) && FreeStep(s, s', p) && PointsTo(s.blocks, p, i, k)
    ensures s'.blocks == FreeAt(s.blocks, i, k)
  {
    var j: nat, l: nat :| Freed(s, s', p, j, l);
    if (i, k) != (j, l) { UserPointersDiffer(s.blocks, i, k, j, l); }
  }

  /** Whichever case placed the section, freeing it gives the layout back as it was. */
  lemma FreeUndoesMalloc(s: State, mid: State, s': State, req: nat, page: nat, p: nat)
    requires Good(s) && req <= MAX_REQ && (page != 0 ==> FreshPages(s.blocks, page, PagesFor(req + PAD)))
    requires MallocStep(s, mid, req, page, p) && p != 0 && FreeStep(mid, s', p)
    ensures s'.blocks == s.blocks
  {
    MallocGood(s, mid, req, page, p);
    if j, l :| Placed(s, mid, req, p, j, l) {
      UndoPlaced(s, mid, s', req, p, j, l);
    } else {
      UndoAppended(s, mid, s', req, page, p);
    }
  }

  lemma UndoAppended(s: State, mid: State, s': State, req: nat, page: nat, p: nat)
    requires Sound(mid.blocks) && mid.blocks == s.blocks + [NewBlock(page, req)] && FreeStep(mid, s', p)
    requires p == AlignUp(page + MAJOR + MINOR)
    ensures s'.blocks == s.blocks
  {
    assert PointsTo(mid.blocks, p, |s.blocks|, 0);
    FreeIsDetermined(mid, s', p, |s.blocks|, 0);
    assert FreeAt(mid.blocks, |s.blocks|, 0) == s.blocks;
  }

  lemma UndoPlaced(s: State, mid: State, s': State, req: nat, p: nat, i: nat, k: nat)
    requires NoneEmpty(s.blocks) && Sound(mid.blocks) && Placed(s, mid, req, p, i, k) && FreeStep(mid, s', p)
    ensures s'.blocks == s.blocks
  {
    PlaceAdds(s.blocks, i, k, req);
    FreeIsDetermined(mid, s', p, i, k);
    UndoPlace(s.blocks, i, k, req);
  }

  lemma UndoPlace(bs: seq<Block>, i: nat, k: nat, req: nat)
    requires NoneEmpty(bs) && i < |bs| && k <= |bs[i].secs|
    ensures k < |PlaceAt(bs, i, k, req)[i].secs| && FreeAt(PlaceAt(bs, i, k, req), i, k) == bs
  {
    RemoveInserted(bs[i], k, NewSection(bs[i], k, req));
    assert bs[i].secs != [];
  }

  lemma RemoveInserted(b: Block, k: nat, t: Section)
    requires k <= |b.secs|
    ensures RemoveAt(InsertAt(b, k, t), k) == b
  {
    assert RemoveAt(InsertAt(b, k, t), k).secs == b.secs;
  }

  /** The same for the allocator itself: list, headers of every listed block and section, and totals are
      back; only the best bet may have changed. */
  method MallocThenFree(h: Heap, req: nat, page: nat) returns (p: nat)
    requires h.Valid() && req <= MAX_REQ && (page != NULL ==> FreshPages(h.blocks, page, PagesFor(req + PAD)))
    modifies h
    ensures h.Valid() && h.blocks == old(h.blocks)
    ensures h.memRoot == old(h.memRoot) && h.inUse == old(h.inUse) && h.reserved == old(h.reserved)
    ensures SameHeaders(h.blocks, old(h.majors), old(h.minors), h.majors, h.minors)
    ensures KeepsPayloads(h.blocks, old(h.mem), h.mem)
  {
    ghost var s := h.Abs();
    p := h.KMalloc(req, page);
    ghost var mid, mem1 := h.Abs(), h.mem;
    if p == NULL {
      MallocNull(s, mid, req, page);
    } else {
      var i, k := MallocAdds(s, mid, req, page, p);
      assert Live(h.blocks, p);
    }
    h.KFree(p);
    if p == NULL {
      NullIsNotLive(mid.blocks);
    } else {
      FreeUndoesMalloc(s, mid, h.Abs(), req, page, p);
    }
    LayoutDeterminesHeaders(h.blocks, old(h.majors), old(h.minors), h.majors, h.minors);
  }

  /** The headers listed in a layout are the same in both memories. */
  ghost predicate SameHeaders(bs: seq<Block>, majors: map<nat, Major>, minors: map<nat, Minor>,
                              majors': map<nat, Major>, minors': map<nat, Minor>) {
    && (forall i :: 0 <= i < |bs| ==> SameAt(majors, majors', bs[i].addr))
    && (forall i, k :: IsSection(bs, i, k) ==> SameAt(minors, minors', bs[i].secs[k].addr))
  }

  ghost predicate SameAt<T>(m: map<nat, T>, m': map<nat, T>, a: nat) {
    a in m && a in m' && m[a] == m'[a]
  }

  lemma LayoutDeterminesHeaders(bs: seq<Block>, majors: map<nat, Major>, minors: map<nat, Minor>,
                                majors': map<nat, Major>, minors': map<nat, Minor>)
    requires MajorsMatch(majors, bs) && MinorsMatch(minors, bs) && MajorsMatch(majors', bs) && MinorsMatch(minors', bs)
    ensures SameHeaders(bs, majors, minors, majors', minors')
  {
    forall i | 0 <= i < |bs| ensures SameAt(majors, majors', bs[i].addr) {
      assert MajorMatches(majors, bs, i) && MajorMatches(majors', bs, i);
    }
    forall i, k | IsSection(bs, i, k) ensures SameAt(minors, minors', bs[i].secs[k].addr) {
      assert MinorMatches(minors, bs[i], k) && MinorMatches(minors', bs[i], k);
    }
  }

  // ---------- when krealloc faults ----------

  /** krealloc copies to address 0 exactly when a nonempty section has to grow, no block has a gap for the larger
      size, and the system has no memory: a condition on the state before the call. */
  lemma ReallocFaults(s: State, s': State, p: nat, i: nat, k: nat, size: nat, page: nat, r: Outcome)
    requires Good(s) && PointsTo(s.blocks, p, i, k) && ReallocStep(s, s', p, i, k, size, page, r)
    ensures r.PageFault? <==>
              && 0 < s.blocks[i].secs[k].req < size
              && page == 0 && NoFits(s.blocks, size + PAD + MINOR, 0, |s.blocks|)
  {
    var req := s.blocks[i].secs[k].req;
    if size > req {
      var mid, q :| Moved(s, mid, s', p, req, size, page, q, r);
      if q == 0 {
        MallocNull(s, mid, size, page);
      } else if page == 0 {
        PlacedHasFit(s, mid, size, page, q);
      }
    }
  }

  /** Without a new block a request can only be met by a gap. */
  lemma PlacedHasFit(s: State, s': State, req: nat, page: nat, p: nat)
    requires MallocStep(s, s', req, page, p) && page == 0 && p != 0
    ensures !NoFits(s.blocks, req + PAD + MINOR, 0, |s.blocks|)
  {
    var i: nat, k: nat :| Placed(s, s', req, p, i, k);
    assert s.blocks[i].Gap(k) >= req + PAD + MINOR;
  }

  // ---------- conservation ----------

  /** The fields of a valid heap account for every byte: usage is the header plus all sections with theirs,
      what it leaves of the block is exactly the gaps, and no subtraction in the code goes below zero. */
  lemma FieldsConserve(h: Heap, i: nat)
    requires h.Valid() && i < |h.blocks|
    ensures h.blocks[i].addr in h.majors
    ensures var m, b := h.majors[h.blocks[i].addr], h.blocks[i];
            && m.size == m.pages * PAGE < W32
            && m.usage == MAJOR + Used(b.secs) <= m.size
            && m.size - m.usage == Gaps(b, |b.secs| + 1)
            && m.size <= h.reserved == Allocated(h.blocks)
            && Sizes(b.secs) <= h.inUse == InUse(h.blocks)
  {
    assert MajorMatches(h.majors, h.blocks, i);
    GapAtMostFree(h.blocks[i], 0);
    FreeIsGaps(h.blocks[i]);
    ReplaceSums(h.blocks, i, h.blocks[i]);
  }

  /** The header of a section: its neighbours, its block, the magic number, and its sizes. */
  lemma MinorHeader(h: Heap, i: nat, k: nat)
    requires h.Valid() && IsSection(h.blocks, i, k)
    ensures var secs := h.blocks[i].secs;
            && secs[k].addr in h.minors
            && var m := h.minors[secs[k].addr];
            && m.prev == (if k > 0 then secs[k - 1].addr else 0)
            && m.next == (if k + 1 < |secs| then secs[k + 1].addr else 0)
            && m.block == h.blocks[i].addr && m.magic == 0xc001_c0de
            && m.size == secs[k].size && m.req == secs[k].req
  {
    assert MinorMatches(h.minors, h.blocks[i], k);
  }

  /** The header of a block: its neighbours, and its first section; the root is the first block. */
  lemma MajorHeader(h: Heap, i: nat)
    requires h.Valid() && i < |h.blocks|
    ensures var bs := h.blocks;
            && bs[i].addr in h.majors && h.memRoot == bs[0].addr
            && var m := h.majors[bs[i].addr];
            && m.prev == (if i > 0 then bs[i - 1].addr else 0) && m.next == (if i + 1 < |bs| then bs[i + 1].addr else 0)
            && m.first == bs[i].secs[0].addr && m.pages == bs[i].pages
  {
    assert MajorMatches(h.majors, h.blocks, i);
  }

  /** When nothing is live, everything has gone back to the system. */
  lemma NothingLiveNothingHeld(h: Heap)
    requires h.Valid() && forall p :: !Live(h.blocks, p)
    ensures h.blocks == [] && h.memRoot == NULL && h.inUse == 0 && h.reserved == 0
  {
    if h.blocks != [] {
      assert PointsTo(h.blocks, h.blocks[0].secs[0].User(), 0, 0);
      assert Live(h.blocks, h.blocks[0].secs[0].User());
    }
  }
}
