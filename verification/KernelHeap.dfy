/** The allocator itself: kmalloc, kfree and krealloc over headers and bytes in memory. */
module KernelHeap {
  import opened Units
  import opened HeapLayout
  import opened HeapSteps
  import opened HeapRecords
  import opened HeapProofs
  import Words

  class Heap {
    var memRoot: nat                // l_memRoot
    var bestBet: nat                // l_bestBet
    var inUse: nat                  // l_inuse
    var reserved: nat              // l_allocated
    var majors: map<nat, Major>     // the struct liballoc_major at each address
    var minors: map<nat, Minor>     // the struct liballoc_minor at each address
    var mem: map<nat, nat>          // the bytes of memory
    ghost var blocks: seq<Block>    // the layout the headers represent

    ghost function Abs(): State
      reads this
    {
      State(blocks, bestBet)
    }

    /** Headers, links, totals and alignment bytes represent a sound layout. */
    ghost predicate Linked()
      reads this
    {
      && Sound(blocks)
      && MajorsMatch(majors, blocks) && MinorsMatch(minors, blocks) && AlignMatch(mem, blocks)
      && memRoot == (if blocks == [] then NULL else blocks[0].addr)
      && ListedOrNull(blocks, bestBet)
      && inUse == InUse(blocks) && reserved == Allocated(blocks)
    }

    ghost predicate Valid()
      reads this
    {
      Linked() && NoneEmpty(blocks)
    }

    constructor ()
      ensures Valid() && blocks == []
    {
      memRoot, bestBet, inUse, reserved := NULL, NULL, 0, 0;
      majors, minors, mem, blocks := map[], map[], map[], [];
    }

    // ---------- stores to memory ----------

    /** Storing a header overwrites its bytes, so it must not lie over anyone's payload. */
    method StoreMinor(a: nat, r: Minor)
      requires forall x :: a <= x < a + MINOR ==> !Payloads(blocks, x)
      modifies this`minors, this`mem
      ensures minors == old(minors)[a := r] && KeepsPayloads(blocks, old(mem), mem)
    {
      minors := minors[a := r];
      Overwrite(a, MINOR);
    }

    method StoreMajor(a: nat, r: Major)
      requires forall x :: a <= x < a + MAJOR ==> !Payloads(blocks, x)
      modifies this`majors, this`mem
      ensures majors == old(majors)[a := r] && KeepsPayloads(blocks, old(mem), mem)
    {
      majors := majors[a := r];
      Overwrite(a, MAJOR);
    }

    /** The bytes of a header are whatever its representation is. */
    method Overwrite(a: nat, n: nat)
      modifies this`mem
      ensures forall x: nat :: x < a || a + n <= x ==> At(mem, x) == At(old(mem), x)
    {
      var bytes: map<nat, nat> := *;
      mem := (map x: nat | x in mem && !(a <= x < a + n) :: mem[x])
          + (map x: nat | x in bytes && a <= x < a + n :: bytes[x]);
    }

    // ---------- ALIGN ----------

    /** The ALIGN macro on the payload of the section just placed. */
    method Align(q: nat, ghost i: nat, ghost k: nat) returns (p: nat)
      requires Sound(blocks) && IsSection(blocks, i, k) && q == blocks[i].secs[k].Payload()
      requires forall j, l :: IsSection(blocks, j, l) && (j, l) != (i, k) ==> AlignByte(mem, blocks[j].secs[l])
      modifies this`mem
      ensures p == blocks[i].secs[k].User() && AlignMatch(mem, blocks)
      ensures forall x: nat :: !InPayload(blocks, i, k, x) ==> At(mem, x) == At(old(mem), x)
    {
      p := q + ALIGN_INFO;
      LowFour(p);
      var diff := Words.And(p, ALIGNMENT - 1);
      if diff != 0 {
        diff := ALIGNMENT - diff;
        p := p + diff;
      }
      mem := Put(mem, p - ALIGN_INFO, diff + ALIGN_INFO);
      AlignByteInPayload(blocks, i, k);
      forall j, l | IsSection(blocks, j, l) && (j, l) != (i, k) ensures AlignByte(mem, blocks[j].secs[l]) {
        AlignByteInPayload(blocks, j, l);
        SectionsDisjoint(blocks, i, k, j, l);
        assert AlignByte(old(mem), blocks[j].secs[l]);
      }
    }

    // ---------- the five places kmalloc can put a section ----------

    /** The end of every case, once the minors are linked: the usage and the total grow, and the user
        pointer is aligned.  `first` is the block's first minor from now on. */
    method Account(maj: nat, a: nat, first: nat, req: nat, ghost i: nat, ghost k: nat, ghost mem0: map<nat, nat>)
      returns (p: nat)
      requires Sound(blocks) && i < |blocks| && k <= |blocks[i].secs| && blocks[i].Gap(k) >= req + PAD + MINOR
      requires maj == blocks[i].addr && a == blocks[i].GapStart(k)
      requires MajorsMatch(majors, blocks) && MinorsMatch(minors, PlaceAt(blocks, i, k, req))
      requires maj in majors && first == if k == 0 then a else majors[maj].first
      requires AlignMatch(mem0, blocks) && KeepsPayloads(blocks, mem0, mem)
      requires memRoot == blocks[0].addr && ListedOrNull(blocks, bestBet)
      requires inUse == InUse(blocks) && reserved == Allocated(blocks)
      modifies this`majors, this`mem, this`inUse, this`blocks
      ensures Linked() && blocks == PlaceAt(old(blocks), i, k, req)
      ensures p == NewSection(old(blocks[i]), k, req).User() && KeepsPayloads(old(blocks), mem0, mem)
    {
      var size := req + PAD;
      MajorHeaderClear(blocks, i);
      StoreMajor(maj, majors[maj].(usage := majors[maj].usage + (size + MINOR), first := first));
      inUse := inUse + size;
      PlaceMajors(old(majors), blocks, i, k, req);
      PlaceTotals(blocks, i, k, req, bestBet);
      blocks := PlaceAt(blocks, i, k, req);
      p := Finish(a, req, i, k, old(blocks), mem0);
    }

    method Finish(a: nat, req: nat, ghost i: nat, ghost k: nat, ghost bs: seq<Block>, ghost mem0: map<nat, nat>)
      returns (p: nat)
      requires Sound(bs) && i < |bs| && k <= |bs[i].secs| && bs[i].Gap(k) >= req + PAD + MINOR
      requires a == bs[i].GapStart(k) && blocks == PlaceAt(bs, i, k, req)
      requires AlignMatch(mem0, bs) && KeepsPayloads(bs, mem0, mem)
      modifies this`mem
      ensures p == NewSection(bs[i], k, req).User() && AlignMatch(mem, blocks) && KeepsPayloads(bs, mem0, mem)
    {
      PlaceSound(bs, i, k, req);
      NewRecord(bs[i], k, req);
      KeptAlignment(mem0, mem, bs);
      OthersAligned(mem, bs, i, k, req);
      GapClear(bs, i, k);
      p := Align(a + MINOR, i, k);
    }

    /** CASE 2: an empty block. */
    method PlaceFirst(maj: nat, req: nat, ghost i: nat) returns (p: nat)
      requires Linked() && i < |blocks| && blocks[i].secs == [] && blocks[i].Gap(0) >= req + PAD + MINOR
      requires maj == blocks[i].addr
      modifies this`majors, this`minors, this`mem, this`inUse, this`blocks
      ensures Linked() && blocks == PlaceAt(old(blocks), i, 0, req)
      ensures p == NewSection(old(blocks[i]), 0, req).User() && KeepsPayloads(old(blocks), old(mem), mem)
    {
      NeighbourRecords(majors, minors, blocks, i, 0);
      HeadersClear(blocks, i, 0, req);
      var first := maj + MAJOR;
      StoreMinor(first, Minor(NULL, NULL, maj, MAGIC, req + PAD, req));
      PlaceMinors(old(minors), minors, blocks, i, 0, req);
      p := Account(maj, first, first, req, i, 0, old(mem));
    }

    /** CASE 3: in front of the first minor. */
    method PlaceFront(maj: nat, req: nat, ghost i: nat) returns (p: nat)
      requires Linked() && i < |blocks| && blocks[i].secs != [] && blocks[i].Gap(0) >= req + PAD + MINOR
      requires maj == blocks[i].addr
      modifies this`majors, this`minors, this`mem, this`inUse, this`blocks
      ensures Linked() && blocks == PlaceAt(old(blocks), i, 0, req)
      ensures p == NewSection(old(blocks[i]), 0, req).User() && KeepsPayloads(old(blocks), old(mem), mem)
    {
      NeighbourRecords(majors, minors, blocks, i, 0);
      HeadersClear(blocks, i, 0, req);
      var newMin := maj + MAJOR;
      var first := majors[maj].first;
      StoreMinor(first, minors[first].(prev := newMin));
      StoreMinor(newMin, Minor(NULL, first, maj, MAGIC, req + PAD, req));
      LinkFront(old(minors), blocks, i, req);
      p := Account(maj, newMin, newMin, req, i, 0, old(mem));
    }

    /** CASE 4.1: behind the last minor. */
    method PlaceBehind(maj: nat, min: nat, req: nat, ghost i: nat, ghost k: nat) returns (p: nat)
      requires Linked() && i < |blocks| && 0 < k == |blocks[i].secs| && blocks[i].Gap(k) >= req + PAD + MINOR
      requires maj == blocks[i].addr && min == blocks[i].secs[k - 1].addr
      modifies this`majors, this`minors, this`mem, this`inUse, this`blocks
      ensures Linked() && blocks == PlaceAt(old(blocks), i, k, req)
      ensures p == NewSection(old(blocks[i]), k, req).User() && KeepsPayloads(old(blocks), old(mem), mem)
    {
      NeighbourRecords(majors, minors, blocks, i, k);
      HeadersClear(blocks, i, k, req);
      var newMin := min + MINOR + minors[min].size;
      StoreMinor(min, minors[min].(next := newMin));
      StoreMinor(newMin, Minor(min, NULL, maj, MAGIC, req + PAD, req));
      LinkBehind(old(minors), blocks, i, k, req);
      p := Account(maj, newMin, majors[maj].first, req, i, k, old(mem));
    }

    /** CASE 4.2: between two minors. */
    method PlaceMiddle(maj: nat, min: nat, req: nat, ghost i: nat, ghost k: nat) returns (p: nat)
      requires Linked() && i < |blocks| && 0 < k < |blocks[i].secs| && blocks[i].Gap(k) >= req + PAD + MINOR
      requires maj == blocks[i].addr && min == blocks[i].secs[k - 1].addr
      modifies this`majors, this`minors, this`mem, this`inUse, this`blocks
      ensures Linked() && blocks == PlaceAt(old(blocks), i, k, req)
      ensures p == NewSection(old(blocks[i]), k, req).User() && KeepsPayloads(old(blocks), old(mem), mem)
    {
      NeighbourRecords(majors, minors, blocks, i, k);
      HeadersClear(blocks, i, k, req);
      var newMin := min + MINOR + minors[min].size;
      var next := minors[min].next;
      StoreMinor(newMin, Minor(min, next, maj, MAGIC, req + PAD, req));
      StoreMinor(next, minors[next].(prev := newMin));
      StoreMinor(min, minors[min].(next := newMin));
      LinkMiddle(old(minors), blocks, i, k, req);
      p := Account(maj, newMin, majors[maj].first, req, i, k, old(mem));
    }

    // ---------- kmalloc ----------

    /** Case 4: the gaps behind each minor, in order. */
    method PlaceInside(maj: nat, req: nat, ghost i: nat) returns (p: nat, ghost k: nat)
      requires Linked() && i < |blocks| && maj == blocks[i].addr && blocks[i].secs != []
      requires blocks[i].Gap(0) < req + PAD + MINOR
      modifies this`majors, this`minors, this`mem, this`inUse, this`blocks
      ensures Linked() && KeepsPayloads(old(blocks), old(mem), mem)
      ensures p == NULL ==> blocks == old(blocks) && blocks[i].NoFit(req + PAD + MINOR)
      ensures p != NULL ==>
                && old(blocks)[i].FirstFit(req + PAD + MINOR, k)
                && blocks == PlaceAt(old(blocks), i, k, req)
                && p == NewSection(old(blocks)[i], k, req).User()
    {
      var size := req + PAD;
      ghost var b := blocks[i];
      assert MajorMatches(majors, blocks, i);
      FirstIsNull(blocks, i);
      var min := majors[maj].first;
      k := 0;
      while min != NULL
        invariant unchanged(this)
        invariant k <= |b.secs| && (min == NULL <==> k == |b.secs|)
        invariant min != NULL ==> min == b.secs[k].addr
        invariant forall j :: 0 <= j <= k ==> b.Gap(j) < size + MINOR
        decreases |b.secs| - k
      {
        GapBehind(majors, minors, blocks, i, k);
        k := k + 1;
        if minors[min].next == NULL {
          var diff: nat := maj + majors[maj].size - min - MINOR - minors[min].size;
          if diff >= size + MINOR {
            p := PlaceBehind(maj, min, req, i, k);
            return;
          }
        }
        if minors[min].next != NULL {
          var diff: nat := minors[min].next - min - MINOR - minors[min].size;
          if diff >= size + MINOR {
            p := PlaceMiddle(maj, min, req, i, k);
            return;
          }
        }
        min := minors[min].next;
      }
      p := NULL;
    }

    /** Cases 2 to 4: the first gap of one block that holds the request, if there is one. */
    method PlaceInBlock(maj: nat, req: nat, ghost i: nat) returns (p: nat, ghost k: nat)
      requires Linked() && i < |blocks| && maj == blocks[i].addr
      requires blocks[i].secs == [] ==> blocks[i].Gap(0) >= req + PAD + MINOR
      modifies this`majors, this`minors, this`mem, this`inUse, this`blocks
      ensures Linked() && KeepsPayloads(old(blocks), old(mem), mem)
      ensures p == NULL ==> blocks == old(blocks) && blocks[i].NoFit(req + PAD + MINOR)
      ensures p != NULL ==>
                && old(blocks)[i].FirstFit(req + PAD + MINOR, k)
                && blocks == PlaceAt(old(blocks), i, k, req)
                && p == NewSection(old(blocks)[i], k, req).User()
    {
      k := 0;
      assert MajorMatches(majors, blocks, i);
      GapOrdered(blocks[i], 0);
      FirstIsNull(blocks, i);
      if majors[maj].first == NULL {
        p := PlaceFirst(maj, req, i);
        return;
      }
      var diff: nat := majors[maj].first - maj - MAJOR;
      if diff >= req + PAD + MINOR {
        p := PlaceFront(maj, req, i);
        return;
      }
      p, k := PlaceInside(maj, req, i);
    }

    /** The page count of allocate_new_page, in unsigned int arithmetic. */
    method PageCount(size: nat) returns (st: nat)
      ensures st == PagesFor(size)
    {
      st := (size % W32 + MAJOR) % W32;
      st := (st + MINOR) % W32;
      TruncatedSum(size);
      if st % PAGE == 0 {
        st := st / PAGE;
      } else {
        st := st / PAGE + 1;
      }
      if st < MIN_PAGES {
        st := MIN_PAGES;
      }
    }

    /** allocate_new_page; `page` is what liballoc_alloc returns for the pages asked for. */
    method AllocateNewPage(size: nat, page: nat) returns (maj: nat)
      requires page != NULL ==> forall x :: page <= x < page + MAJOR ==> !Payloads(blocks, x)
      modifies this`majors, this`mem, this`reserved
      ensures maj == page && KeepsPayloads(blocks, old(mem), mem)
      ensures page == NULL ==> majors == old(majors) && reserved == old(reserved)
      ensures page != NULL ==>
                && majors == old(majors)[page := Major(NULL, NULL, PagesFor(size), MajorSize(PagesFor(size)), MAJOR,
                                                       NULL)]
                && reserved == old(reserved) + MajorSize(PagesFor(size))
    {
      var st := PageCount(size);
      maj := page;
      if maj == NULL {
        return;
      }
      StoreMajor(maj, Major(NULL, NULL, st, MajorSize(st), MAJOR, NULL));
      reserved := reserved + majors[maj].size;
    }

    /** The first block of an empty heap. */
    method FirstBlock(req: nat, page: nat)
      requires Linked() && blocks == [] && req <= MAX_REQ
      requires page != NULL ==> FreshPages(blocks, page, PagesFor(req + PAD))
      modifies this`memRoot, this`majors, this`mem, this`reserved, this`blocks
      ensures memRoot == page && KeepsPayloads(old(blocks), old(mem), mem)
      ensures Linked() && blocks == if page == NULL then [] else [EmptyBlock(page, req)]
    {
      if page != NULL { EmptyBlockFits(blocks, page, req); }
      memRoot := AllocateNewPage(req + PAD, page);
      if memRoot != NULL {
        FirstMajor(old(majors), EmptyBlock(page, req));
        blocks := [EmptyBlock(page, req)];
        assert blocks == [] + [EmptyBlock(page, req)];
        BlockSumsConcat([], blocks);
      }
    }

    /** A new block behind the last one, `maj`. */
    method Grow(maj: nat, req: nat, page: nat) returns (next: nat)
      requires Linked() && blocks != [] && maj == blocks[|blocks| - 1].addr && req <= MAX_REQ
      requires page != NULL ==> FreshPages(blocks, page, PagesFor(req + PAD))
      modifies this`majors, this`mem, this`reserved, this`blocks
      ensures next == page && KeepsPayloads(old(blocks), old(mem), mem)
      ensures Linked() && blocks == if page == NULL then old(blocks) else old(blocks) + [EmptyBlock(page, req)]
    {
      ghost var n := |blocks|;
      assert MajorMatches(majors, blocks, n - 1);
      MajorHeaderClear(blocks, n - 1);
      if page != NULL { NewHeaderClear(blocks, page, req); }
      next := AllocateNewPage(req + PAD, page);
      if next == NULL {
        StoreMajor(maj, majors[maj].(next := next));
        assert majors == old(majors);
        KeptAlignment(old(mem), mem, blocks);
      } else {
        LinkBlock(maj, next, req, old(majors), old(mem));
      }
    }

    /** The two links between the last block and the new one. */
    method LinkBlock(maj: nat, next: nat, req: nat, ghost majors0: map<nat, Major>, ghost mem0: map<nat, nat>)
      requires Sound(blocks) && blocks != [] && maj == blocks[|blocks| - 1].addr && req <= MAX_REQ
      requires FreshPages(blocks, next, PagesFor(req + PAD))
      requires MajorsMatch(majors0, blocks) && MinorsMatch(minors, blocks) && AlignMatch(mem0, blocks)
      requires majors == majors0[next := Major(NULL, NULL, PagesFor(req + PAD), MajorSize(PagesFor(req + PAD)),
                                               MAJOR, NULL)]
      requires KeepsPayloads(blocks, mem0, mem)
      requires memRoot == blocks[0].addr && ListedOrNull(blocks, bestBet)
      requires inUse == InUse(blocks) && reserved == Allocated(blocks) + MajorSize(PagesFor(req + PAD))
      modifies this`majors, this`mem, this`blocks
      ensures Linked() && blocks == old(blocks) + [EmptyBlock(next, req)] && KeepsPayloads(old(blocks), mem0, mem)
    {
      ghost var b := EmptyBlock(next, req);
      EmptyBlockFits(blocks, next, req);
      AppendMajors(majors0, blocks, b);
      MajorHeaderClear(blocks, |blocks| - 1);
      NewHeaderClear(blocks, next, req);
      StoreMajor(maj, majors[maj].(next := next));
      StoreMajor(next, majors[next].(prev := maj));
      KeptAlignment(mem0, mem, blocks);
      AppendMinors(minors, mem, blocks, b);
      BlockSumsConcat(blocks, [b]);
      AppendedStaysListed(blocks, b, bestBet);
      blocks := blocks + [b];
    }

    /** The start of the search: the best bet when it is promising, else the root. */
    method StartSearch(req: nat) returns (maj: nat, startedBet: bool, bestSize: nat, ghost i: nat)
      requires Valid() && blocks != []
      ensures i < |blocks| && maj == blocks[i].addr
      ensures Searching(Abs(), req, 0, blocks, i, startedBet, false)
      ensures Hint(Abs(), req, blocks, i, startedBet, bestBet, bestSize)
    {
      maj, startedBet, bestSize, i := memRoot, false, 0, 0;
      ghost var bet := IndexOf(blocks, bestBet);
      BetIndex(blocks, bestBet);
      if bestBet != NULL {
        assert MajorMatches(majors, blocks, bet);
        GapAtMostFree(blocks[bet], 0);
        bestSize := majors[bestBet].size - majors[bestBet].usage;
        if bestSize > req + PAD + MINOR {
          maj, startedBet, i := bestBet, true, bet;
        }
      }
    }

    /** The search stands at block i, which is at `maj`. */
    ghost predicate Looking(s: State, req: nat, page: nat, maj: nat, i: nat, startedBet: bool, grown: bool)
      reads this
    {
      Searching(s, req, page, blocks, i, startedBet, grown) && maj == blocks[i].addr
    }

    /** The hint takes into account the blocks before block i. */
    ghost predicate Hinted(s: State, req: nat, i: nat, startedBet: bool, bestSize: int)
      reads this
    {
      Hint(s, req, blocks, i, startedBet, bestBet, bestSize)
    }

    /** The search is over: no block has a fit, and there is no memory for another one. */
    ghost predicate Exhausted(s: State, req: nat, page: nat)
      reads this
    {
      && page == NULL && blocks == s.blocks && NoFits(blocks, req + PAD + MINOR, 0, |blocks|)
      && Remembers(s, blocks, bestBet, Start(s, req + PAD + MINOR), j => true)
    }

    /** Where the search goes when block i has no fit (the ends of CASE 1 and CASE 5): to the next block,
        back to the root, or to a new block. */
    method Advance(maj: nat, startedBet: bool, req: nat, page: nat, ghost s: State, ghost i: nat, ghost best: int)
      returns (maj': nat, startedBet': bool, ghost i': nat, grown: bool)
      requires Linked() && req <= MAX_REQ && Looking(s, req, page, maj, i, startedBet, false)
      requires page != NULL ==> FreshPages(blocks, page, PagesFor(req + PAD))
      requires blocks[i].NoFit(req + PAD + MINOR) && Hinted(s, req, i + 1, startedBet, best)
      modifies this`majors, this`mem, this`reserved, this`blocks
      ensures Linked() && KeepsPayloads(old(blocks), old(mem), mem)
      ensures if maj' == NULL then Exhausted(s, req, page)
              else Looking(s, req, page, maj', i', startedBet', grown) && Hinted(s, req, i', startedBet', best)
      ensures maj' != NULL && !grown ==> blocks == old(blocks) && Later(startedBet, i, startedBet', i')
      ensures maj' != NULL && grown ==>
                NewLookedAt(s.blocks, req + PAD + MINOR) == (old(blocks[i].Free()) >= req + PAD + MINOR)
    {
      assert MajorMatches(majors, blocks, i);
      LastInList(blocks, i);
      SearchMovesOn(s, req, page, blocks, i, startedBet);
      HintMovesOn(s, req, page, blocks, i, startedBet, bestBet, best);
      if majors[maj].next != NULL {
        return majors[maj].next, startedBet, i + 1, false;
      }
      if startedBet {
        return memRoot, false, 0, false;
      }
      maj' := AppendNew(maj, req, page, s, i, best);
      startedBet', i', grown := false, i + 1, true;
    }

    /** The last block has no fit, and all others have been seen: a new block, or the end. */
    method AppendNew(maj: nat, req: nat, page: nat, ghost s: State, ghost i: nat, ghost best: int) returns (next: nat)
      requires Linked() && req <= MAX_REQ && Looking(s, req, page, maj, i, false, false) && i + 1 == |blocks|
      requires page != NULL ==> FreshPages(blocks, page, PagesFor(req + PAD))
      requires blocks[i].NoFit(req + PAD + MINOR) && Hinted(s, req, i + 1, false, best)
      modifies this`majors, this`mem, this`reserved, this`blocks
      ensures Linked() && KeepsPayloads(old(blocks), old(mem), mem)
      ensures if next == NULL then Exhausted(s, req, page)
              else Looking(s, req, page, next, i + 1, false, true) && Hinted(s, req, i + 1, false, best)
    {
      SearchMovesOn(s, req, page, blocks, i, false);
      HintMovesOn(s, req, page, blocks, i, false, bestBet, best);
      next := Grow(maj, req, page);
      if next != NULL { EmptyBlockFits(s.blocks, page, req); }
    }

    /** The hint: a block with more free memory than any seen so far is the best bet from now on. */
    method Remember(maj: nat, bestSize: nat, startedBet: bool, req: nat, ghost page: nat, ghost grown: bool,
                    ghost s: State, ghost i: nat)
      returns (diff: nat, bestSize': nat)
      requires Linked() && Looking(s, req, page, maj, i, startedBet, grown) && Hinted(s, req, i, startedBet, bestSize)
      requires grown ==> NewLookedAt(s.blocks, req + PAD + MINOR)
      modifies this`bestBet
      ensures Linked() && diff == blocks[i].Free() >= 0
      ensures Hinted(s, req, i + 1, startedBet, bestSize')
    {
      assert MajorMatches(majors, blocks, i);
      GapAtMostFree(blocks[i], 0);
      IndexOfBlock(blocks, i);
      diff := majors[maj].size - majors[maj].usage;
      bestSize' := bestSize;
      if bestSize < diff {
        HintRises(s, req, page, blocks, i, startedBet, grown, bestBet, bestSize);
        bestBet := maj;
        bestSize' := diff;
      } else {
        HintStays(s, req, page, blocks, i, startedBet, grown, bestBet, bestSize);
      }
    }

    /** CASES 2 to 5 at block i. */
    method PlaceOrAdvance(maj: nat, startedBet: bool, grown: bool, req: nat, page: nat, ghost s: State, ghost i: nat,
                          ghost best: int)
      returns (p: nat, maj': nat, startedBet': bool, grown': bool, ghost i': nat)
      requires Linked() && req <= MAX_REQ && Good(s) && Looking(s, req, page, maj, i, startedBet, grown)
      requires page != NULL ==> FreshPages(s.blocks, page, PagesFor(req + PAD))
      requires Hinted(s, req, i + 1, startedBet, best)
      requires !grown ==> blocks[i].Free() >= req + PAD + MINOR
      modifies this`majors, this`minors, this`mem, this`inUse, this`reserved, this`blocks
      ensures Linked() && KeepsPayloads(old(blocks), old(mem), mem)
      ensures p != NULL ==> NoneEmpty(blocks) && MallocStep(s, Abs(), req, page, p)
      ensures p == NULL ==>
                && !grown
                && (if maj' == NULL then Exhausted(s, req, page)
                    else Looking(s, req, page, maj', i', startedBet', grown') && Hinted(s, req, i', startedBet', best))
                && (maj' != NULL && !grown' ==> blocks == old(blocks) && Later(startedBet, i, startedBet', i'))
                && (maj' != NULL && grown' ==> NewLookedAt(s.blocks, req + PAD + MINOR))
    {
      maj', startedBet', grown', i' := maj, startedBet, grown, i;
      if grown { EmptyBlockFits(s.blocks, page, req); }
      ghost var before, k := blocks, 0;
      p, k := PlaceInBlock(maj, req, i);
      if p != NULL {
        SearchEnds(s, Abs(), req, page, before, i, startedBet, grown, k, p, best);
      } else {
        maj', startedBet', i', grown' := Advance(maj, startedBet, req, page, s, i, best);
      }
    }

    /** CASE 1: a block with too little free memory is passed over.  Only a new block lets the search fall
        through to the placing cases. */
    method PassOver(maj: nat, startedBet: bool, grown: bool, diff: nat, req: nat, page: nat, ghost s: State,
                    ghost i: nat, ghost best: int)
      returns (maj': nat, startedBet': bool, grown': bool, ghost i': nat)
      requires Linked() && req <= MAX_REQ && Good(s) && Looking(s, req, page, maj, i, startedBet, grown)
      requires page != NULL ==> FreshPages(s.blocks, page, PagesFor(req + PAD))
      requires diff == blocks[i].Free() && diff < req + PAD + MINOR && Hinted(s, req, i + 1, startedBet, best)
      modifies this`majors, this`mem, this`reserved, this`blocks
      ensures !grown && Linked() && KeepsPayloads(old(blocks), old(mem), mem)
      ensures if maj' == NULL then Exhausted(s, req, page)
              else Looking(s, req, page, maj', i', startedBet', grown') && Hinted(s, req, i', startedBet', best)
      ensures maj' != NULL && !grown' ==> blocks == old(blocks) && Later(startedBet, i, startedBet', i')
      ensures maj' != NULL && grown' ==> Hinted(s, req, i' + 1, startedBet', best)
    {
      if grown { EmptyBlockFits(s.blocks, page, req); }
      TooLittleFree(blocks[i], req + PAD + MINOR);
      maj', startedBet', i', grown' := Advance(maj, startedBet, req, page, s, i, best);
    }

    /** The cases of the loop of kmalloc at block i, which has `diff` bytes free. */
    method TryBlock(maj: nat, startedBet: bool, grown: bool, diff: nat, req: nat, page: nat, ghost s: State,
                    ghost i: nat, ghost best: int)
      returns (p: nat, maj': nat, startedBet': bool, grown': bool, ghost i': nat)
      requires Linked() && req <= MAX_REQ && Good(s) && Looking(s, req, page, maj, i, startedBet, grown)
      requires page != NULL ==> FreshPages(s.blocks, page, PagesFor(req + PAD))
      requires diff == blocks[i].Free() && Hinted(s, req, i + 1, startedBet, best)
      modifies this`majors, this`minors, this`mem, this`inUse, this`reserved, this`blocks
      ensures Linked() && KeepsPayloads(old(blocks), old(mem), mem)
      ensures p != NULL ==> NoneEmpty(blocks) && MallocStep(s, Abs(), req, page, p)
      ensures p == NULL ==>
                && !grown
                && (if maj' == NULL then Exhausted(s, req, page)
                    else Looking(s, req, page, maj', i', startedBet', grown') && Hinted(s, req, i', startedBet', best))
                && (maj' != NULL && !grown' ==> blocks == old(blocks) && Later(startedBet, i, startedBet', i'))
                && (maj' != NULL && grown' ==> NewLookedAt(s.blocks, req + PAD + MINOR))
    {
      maj', startedBet', grown', i' := maj, startedBet, grown, i;
      p := NULL;
      if diff < req + PAD + MINOR {
        maj', startedBet', grown', i' := PassOver(maj, startedBet, grown, diff, req, page, s, i, best);
        if maj' == NULL || !grown' {
          return;
        }
      }
      SearchKeepsPayloads(s, req, page, blocks, i', startedBet', grown');
      p, maj', startedBet', grown', i' := PlaceOrAdvance(maj', startedBet', grown', req, page, s, i', best);
    }

    /** One turn of the loop of kmalloc, at block i. */
    method Visit(maj: nat, startedBet: bool, grown: bool, bestSize: nat, req: nat, page: nat, ghost s: State,
                 ghost i: nat)
      returns (p: nat, maj': nat, startedBet': bool, grown': bool, bestSize': nat, ghost i': nat)
      requires Linked() && req <= MAX_REQ && Good(s) && Looking(s, req, page, maj, i, startedBet, grown)
      requires page != NULL ==> FreshPages(s.blocks, page, PagesFor(req + PAD))
      requires Hinted(s, req, i, startedBet, bestSize) && (grown ==> NewLookedAt(s.blocks, req + PAD + MINOR))
      modifies this
      ensures Linked() && KeepsPayloads(old(blocks), old(mem), mem)
      ensures p != NULL ==> NoneEmpty(blocks) && MallocStep(s, Abs(), req, page, p)
      ensures p == NULL ==>
                && !grown
                && (if maj' == NULL then Exhausted(s, req, page)
                    else Looking(s, req, page, maj', i', startedBet', grown')
                         && Hinted(s, req, i', startedBet', bestSize'))
                && (maj' != NULL && !grown' ==> blocks == old(blocks) && Later(startedBet, i, startedBet', i'))
                && (maj' != NULL && grown' ==> NewLookedAt(s.blocks, req + PAD + MINOR))
    {
      var diff;
      diff, bestSize' := Remember(maj, bestSize, startedBet, req, page, grown, s, i);
      p, maj', startedBet', grown', i' := TryBlock(maj, startedBet, grown, diff, req, page, s, i, bestSize');
    }

    /** kmalloc; `page` is what liballoc_alloc returns if it is called (NULL when memory is out). */
    method KMalloc(req: nat, page: nat) returns (p: nat)
      requires Valid() && req <= MAX_REQ
      requires page != NULL ==> FreshPages(blocks, page, PagesFor(req + PAD))
      modifies this
      ensures Valid()
      ensures MallocStep(old(Abs()), Abs(), req, page, p)
      ensures KeepsPayloads(old(blocks), old(mem), mem)
    {
      ghost var s := Abs();
      var maj, startedBet, bestSize;
      ghost var i: nat;
      var grown := false;
      if memRoot == NULL {
        RootIsNull(blocks);
        FirstBlock(req, page);
        if memRoot == NULL {
          return NULL;
        }
        maj, startedBet, bestSize, i, grown := memRoot, false, 0, 0, true;
        NullFree(blocks);
      } else {
        maj, startedBet, bestSize, i := StartSearch(req);
      }
      LastInList(blocks, i);
      while maj != NULL
        invariant Linked() && KeepsPayloads(s.blocks, old(mem), mem)
        invariant if maj == NULL then Exhausted(s, req, page)
                  else Looking(s, req, page, maj, i, startedBet, grown) && Hinted(s, req, i, startedBet, bestSize)
        invariant maj != NULL && grown ==> NewLookedAt(s.blocks, req + PAD + MINOR)
        decreases maj != NULL, !grown, startedBet, |blocks| - i
      {
        SearchKeepsPayloads(s, req, page, blocks, i, startedBet, grown);
        p, maj, startedBet, grown, bestSize, i := Visit(maj, startedBet, grown, bestSize, req, page, s, i);
        if p != NULL {
          return;
        }
      }
      p := NULL;
    }

    // ---------- kfree ----------

    /** The UNALIGN macro. */
    function Unalign(ptr: nat): nat
      requires ptr >= PAD
      reads this
    {
      var diff := At(mem, ptr - ALIGN_INFO);
      if diff < ALIGNMENT + ALIGN_INFO then ptr - diff else ptr
    }

    /** What UNALIGN finds for a pointer that kmalloc returned. */
    lemma UnalignFinds(ptr: nat, i: nat, k: nat)
      requires Linked() && PointsTo(blocks, ptr, i, k)
      ensures ptr >= PAD + MINOR && Unalign(ptr) == blocks[i].secs[k].Payload()
      ensures blocks[i].secs[k].addr in minors && minors[blocks[i].secs[k].addr] == MinorRecord(blocks[i], k)
    {
      SectionInBlock(blocks, i, k);
      assert AlignByte(mem, blocks[i].secs[k]);
      assert MinorMatches(minors, blocks[i], k);
    }

    /** A pointer whose header does not carry the magic number. */
    ghost predicate Corrupt(ptr: nat)
      reads this
    {
      ptr >= PAD + MINOR && Unalign(ptr) - MINOR in minors && minors[Unalign(ptr) - MINOR].magic != MAGIC
    }

    /** The minor is marked dead and its neighbours are joined. */
    method JoinMinors(min: nat, ghost i: nat, ghost k: nat)
      requires Sound(blocks) && MinorsMatch(minors, blocks) && IsSection(blocks, i, k) && min == blocks[i].secs[k].addr
      modifies this`minors, this`mem
      ensures LinkedOut(old(minors), minors, blocks[i], k) && KeepsPayloads(blocks, old(mem), mem)
      ensures min in minors && minors[min].magic == DEAD
    {
      MinorNeighbours(minors, blocks, i, k);
      UnlinkClear(blocks, i, k);
      StoreMinor(min, minors[min].(magic := DEAD));
      var next, prev := minors[min].next, minors[min].prev;
      if next != NULL {
        StoreMinor(next, minors[next].(prev := prev));
      }
      if prev != NULL {
        StoreMinor(prev, minors[prev].(next := next));
      }
    }

    /** kfree, first part: the totals, and the minor leaves its list. */
    method Unlink(min: nat, ghost i: nat, ghost k: nat)
      requires Linked() && IsSection(blocks, i, k) && min == blocks[i].secs[k].addr
      modifies this`majors, this`minors, this`mem, this`inUse, this`blocks
      ensures Linked() && blocks == old(blocks)[i := RemoveAt(old(blocks)[i], k)]
      ensures KeepsPayloads(old(blocks), old(mem), mem) && min in minors && minors[min].magic == DEAD
    {
      UnlinkRecords(majors, minors, blocks, i, k);
      MajorHeaderClear(blocks, i);
      RemoveTotals(blocks, i, k, bestBet);
      RemoveMajors(majors, blocks, i, k);
      var r := minors[min];
      var maj := r.block;
      inUse := inUse - r.size;
      StoreMajor(maj, majors[maj].(usage := majors[maj].usage - (r.size + MINOR)));
      JoinMinors(min, i, k);
      if r.prev == NULL {
        StoreMajor(maj, majors[maj].(first := r.next));
      }
      ghost var rec := old(majors)[maj];
      assert majors == old(majors)[maj := rec.(usage := rec.usage - (r.size + MINOR),
                                               first := if k == 0 then r.next else rec.first)];
      RemoveMinors(old(minors), minors, blocks, i, k);
      KeptAlignment(old(mem), mem, blocks);
      RemovedAligned(mem, blocks, i, k);
      blocks := blocks[i := RemoveAt(blocks[i], k)];
    }

    /** The neighbours of a block in the list are joined. */
    method JoinMajors(maj: nat, ghost i: nat)
      requires Sound(blocks) && MajorsMatch(majors, blocks) && i < |blocks| && maj == blocks[i].addr
      modifies this`majors, this`mem
      ensures MajorsMatch(majors, blocks[..i] + blocks[i + 1..]) && KeepsPayloads(blocks, old(mem), mem)
    {
      MajorNeighbours(majors, blocks, i);
      var prev, next := majors[maj].prev, majors[maj].next;
      if prev != NULL {
        MajorHeaderClear(blocks, i - 1);
        StoreMajor(prev, majors[prev].(next := next));
      }
      if next != NULL {
        MajorHeaderClear(blocks, i + 1);
        StoreMajor(next, majors[next].(prev := prev));
      }
      DropMajors(old(majors), majors, blocks, i);
    }

    /** kfree, second part: a block without minors leaves the list and goes back to the system. */
    method ReleaseBlock(maj: nat, ghost i: nat)
      requires Linked() && i < |blocks| && maj == blocks[i].addr && blocks[i].secs == []
      modifies this`majors, this`mem, this`memRoot, this`bestBet, this`reserved, this`blocks
      ensures Linked() && blocks == old(blocks)[..i] + old(blocks)[i + 1..]
      ensures bestBet == (if old(bestBet) == maj then NULL else old(bestBet))
              && KeepsPayloads(old(blocks), old(mem), mem)
    {
      MajorNeighbours(majors, blocks, i);
      DropTotals(blocks, i, bestBet);
      if memRoot == maj {
        memRoot := majors[maj].next;
      }
      if bestBet == maj {
        bestBet := NULL;
      }
      reserved := reserved - majors[maj].size;
      JoinMajors(maj, i);
      KeptAlignment(old(mem), mem, blocks);
      DropRest(minors, mem, blocks, i);
      blocks := blocks[..i] + blocks[i + 1..];
    }

    /** kfree, second part, for a block still in use: it becomes the best bet if it has more to offer.
        The sizes are compared as signed 32-bit integers. */
    method RepairBet(maj: nat, ghost i: nat)
      requires Linked() && i < |blocks| && maj == blocks[i].addr
      modifies this`bestBet
      ensures Linked()
      ensures var free, bet := SignedInt(blocks[i].Free()), old(bestBet);
              bestBet == if bet != NULL && free > SignedInt(FreeOf(blocks, bet)) then maj else bet
    {
      if bestBet != NULL {
        ghost var bet := IndexOf(blocks, bestBet);
        BetIndex(blocks, bestBet);
        assert MajorMatches(majors, blocks, bet) && MajorMatches(majors, blocks, i);
        GapAtMostFree(blocks[bet], 0);
        GapAtMostFree(blocks[i], 0);
        var bestSize := SignedInt(majors[bestBet].size - majors[bestBet].usage);
        var majSize := SignedInt(majors[maj].size - majors[maj].usage);
        if majSize > bestSize {
          bestBet := maj;
        }
      }
    }

    /** The header of a section that has been freed is still found behind its pointer, and is no minor's any more. */
    lemma FreedIsDead(ptr: nat, min: nat, bs: seq<Block>, mem0: map<nat, nat>, i: nat, k: nat)
      requires Linked() && Sound(bs) && AlignMatch(mem0, bs) && PointsTo(bs, ptr, i, k) && min == bs[i].secs[k].addr
      requires KeepsPayloads(bs, mem0, mem) && min in minors && minors[min].magic == DEAD
      ensures Corrupt(ptr) && !Live(blocks, ptr)
    {
      SectionInBlock(bs, i, k);
      assert AlignByte(mem0, bs[i].secs[k]);
      assert InPayload(bs, i, k, ptr - ALIGN_INFO);
      assert Unalign(ptr) - MINOR == min;
      forall j, l | PointsTo(blocks, ptr, j, l) ensures false {
        UnalignFinds(ptr, j, l);
      }
    }

    /** kfree of a live pointer, that of section k of block i, whose header is at `min`. */
    method FreeLive(ptr: nat, min: nat, ghost i: nat, ghost k: nat)
      requires Valid() && PointsTo(blocks, ptr, i, k) && min == blocks[i].secs[k].addr
      modifies this
      ensures Valid() && KeepsPayloads(blocks, old(mem), mem)
      ensures FreeStep(old(Abs()), Abs(), ptr)
      ensures |blocks| == |old(blocks)| ==>
                min in minors && minors[min].magic == 0xdead_dead && Corrupt(ptr) && !Live(blocks, ptr)
    {
      ghost var s, bs, mem0 := Abs(), blocks, mem;
      FreeSection(min, i, k);
      assert Freed(s, Abs(), ptr, i, k);
      if |blocks| == |bs| { FreedIsDead(ptr, min, bs, mem0, i, k); }
    }

    /** kfree of NULL, of a live pointer, or of one whose header is not a minor's. */
    method KFree(ptr: nat)
      requires Valid() && (ptr == NULL || Live(blocks, ptr) || Corrupt(ptr))
      modifies this
      ensures Valid() && KeepsPayloads(blocks, old(mem), mem)
      ensures if old(Live(blocks, ptr)) then FreeStep(old(Abs()), Abs(), ptr)
              else Abs() == old(Abs()) && majors == old(majors) && minors == old(minors) && mem == old(mem)
      ensures old(Live(blocks, ptr)) && |blocks| == |old(blocks)| ==> Corrupt(ptr) && !Live(blocks, ptr)
    {
      if ptr == NULL {
        NullIsNotLive(blocks);
        return;
      }
      ghost var live := Live(blocks, ptr);
      ghost var i: nat, k: nat := 0, 0;
      if live {
        i, k :| PointsTo(blocks, ptr, i, k);
        UnalignFinds(ptr, i, k);
      }
      var min := Unalign(ptr) - MINOR;
      if minors[min].magic != MAGIC {
        return;
      }
      assert live;
      FreeLive(ptr, min, i, k);
    }

    /** The rest of kfree, for the header of section k of block i. */
    method FreeSection(min: nat, ghost i: nat, ghost k: nat)
      requires Valid() && IsSection(blocks, i, k) && min == blocks[i].secs[k].addr
      modifies this
      ensures Valid() && KeepsPayloads(blocks, old(mem), mem)
      ensures blocks == FreeAt(old(blocks), i, k) && bestBet == FreedBet(old(blocks), old(bestBet), i, k)
      ensures |blocks| == |old(blocks)| ==>
                KeepsPayloads(old(blocks), old(mem), mem) && min in minors && minors[min].magic == DEAD
    {
      ghost var bs := blocks;
      FreeSound(bs, i, k);
      FreeKeepsPayloads(bs, i, k);
      assert MinorMatches(minors, blocks[i], k);
      var maj := minors[min].block;
      Unlink(min, i, k);
      UnlinkedPayloads(bs, i, k);
      assert MajorMatches(majors, blocks, i);
      FirstIsNull(blocks, i);
      if majors[maj].first == NULL {
        ReleaseBlock(maj, i);
      } else {
        RepairBet(maj, i);
      }
    }

    // ---------- krealloc ----------

    /** liballoc_memcpy: words of four bytes as long as they fit, then single bytes.  For ranges that do
        not overlap it is a copy byte by byte. */
    method MemCpy(dst: nat, src: nat, n: nat)
      requires dst + n <= src || src + n <= dst
      modifies this`mem
      ensures Copied(old(mem), mem, dst, src, n)
    {
      var d, s, left: nat := dst, src, n;
      ghost var done: nat := 0;
      while left >= 4
        invariant left + done == n && d == dst + done && s == src + done
        invariant Copied(old(mem), mem, dst, src, done)
      {
        SourceIntact(old(mem), mem, dst, src, done, done);
        SourceIntact(old(mem), mem, dst, src, done, done + 1);
        SourceIntact(old(mem), mem, dst, src, done, done + 2);
        SourceIntact(old(mem), mem, dst, src, done, done + 3);
        var b0, b1, b2, b3 := At(mem, s), At(mem, s + 1), At(mem, s + 2), At(mem, s + 3);
        CopyWord(old(mem), mem, dst, src, done, d, b0, b1, b2, b3);
        mem := PutWord(mem, d, b0, b1, b2, b3);
        d, s, left, done := d + 4, s + 4, left - 4, done + 4;
      }
      while left > 0
        invariant left + done == n && d == dst + done && s == src + done
        invariant Copied(old(mem), mem, dst, src, done)
      {
        SourceIntact(old(mem), mem, dst, src, done, done);
        CopyOne(old(mem), mem, dst, src, done, d, At(mem, s));
        mem := Put(mem, d, At(mem, s));
        d, s, left, done := d + 1, s + 1, left - 1, done + 1;
      }
    }

    /** A user of the heap stores a byte in memory it was given. */
    method UserStore(ptr: nat, offset: nat, v: nat, ghost i: nat, ghost k: nat)
      requires Valid() && PointsTo(blocks, ptr, i, k) && offset < blocks[i].secs[k].req
      modifies this`mem
      ensures Valid() && At(mem, ptr + offset) == v
      ensures forall x: nat :: x != ptr + offset ==> At(mem, x) == At(old(mem), x)
    {
      mem := Put(mem, ptr + offset, v);
      UserBytesAreFree(old(mem), mem, blocks, i, k);
    }

    /** krealloc to a size the section already has room for. */
    method Shrink(min: nat, size: nat, ghost i: nat, ghost k: nat)
      requires Valid() && IsSection(blocks, i, k) && min == blocks[i].secs[k].addr && size <= blocks[i].secs[k].req
      modifies this`minors, this`mem, this`blocks
      ensures Valid() && blocks == ShrinkAt(old(blocks), i, k, size) && KeepsPayloads(old(blocks), old(mem), mem)
    {
      MinorHeaderClear(blocks, i, k);
      assert MinorMatches(minors, blocks[i], k);
      StoreMinor(min, minors[min].(req := size));
      KeptAlignment(old(mem), mem, blocks);
      ShrunkMatches(majors, old(minors), mem, blocks, i, k, size, bestBet);
      blocks := ShrinkAt(blocks, i, k, size);
    }

    /** The end of a move: the bytes are copied to the new place, and the old one is freed. */
    method CopyAndFree(ptr: nat, p: nat, realSize: nat, ghost s: State, ghost mem0: map<nat, nat>, ghost size: nat,
                       ghost page: nat, ghost i: nat, ghost k: nat)
      requires Valid() && Sound(s.blocks) && MallocStep(s, Abs(), size, page, ptr) && KeepsPayloads(s.blocks, mem0, mem)
      requires PointsTo(s.blocks, p, i, k) && realSize == s.blocks[i].secs[k].req < size
               && (ptr == NULL ==> realSize == 0)
      modifies this
      ensures Valid() && FreeStep(old(Abs()), Abs(), p)
      ensures ptr != NULL ==>
                Bytes(mem, ptr, realSize) == Bytes(mem0, p, realSize) && OthersKeep(blocks, ptr, mem0, mem)
      ensures ptr == NULL ==> LiveBytesKept(s.blocks, blocks, mem0, mem)
    {
      ghost var mid, mem1 := Abs(), mem;
      MoveTarget(s, mid, size, page, ptr, p, i, k);
      MemCpy(ptr, p, realSize);
      CopyKeepsAlignment(s, mid, size, page, ptr, realSize, mem1, mem);
      ghost var mem2 := mem;
      KFree(p);
      if ptr != NULL {
        MovedBytes(s, mid, Abs(), size, page, ptr, p, i, k, mem0, mem1, mem2, mem);
      } else {
        KeptTwice(s.blocks, blocks, mem0, mem2, mem);
      }
    }

    /** krealloc to a larger size, for section k of block i: a new block, a copy, and the old one freed. */
    method Move(p: nat, realSize: nat, size: nat, page: nat, ghost i: nat, ghost k: nat) returns (r: Outcome)
      requires Valid() && PointsTo(blocks, p, i, k) && realSize == blocks[i].secs[k].req < size <= MAX_REQ
      requires page != NULL ==> FreshPages(blocks, page, PagesFor(size + PAD))
      modifies this
      ensures r.Returned? ==> Valid()
      ensures exists mid, q :: Moved(old(Abs()), mid, Abs(), p, realSize, size, page, q, r)
      ensures r.Returned? && r.ptr != NULL ==>
                Bytes(mem, r.ptr, realSize) == Bytes(old(mem), p, realSize) && OthersKeep(blocks, r.ptr, old(mem), mem)
      ensures r.Returned? && r.ptr == NULL ==> LiveBytesKept(old(blocks), blocks, old(mem), mem)
    {
      ghost var s := Abs();
      var ptr := KMalloc(size, page);
      ghost var mid := Abs();
      r := PageFault;
      if ptr != NULL || realSize == 0 {
        CopyAndFree(ptr, p, realSize, s, old(mem), size, page, i, k);
        r := Returned(ptr);
      }
      assert Moved(s, mid, Abs(), p, realSize, size, page, ptr, r);
    }

    /** The rest of krealloc, for the pointer p of section k of block i, whose header is at `min`. */
    method Resize(p: nat, min: nat, size: nat, page: nat, ghost i: nat, ghost k: nat) returns (r: Outcome)
      requires Valid() && PointsTo(blocks, p, i, k) && min == blocks[i].secs[k].addr && 0 < size <= MAX_REQ
      requires page != NULL ==> FreshPages(blocks, page, PagesFor(size + PAD))
      modifies this
      ensures r.Returned? ==> Valid()
      ensures ReallocStep(old(Abs()), Abs(), p, i, k, size, page, r)
      ensures r.Returned? && r.ptr != NULL ==>
                var req := old(blocks[i].secs[k].req);
                var n := if size < req then size else req;
                Bytes(mem, r.ptr, n) == Bytes(old(mem), p, n) && OthersKeep(blocks, r.ptr, old(mem), mem)
      ensures r.Returned? && r.ptr == NULL ==> LiveBytesKept(old(blocks), blocks, old(mem), mem)
    {
      NullIsNotLive(blocks);
      assert MinorMatches(minors, blocks[i], k);
      var realSize := minors[min].req;
      if realSize >= size {
        Shrink(min, size, i, k);
        OldBytesKept(old(blocks), old(mem), mem, i, k, size);
        ShrunkPayloads(old(blocks), i, k, size, p, old(mem), mem);
        return Returned(p);
      }
      r := Move(p, realSize, size, page, i, k);
    }

    /** krealloc of NULL, of a live pointer (then i and k say of which section), or of a corrupt one. */
    method KRealloc(p: nat, size: nat, page: nat) returns (r: Outcome, ghost i: nat, ghost k: nat)
      requires Valid() && size <= MAX_REQ && (p == NULL || Live(blocks, p) || Corrupt(p))
      requires page != NULL ==> FreshPages(blocks, page, PagesFor(size + PAD))
      modifies this
      ensures r.Returned? ==> Valid()
      ensures old(Live(blocks, p)) ==>
                && old(PointsTo(blocks, p, i, k))
                && (if size == 0 then r == Returned(NULL) && FreeStep(old(Abs()), Abs(), p)
                    else ReallocStep(old(Abs()), Abs(), p, i, k, size, page, r))
      ensures old(!Live(blocks, p)) && size > 0 && p == NULL ==>
                r.Returned? && MallocStep(old(Abs()), Abs(), size, page, r.ptr)
      ensures old(!Live(blocks, p)) && (size == 0 || p != NULL) ==> r == Returned(NULL) && Abs() == old(Abs())
      ensures r.Returned? && r.ptr != NULL && p != NULL ==>
                && old(PointsTo(blocks, p, i, k))
                && var req := old(blocks[i].secs[k].req);
                var n := if size < req then size else req;
                Bytes(mem, r.ptr, n) == Bytes(old(mem), p, n) && OthersKeep(blocks, r.ptr, old(mem), mem)
      ensures r.Returned? && (size == 0 || p == NULL || r.ptr == NULL) ==>
                LiveBytesKept(old(blocks), blocks, old(mem), mem)
    {
      i, k := 0, 0;
      NullIsNotLive(blocks);
      ghost var live := Live(blocks, p);
      if live {
        i, k :| PointsTo(blocks, p, i, k);
        UnalignFinds(p, i, k);
      }
      if size == 0 {
        KFree(p);
        return Returned(NULL), i, k;
      }
      if p == NULL {
        var q := KMalloc(size, page);
        return Returned(q), i, k;
      }
      var min := Unalign(p) - MINOR;
      if minors[min].magic != MAGIC {
        return Returned(NULL), i, k;
      }
      r := Resize(p, min, size, page, i, k);
    }
  }
}
