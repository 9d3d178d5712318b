/** Facts about layouts, headers and bytes that the allocator's methods rely on. */
module HeapProofs {
  import opened Units
  import opened HeapLayout
  import opened HeapSteps
  import opened HeapRecords
  import Words

  lemma TruncatedSum(size: nat)
    ensures ((size % W32 + MAJOR) % W32 + MINOR) % W32 == (size + MAJOR + MINOR) % W32
  {}

  lemma NewHeaderClear(bs: seq<Block>, page: nat, req: nat)
    requires Sound(bs) && req <= MAX_REQ && FreshPages(bs, page, PagesFor(req + PAD))
    ensures forall x :: page <= x < page + MAJOR ==> !Payloads(bs, x)
  {
    var b := EmptyBlock(page, req);
    EmptyBlockFits(bs, page, req);
    MajorHeaderClear(bs + [b], |bs|);
    AppendMinors(map[], map[], bs, b);
  }

  /** What next says about a block's place in the list. */
  lemma LastInList(bs: seq<Block>, i: nat)
    requires Sound(bs) && i < |bs|
    ensures MajorRecord(bs, i).next == NULL <==> i + 1 == |bs|
    ensures bs[0].addr != NULL && bs[i].addr != NULL
  {
    assert bs[0].WF() && bs[i].WF();
    if i + 1 < |bs| { assert bs[i + 1].WF(); }
  }

  /** The search goes on behind block i, or has restarted at the root for the one time it may. */
  ghost predicate Later(startedBet: bool, i: nat, startedBet': bool, i': nat) {
    if startedBet then !startedBet' || i' > i else !startedBet' && i' > i
  }

  /** NULL is the address of no block. */
  lemma BetIndex(bs: seq<Block>, bet: nat)
    requires Sound(bs) && ListedOrNull(bs, bet)
    ensures IndexOf(bs, bet) < |bs| <==> bet != NULL
  {
    forall i | 0 <= i < |bs| ensures bs[i].addr != NULL {
      assert bs[i].WF();
    }
  }

  /** NULL, as a hint, offers nothing. */
  lemma NullFree(bs: seq<Block>)
    requires Sound(bs)
    ensures FreeOf(bs, NULL) == 0
  {
    BetIndex(bs, NULL);
  }

  lemma IndexOfBlock(bs: seq<Block>, i: nat)
    requires Sound(bs) && i < |bs|
    ensures IndexOf(bs, bs[i].addr) == i
  {
    forall j | 0 <= j < |bs| && j != i ensures bs[j].addr != bs[i].addr {
      BlockAddresses(bs, i, j);
    }
    IndexFound(bs, bs[i].addr, i);
  }

  lemma RootIsNull(bs: seq<Block>)
    requires Sound(bs)
    ensures (if bs == [] then NULL else bs[0].addr) == NULL <==> bs == []
  {
    if bs != [] { assert bs[0].WF(); }
  }

  lemma AppendedStaysListed(bs: seq<Block>, b: Block, a: nat)
    requires ListedOrNull(bs, a)
    ensures ListedOrNull(bs + [b], a)
  {
    if a != NULL {
      var j :| 0 <= j < |bs| && bs[j].addr == a;
      assert (bs + [b])[j].addr == a;
    }
  }

  lemma FirstIsNull(bs: seq<Block>, i: nat)
    requires Sound(bs) && i < |bs|
    ensures MajorRecord(bs, i).first == NULL <==> bs[i].secs == []
  {
    if bs[i].secs != [] { SectionInBlock(bs, i, 0); }
  }

  /** What the headers say about the gap behind section l, and the section behind that. */
  lemma GapBehind(majors: map<nat, Major>, minors: map<nat, Minor>, bs: seq<Block>, i: nat, l: nat)
    requires Sound(bs) && MajorsMatch(majors, bs) && MinorsMatch(minors, bs) && IsSection(bs, i, l)
    ensures bs[i].addr in majors && bs[i].secs[l].addr in minors
    ensures var m, a := minors[bs[i].secs[l].addr], bs[i].secs[l].addr;
            && (m.next == NULL <==> l + 1 == |bs[i].secs|)
            && (m.next != NULL ==> m.next == bs[i].secs[l + 1].addr)
            && bs[i].Gap(l + 1) >= 0
            && bs[i].Gap(l + 1)
               == (if m.next == NULL then bs[i].addr + majors[bs[i].addr].size else m.next) - a - MINOR - m.size
  {
    assert MajorMatches(majors, bs, i) && MinorMatches(minors, bs[i], l);
    GapOrdered(bs[i], l + 1);
    if l + 1 < |bs[i].secs| { SectionInBlock(bs, i, l + 1); }
  }

  /** The two stores of CASE 3. */
  lemma LinkFront(minors: map<nat, Minor>, bs: seq<Block>, i: nat, req: nat)
    requires Sound(bs) && MinorsMatch(minors, bs) && i < |bs| && bs[i].secs != [] && bs[i].Gap(0) > 0
    ensures var a, n := bs[i].GapStart(0), bs[i].secs[0].addr;
            && n in minors && a != n
            && MinorsMatch(minors[n := minors[n].(prev := a)][a := Minor(NULL, n, bs[i].addr, MAGIC, req + PAD, req)],
                           PlaceAt(bs, i, 0, req))
  {
    assert MinorMatches(minors, bs[i], 0) by { assert IsSection(bs, i, 0); }
    NeighbourAddresses(bs, i, 0, i, 0);
    var a, n := bs[i].GapStart(0), bs[i].secs[0].addr;
    PlaceMinors(minors, minors[n := minors[n].(prev := a)][a := Minor(NULL, n, bs[i].addr, MAGIC, req + PAD, req)],
                bs, i, 0, req);
  }

  /** The two stores of CASE 4.1. */
  lemma LinkBehind(minors: map<nat, Minor>, bs: seq<Block>, i: nat, k: nat, req: nat)
    requires Sound(bs) && MinorsMatch(minors, bs) && i < |bs| && 0 < k == |bs[i].secs| && bs[i].Gap(k) > 0
    ensures var a, p := bs[i].GapStart(k), bs[i].secs[k - 1].addr;
            && p in minors && a != p
            && MinorsMatch(minors[p := minors[p].(next := a)][a := Minor(p, NULL, bs[i].addr, MAGIC, req + PAD, req)],
                           PlaceAt(bs, i, k, req))
  {
    assert MinorMatches(minors, bs[i], k - 1) by { assert IsSection(bs, i, k - 1); }
    NeighbourAddresses(bs, i, k, i, k - 1);
    var a, p := bs[i].GapStart(k), bs[i].secs[k - 1].addr;
    PlaceMinors(minors, minors[p := minors[p].(next := a)][a := Minor(p, NULL, bs[i].addr, MAGIC, req + PAD, req)],
                bs, i, k, req);
  }

  /** The three stores of CASE 4.2. */
  lemma LinkMiddle(minors: map<nat, Minor>, bs: seq<Block>, i: nat, k: nat, req: nat)
    requires Sound(bs) && MinorsMatch(minors, bs) && i < |bs| && 0 < k < |bs[i].secs| && bs[i].Gap(k) > 0
    ensures var a, p, n := bs[i].GapStart(k), bs[i].secs[k - 1].addr, bs[i].secs[k].addr;
            && p in minors && n in minors && a != n && p != n && a != p
            && var m1 := minors[a := Minor(p, n, bs[i].addr, MAGIC, req + PAD, req)];
            var m2 := m1[n := m1[n].(prev := a)];
            MinorsMatch(m2[p := m2[p].(next := a)], PlaceAt(bs, i, k, req))
  {
    assert MinorMatches(minors, bs[i], k - 1) by { assert IsSection(bs, i, k - 1); }
    assert MinorMatches(minors, bs[i], k) by { assert IsSection(bs, i, k); }
    NeighbourAddresses(bs, i, k, i, k - 1);
    NeighbourAddresses(bs, i, k, i, k);
    var a, p, n := bs[i].GapStart(k), bs[i].secs[k - 1].addr, bs[i].secs[k].addr;
    var m1 := minors[a := Minor(p, n, bs[i].addr, MAGIC, req + PAD, req)];
    var m2 := m1[n := m1[n].(prev := a)];
    PlaceMinors(minors, m2[p := m2[p].(next := a)], bs, i, k, req);
  }

  /** The sections that were there keep their alignment bytes when one is placed. */
  lemma OthersAligned(mem: map<nat, nat>, bs: seq<Block>, i: nat, k: nat, req: nat)
    requires AlignMatch(mem, bs) && i < |bs| && k <= |bs[i].secs|
    ensures var bs' := PlaceAt(bs, i, k, req);
            forall j, l :: IsSection(bs', j, l) && (j, l) != (i, k) ==> AlignByte(mem, bs'[j].secs[l])
  {
    var bs' := PlaceAt(bs, i, k, req);
    forall j, l | IsSection(bs', j, l) && (j, l) != (i, k) ensures AlignByte(mem, bs'[j].secs[l]) {
      var l' := if j == i && l > k then l - 1 else l;
      assert IsSection(bs, j, l') && bs'[j].secs[l] == bs[j].secs[l'];
    }
  }

  /** The records around gap k. */
  lemma NeighbourRecords(majors: map<nat, Major>, minors: map<nat, Minor>, bs: seq<Block>, i: nat, k: nat)
    requires Sound(bs) && MajorsMatch(majors, bs) && MinorsMatch(minors, bs) && i < |bs| && k <= |bs[i].secs|
    requires bs[i].Gap(k) > 0
    ensures bs[i].addr in majors && majors[bs[i].addr] == MajorRecord(bs, i)
    ensures k > 0 ==> var a := bs[i].secs[k - 1].addr;
              a in minors && minors[a] == MinorRecord(bs[i], k - 1) && a != bs[i].GapStart(k)
    ensures k < |bs[i].secs| ==> var a := bs[i].secs[k].addr;
              a in minors && minors[a] == MinorRecord(bs[i], k) && a != bs[i].GapStart(k)
    ensures 0 < k < |bs[i].secs| ==> bs[i].secs[k - 1].addr != bs[i].secs[k].addr
  {
    assert MajorMatches(majors, bs, i);
    if k > 0 {
      assert IsSection(bs, i, k - 1);
      NeighbourAddresses(bs, i, k, i, k - 1);
    }
    if k < |bs[i].secs| {
      assert IsSection(bs, i, k);
      NeighbourAddresses(bs, i, k, i, k);
    }
  }

  /** Every header that a placement writes keeps clear of the payloads. */
  lemma HeadersClear(bs: seq<Block>, i: nat, k: nat, req: nat)
    requires Sound(bs) && i < |bs| && k <= |bs[i].secs| && bs[i].Gap(k) >= req + PAD + MINOR
    ensures forall x :: bs[i].addr <= x < bs[i].addr + MAJOR ==> !Payloads(bs, x)
    ensures forall x :: bs[i].GapStart(k) <= x < bs[i].GapStart(k) + MINOR ==> !Payloads(bs, x)
    ensures k > 0 ==> forall x :: bs[i].secs[k - 1].addr <= x < bs[i].secs[k - 1].addr + MINOR ==> !Payloads(bs, x)
    ensures k < |bs[i].secs| ==> forall x :: bs[i].secs[k].addr <= x < bs[i].secs[k].addr + MINOR ==> !Payloads(bs, x)
  {
    MajorHeaderClear(bs, i);
    GapClear(bs, i, k);
    if k > 0 { MinorHeaderClear(bs, i, k - 1); }
    if k < |bs[i].secs| { MinorHeaderClear(bs, i, k); }
  }

  /** What a placement adds to the totals. */
  lemma PlaceTotals(bs: seq<Block>, i: nat, k: nat, req: nat, bet: nat)
    requires Sound(bs) && i < |bs| && k <= |bs[i].secs| && bs[i].Gap(k) >= req + PAD + MINOR && ListedOrNull(bs, bet)
    ensures var bs' := PlaceAt(bs, i, k, req);
            && Sound(bs') && InUse(bs') == InUse(bs) + (req + PAD) && Allocated(bs') == Allocated(bs)
            && bs'[0].addr == bs[0].addr && bs' != [] && ListedOrNull(bs', bet)
  {
    var bs' := PlaceAt(bs, i, k, req);
    PlaceSound(bs, i, k, req);
    InsertSums(bs[i], k, NewSection(bs[i], k, req));
    ReplaceSums(bs, i, bs'[i]);
    if bet != NULL {
      var j :| 0 <= j < |bs| && bs[j].addr == bet;
      assert bs'[j].addr == bet;
    }
  }

  /** ptr & (ALIGNMENT - 1) is the remainder by 16. */
  lemma LowFour(p: nat)
    ensures Words.And(p, ALIGNMENT - 1) == p % ALIGNMENT
  {
    Words.AndLowMask(p, 4);
    Words.ShrIsDiv(p, 4);
    assert Words.Pow2(3) == 8;
    assert Words.Pow2(4) == 16;
  }

  /** mem' is mem with n bytes copied from src to dst. */
  ghost predicate Copied(mem: map<nat, nat>, mem': map<nat, nat>, dst: nat, src: nat, n: nat) {
    && (forall x: nat :: x < dst || dst + n <= x ==> At(mem', x) == At(mem, x))
    && Bytes(mem', dst, n) == Bytes(mem, src, n)
  }

  /** The bytes still to copy have not been overwritten. */
  lemma SourceIntact(mem: map<nat, nat>, mem': map<nat, nat>, dst: nat, src: nat, n: nat, o: nat)
    requires Copied(mem, mem', dst, src, n) && n <= o && (dst + n <= src || src + o < dst)
    ensures At(mem', src + o) == At(mem, src + o)
  {}

  /** One more byte. */
  lemma CopyOne(mem: map<nat, nat>, mem': map<nat, nat>, dst: nat, src: nat, n: nat, a: nat, v: nat)
    requires Copied(mem, mem', dst, src, n) && a == dst + n && v == At(mem, src + n)
    ensures Copied(mem, Put(mem', a, v), dst, src, n + 1)
  {
    var mem2 := Put(mem', a, v);
    var b2, b := Bytes(mem2, dst, n + 1), Bytes(mem, src, n + 1);
    forall o | 0 <= o < n + 1 ensures b2[o] == b[o] {
      if o < n { assert Bytes(mem', dst, n)[o] == Bytes(mem, src, n)[o]; }
    }
  }

  /** A word read and written at once is four bytes copied one after the other. */
  lemma CopyWord(mem: map<nat, nat>, mem': map<nat, nat>, dst: nat, src: nat, n: nat, a: nat,
                 v0: nat, v1: nat, v2: nat, v3: nat)
    requires Copied(mem, mem', dst, src, n) && a == dst + n
    requires v0 == At(mem, src + n) && v1 == At(mem, src + (n + 1)) && v2 == At(mem, src + (n + 2))
             && v3 == At(mem, src + (n + 3))
    ensures Copied(mem, PutWord(mem', a, v0, v1, v2, v3), dst, src, n + 4)
  {
    var m1 := Put(mem', a, v0);
    CopyOne(mem, mem', dst, src, n, a, v0);
    var m2 := Put(m1, a + 1, v1);
    CopyOne(mem, m1, dst, src, n + 1, a + 1, v1);
    var m3 := Put(m2, a + 2, v2);
    CopyOne(mem, m2, dst, src, n + 2, a + 2, v2);
    CopyOne(mem, m3, dst, src, n + 3, a + 3, v3);
  }

  function PutWord(mem: map<nat, nat>, a: nat, b0: nat, b1: nat, b2: nat, b3: nat): map<nat, nat> {
    Put(Put(Put(Put(mem, a, b0), a + 1, b1), a + 2, b2), a + 3, b3)
  }

  /** After the kmalloc of a move: the old section is still there, and the new one is apart from it. */
  lemma MoveTarget(s: State, mid: State, size: nat, page: nat, q: nat, p: nat, i: nat, k: nat)
    requires MallocStep(s, mid, size, page, q) && PointsTo(s.blocks, p, i, k) && Sound(mid.blocks)
    requires s.blocks[i].secs[k].req < size
    ensures Live(mid.blocks, p) && p != NULL
    ensures var n := s.blocks[i].secs[k].req; q != NULL ==> q + n <= p || p + n <= q
    ensures q == NULL ==> mid.blocks == s.blocks
  {
    if q == NULL {
      MallocNull(s, mid, size, page);
      assert PointsTo(mid.blocks, p, i, k);
    } else {
      var j, l := MallocAdds(s, mid, size, page, q);
      var k' := if i == j && k >= l then k + 1 else k;
      assert SameSection(s.blocks, i, k, mid.blocks, i, k');
      assert PointsTo(mid.blocks, p, i, k');
      RangesApart(mid.blocks, i, k', j, l);
    }
  }

  /** Only a kmalloc that found nothing returns NULL. */
  lemma MallocNull(s: State, s': State, req: nat, page: nat)
    requires MallocStep(s, s', req, page, NULL)
    ensures page == NULL && s'.blocks == s.blocks && NoFits(s.blocks, req + PAD + MINOR, 0, |s.blocks|)
  {}

  /** User ranges of different sections do not overlap. */
  lemma RangesApart(bs: seq<Block>, i: int, k: int, j: int, l: int)
    requires Sound(bs) && IsSection(bs, i, k) && IsSection(bs, j, l) && (i, k) != (j, l)
    ensures var t, u := bs[i].secs[k], bs[j].secs[l];
            t.User() + t.req <= u.User() || u.User() + u.req <= t.User()
  {
    SectionsDisjoint(bs, i, k, j, l);
    SectionInBlock(bs, i, k);
    SectionInBlock(bs, j, l);
  }

  /** The copy stays within the new section's user range, so it changes no alignment byte. */
  lemma CopyKeepsAlignment(s: State, mid: State, size: nat, page: nat, q: nat, n: nat, mem: map<nat, nat>,
                           mem': map<nat, nat>)
    requires MallocStep(s, mid, size, page, q) && Sound(mid.blocks) && AlignMatch(mem, mid.blocks)
    requires n < size && (q == NULL ==> n == 0)
    requires forall x: nat :: x < q || q + n <= x ==> At(mem', x) == At(mem, x)
    ensures AlignMatch(mem', mid.blocks)
  {
    if q == NULL {
      KeptAlignment(mem, mem', mid.blocks);
    } else {
      var j, l := MallocAdds(s, mid, size, page, q);
      UserBytesAreFree(mem, mem', mid.blocks, j, l);
    }
  }

  /** The bytes of a section that a kfree leaves alone. */
  lemma SurvivingBytes(mid: seq<Block>, a: nat, b: nat, j: int, l: int, n: nat, mem: map<nat, nat>, mem': map<nat, nat>)
    requires Sound(mid) && IsSection(mid, a, b) && IsSection(mid, j, l) && (a, b) != (j, l) && n <= mid[j].secs[l].req
    requires KeepsPayloads(FreeAt(mid, a, b), mem, mem')
    ensures var q := mid[j].secs[l].User(); Bytes(mem', q, n) == Bytes(mem, q, n)
  {
    var q := mid[j].secs[l].User();
    var j', l' := FreeKeepsSection(mid, a, b, j, l);
    SectionInBlock(mid, j, l);
    forall o | 0 <= o < n ensures Bytes(mem', q, n)[o] == Bytes(mem, q, n)[o] {
      assert InPayload(FreeAt(mid, a, b), j', l', q + o);
      assert Payloads(FreeAt(mid, a, b), q + o);
    }
  }

  /** After a move: every section but the new one keeps the payload it had before. */
  lemma MovedOthers(s: State, mid: State, s': State, size: nat, page: nat, q: nat, p: nat, n: nat,
                    mem0: map<nat, nat>, mem1: map<nat, nat>, mem2: map<nat, nat>, mem3: map<nat, nat>)
    requires MallocStep(s, mid, size, page, q) && q != NULL && FreeStep(mid, s', p) && Sound(mid.blocks) && n < size
    requires KeepsPayloads(s.blocks, mem0, mem1) && KeepsPayloads(s'.blocks, mem2, mem3)
    requires forall x: nat :: x < q || q + n <= x ==> At(mem2, x) == At(mem1, x)
    ensures OthersKeep(s'.blocks, q, mem0, mem3)
  {
    var j, l := MallocAdds(s, mid, size, page, q);
    var a: nat, b: nat :| Freed(mid, s', p, a, b);
    SectionInBlock(mid.blocks, j, l);
    forall c, d, x: nat | InPayload(s'.blocks, c, d, x) && s'.blocks[c].secs[d].User() != q
      ensures At(mem3, x) == At(mem0, x)
    {
      assert Payloads(s'.blocks, x);
      var c', d' := FreeAddsNone(mid.blocks, a, b, c, d);
      SectionsDisjoint(mid.blocks, c', d', j, l);
      var d0 := if c' == j && d' > l then d' - 1 else d';
      assert SameSection(mid.blocks, c', d', s.blocks, c', d0);
      assert InPayload(s.blocks, c', d0, x);
      assert Payloads(s.blocks, x);
    }
  }

  /** What the bytes of the heap are after a move. */
  lemma MovedBytes(s: State, mid: State, s': State, size: nat, page: nat, q: nat, p: nat, i: nat, k: nat,
                   mem0: map<nat, nat>, mem1: map<nat, nat>, mem2: map<nat, nat>, mem3: map<nat, nat>)
    requires MallocStep(s, mid, size, page, q) && q != NULL && FreeStep(mid, s', p) && PointsTo(s.blocks, p, i, k)
    requires Sound(s.blocks) && Sound(mid.blocks) && s.blocks[i].secs[k].req < size
    requires KeepsPayloads(s.blocks, mem0, mem1) && KeepsPayloads(s'.blocks, mem2, mem3)
    requires Copied(mem1, mem2, q, p, s.blocks[i].secs[k].req)
    ensures var n := s.blocks[i].secs[k].req; Bytes(mem3, q, n) == Bytes(mem0, p, n)
    ensures OthersKeep(s'.blocks, q, mem0, mem3)
  {
    var n := s.blocks[i].secs[k].req;
    var j, l := MallocAdds(s, mid, size, page, q);
    var k' := if i == j && k >= l then k + 1 else k;
    assert SameSection(s.blocks, i, k, mid.blocks, i, k');
    UserPointersDiffer(mid.blocks, i, k', j, l);
    var a: nat, b: nat :| Freed(mid, s', p, a, b);
    SurvivingBytes(mid.blocks, a, b, j, l, n, mem2, mem3);
    OldBytesKept(s.blocks, mem0, mem1, i, k, n);
    MovedOthers(s, mid, s', size, page, q, p, n, mem0, mem1, mem2, mem3);
  }

  /** Bytes written within a section's user range are no alignment byte. */
  lemma UserBytesAreFree(mem: map<nat, nat>, mem': map<nat, nat>, bs: seq<Block>, i: int, k: int)
    requires Sound(bs) && IsSection(bs, i, k) && AlignMatch(mem, bs)
    requires forall x: nat :: x < bs[i].secs[k].User() || bs[i].secs[k].User() + bs[i].secs[k].req <= x ==>
               At(mem', x) == At(mem, x)
    ensures AlignMatch(mem', bs)
  {
    SectionInBlock(bs, i, k);
    forall j, l | IsSection(bs, j, l) ensures AlignByte(mem', bs[j].secs[l]) {
      assert AlignByte(mem, bs[j].secs[l]);
      AlignByteInPayload(bs, j, l);
      if (j, l) != (i, k) { SectionsDisjoint(bs, i, k, j, l); }
    }
  }

  /** Every section but the one with user pointer q keeps its payload. */
  ghost predicate OthersKeep(bs: seq<Block>, q: nat, mem: map<nat, nat>, mem': map<nat, nat>) {
    forall i, k, x: nat :: InPayload(bs, i, k, x) && bs[i].secs[k].User() != q ==> At(mem', x) == At(mem, x)
  }

  /** The payload bytes of sections that are live before and after are the same. */
  ghost predicate LiveBytesKept(before: seq<Block>, after: seq<Block>, mem: map<nat, nat>, mem': map<nat, nat>) {
    forall x: nat :: Payloads(before, x) && Payloads(after, x) ==> At(mem', x) == At(mem, x)
  }

  lemma KeptTwice(before: seq<Block>, after: seq<Block>, mem: map<nat, nat>, mem1: map<nat, nat>, mem2: map<nat, nat>)
    requires KeepsPayloads(before, mem, mem1) && KeepsPayloads(after, mem1, mem2)
    ensures LiveBytesKept(before, after, mem, mem2)
  {}

  lemma OldBytesKept(bs: seq<Block>, mem: map<nat, nat>, mem': map<nat, nat>, i: int, k: int, n: nat)
    requires Sound(bs) && IsSection(bs, i, k) && KeepsPayloads(bs, mem, mem') && n <= bs[i].secs[k].req
    ensures var q := bs[i].secs[k].User(); Bytes(mem', q, n) == Bytes(mem, q, n)
  {
    var q := bs[i].secs[k].User();
    SectionInBlock(bs, i, k);
    forall o | 0 <= o < n ensures Bytes(mem', q, n)[o] == Bytes(mem, q, n)[o] {
      assert InPayload(bs, i, k, q + o);
      assert Payloads(bs, q + o);
    }
  }

  lemma ShrunkPayloads(bs: seq<Block>, i: nat, k: nat, size: nat, q: nat, mem: map<nat, nat>, mem': map<nat, nat>)
    requires IsSection(bs, i, k) && KeepsPayloads(bs, mem, mem')
    ensures OthersKeep(ShrinkAt(bs, i, k, size), q, mem, mem')
  {
    var bs' := ShrinkAt(bs, i, k, size);
    forall j, l, x: nat | InPayload(bs', j, l, x) ensures At(mem', x) == At(mem, x) {
      assert InPayload(bs, j, l, x);
      assert Payloads(bs, x);
    }
  }

  /** Noting a smaller request changes one field of one header. */
  lemma ShrunkMatches(majors: map<nat, Major>, minors: map<nat, Minor>, mem: map<nat, nat>, bs: seq<Block>,
                      i: nat, k: nat, size: nat, bet: nat)
    requires Sound(bs) && NoneEmpty(bs) && IsSection(bs, i, k) && size <= bs[i].secs[k].req
    requires MajorsMatch(majors, bs) && MinorsMatch(minors, bs) && AlignMatch(mem, bs) && ListedOrNull(bs, bet)
    ensures var bs', a := ShrinkAt(bs, i, k, size), bs[i].secs[k].addr;
            && Sound(bs') && NoneEmpty(bs') && ListedOrNull(bs', bet) && bs'[0].addr == bs[0].addr
            && InUse(bs') == InUse(bs) && Allocated(bs') == Allocated(bs)
            && a in minors
            && MajorsMatch(majors, bs') && MinorsMatch(minors[a := minors[a].(req := size)], bs')
            && AlignMatch(mem, bs')
  {
    var bs' := ShrinkAt(bs, i, k, size);
    ShrinkSound(bs, i, k, size);
    ShrinkSums(bs[i].secs, k, size);
    ReplaceSums(bs, i, bs'[i]);
    assert MinorMatches(minors, bs[i], k);
    ShrunkRecords(majors, minors, bs, i, k, size);
    ShrunkAligned(mem, bs, i, k, size);
    if bet != NULL {
      var j :| 0 <= j < |bs| && bs[j].addr == bet;
      assert bs'[j].addr == bet;
    }
  }

  lemma ShrunkAligned(mem: map<nat, nat>, bs: seq<Block>, i: nat, k: nat, size: nat)
    requires IsSection(bs, i, k) && AlignMatch(mem, bs)
    ensures AlignMatch(mem, ShrinkAt(bs, i, k, size))
  {
    var bs' := ShrinkAt(bs, i, k, size);
    forall j, l | IsSection(bs', j, l) ensures AlignByte(mem, bs'[j].secs[l]) {
      assert IsSection(bs, j, l) && AlignByte(mem, bs[j].secs[l]);
    }
  }

  lemma ShrunkRecords(majors: map<nat, Major>, minors: map<nat, Minor>, bs: seq<Block>, i: nat, k: nat, size: nat)
    requires Sound(bs) && IsSection(bs, i, k) && size <= bs[i].secs[k].req
    requires MajorsMatch(majors, bs) && MinorsMatch(minors, bs) && bs[i].secs[k].addr in minors
    ensures var bs', a := ShrinkAt(bs, i, k, size), bs[i].secs[k].addr;
            MajorsMatch(majors, bs') && MinorsMatch(minors[a := minors[a].(req := size)], bs')
  {
    var bs', a := ShrinkAt(bs, i, k, size), bs[i].secs[k].addr;
    ShrinkSums(bs[i].secs, k, size);
    forall j | 0 <= j < |bs'| ensures MajorMatches(majors, bs', j) {
      assert MajorMatches(majors, bs, j);
    }
    var minors' := minors[a := minors[a].(req := size)];
    forall j, l | IsSection(bs', j, l) ensures MinorMatches(minors', bs'[j], l) {
      assert IsSection(bs, j, l) && MinorMatches(minors, bs[j], l);
      if (j, l) != (i, k) { SectionAddresses(bs, j, l, i, k); }
    }
  }

  lemma UnlinkedPayloads(bs: seq<Block>, i: nat, k: nat)
    requires IsSection(bs, i, k)
    ensures var bs' := bs[i := RemoveAt(bs[i], k)];
            && (forall x :: Payloads(FreeAt(bs, i, k), x) ==> Payloads(bs', x))
            && FreeAt(bs, i, k) == (if bs'[i].secs == [] then bs'[..i] + bs'[i + 1..] else bs')
  {
    var bs' := bs[i := RemoveAt(bs[i], k)];
    assert FreeAt(bs, i, k) == (if bs'[i].secs == [] then bs'[..i] + bs'[i + 1..] else bs');
    forall x, j, l | InPayload(FreeAt(bs, i, k), j, l, x) ensures Payloads(bs', x) {
      assert InPayload(bs', if bs'[i].secs == [] && j >= i then j + 1 else j, l, x);
    }
  }

  lemma NullIsNotLive(bs: seq<Block>)
    ensures !Live(bs, NULL)
  {}

  /** The headers around block i. */
  lemma MajorNeighbours(majors: map<nat, Major>, bs: seq<Block>, i: nat)
    requires Sound(bs) && MajorsMatch(majors, bs) && i < |bs|
    ensures var r := MajorRecord(bs, i);
            && bs[i].addr in majors && majors[bs[i].addr] == r
            && (r.prev == NULL <==> i == 0) && (r.next == NULL <==> i + 1 == |bs|)
            && (i > 0 ==> r.prev in majors && r.prev == bs[i - 1].addr && r.prev != bs[i].addr)
            && (i + 1 < |bs| ==> r.next in majors && r.next == bs[i + 1].addr && r.next != bs[i].addr)
            && (0 < i && i + 1 < |bs| ==> r.prev != r.next)
            && (bs[i].addr == bs[0].addr <==> i == 0)
  {
    assert MajorMatches(majors, bs, i);
    LastInList(bs, i);
    if i > 0 {
      assert MajorMatches(majors, bs, i - 1) && bs[i - 1].WF();
      BlockAddresses(bs, i - 1, i);
      BlockAddresses(bs, 0, i);
    }
    if i + 1 < |bs| {
      assert MajorMatches(majors, bs, i + 1);
      BlockAddresses(bs, i, i + 1);
    }
    if 0 < i && i + 1 < |bs| { BlockAddresses(bs, i - 1, i + 1); }
  }

  lemma DropTotals(bs: seq<Block>, i: nat, bet: nat)
    requires Sound(bs) && i < |bs| && bs[i].secs == [] && ListedOrNull(bs, bet)
    ensures var bs' := bs[..i] + bs[i + 1..];
            && Sound(bs') && InUse(bs') == InUse(bs) && Allocated(bs') == Allocated(bs) - bs[i].Size()
            && ListedOrNull(bs', if bet == bs[i].addr then NULL else bet)
            && bs[i].Size() <= Allocated(bs)
  {
    var bs' := bs[..i] + bs[i + 1..];
    DropSound(bs, i);
    ReplaceSums(bs, i, bs[i]);
    if bet != NULL && bet != bs[i].addr {
      var j :| 0 <= j < |bs| && bs[j].addr == bet;
      assert bs'[if j < i then j else j - 1].addr == bet;
    }
  }

  lemma DropRest(minors: map<nat, Minor>, mem: map<nat, nat>, bs: seq<Block>, i: nat)
    requires MinorsMatch(minors, bs) && AlignMatch(mem, bs) && Sound(bs) && i < |bs|
    ensures var bs' := bs[..i] + bs[i + 1..];
            && MinorsMatch(minors, bs') && AlignMatch(mem, bs')
            && (if bs' == [] then NULL else bs'[0].addr) == if i == 0 then MajorRecord(bs, i).next else bs[0].addr
  {
    DropMinors(minors, bs, i);
    var bs' := bs[..i] + bs[i + 1..];
    forall j, l | IsSection(bs', j, l) ensures AlignByte(mem, bs'[j].secs[l]) {
      assert IsSection(bs, if j < i then j else j + 1, l);
    }
  }

  /** The headers around section k. */
  lemma MinorNeighbours(minors: map<nat, Minor>, bs: seq<Block>, i: nat, k: nat)
    requires Sound(bs) && MinorsMatch(minors, bs) && IsSection(bs, i, k)
    ensures var b, r := bs[i], MinorRecord(bs[i], k);
            && b.secs[k].addr in minors && minors[b.secs[k].addr] == r
            && (r.prev == NULL <==> k == 0) && (r.next == NULL <==> k + 1 == |b.secs|)
            && (k > 0 ==> r.prev in minors && r.prev == b.secs[k - 1].addr && r.prev != b.secs[k].addr)
            && (k + 1 < |b.secs| ==> r.next in minors && r.next == b.secs[k + 1].addr && r.next != b.secs[k].addr)
            && (0 < k && k + 1 < |b.secs| ==> r.prev != r.next)
  {
    assert MinorMatches(minors, bs[i], k);
    if k > 0 {
      assert MinorMatches(minors, bs[i], k - 1) by { assert IsSection(bs, i, k - 1); }
      SectionInBlock(bs, i, k - 1);
      SectionAddresses(bs, i, k - 1, i, k);
    }
    if k + 1 < |bs[i].secs| {
      assert MinorMatches(minors, bs[i], k + 1) by { assert IsSection(bs, i, k + 1); }
      SectionInBlock(bs, i, k + 1);
      SectionAddresses(bs, i, k, i, k + 1);
    }
    if 0 < k && k + 1 < |bs[i].secs| { SectionAddresses(bs, i, k - 1, i, k + 1); }
  }

  lemma UnlinkRecords(majors: map<nat, Major>, minors: map<nat, Minor>, bs: seq<Block>, i: nat, k: nat)
    requires Sound(bs) && MajorsMatch(majors, bs) && MinorsMatch(minors, bs) && IsSection(bs, i, k)
    ensures var r := MinorRecord(bs[i], k);
            && bs[i].secs[k].addr in minors && minors[bs[i].secs[k].addr] == r
            && (r.prev == NULL <==> k == 0) && (k == 0 ==> r == MinorRecord(bs[i], 0))
            && bs[i].addr in majors && majors[bs[i].addr] == MajorRecord(bs, i)
            && majors[bs[i].addr].usage >= r.size + MINOR
  {
    assert MajorMatches(majors, bs, i);
    MinorNeighbours(minors, bs, i, k);
    RemovedMajorRecord(bs, i, k, i);
  }

  /** Every header that kfree writes to keeps clear of the payloads. */
  lemma UnlinkClear(bs: seq<Block>, i: nat, k: nat)
    requires Sound(bs) && IsSection(bs, i, k)
    ensures forall x :: bs[i].addr <= x < bs[i].addr + MAJOR ==> !Payloads(bs, x)
    ensures forall x :: bs[i].secs[k].addr <= x < bs[i].secs[k].addr + MINOR ==> !Payloads(bs, x)
    ensures k > 0 ==> forall x :: bs[i].secs[k - 1].addr <= x < bs[i].secs[k - 1].addr + MINOR ==> !Payloads(bs, x)
    ensures k + 1 < |bs[i].secs| ==>
              forall x :: bs[i].secs[k + 1].addr <= x < bs[i].secs[k + 1].addr + MINOR ==> !Payloads(bs, x)
  {
    MajorHeaderClear(bs, i);
    MinorHeaderClear(bs, i, k);
    if k > 0 { MinorHeaderClear(bs, i, k - 1); }
    if k + 1 < |bs[i].secs| { MinorHeaderClear(bs, i, k + 1); }
  }

  lemma RemoveTotals(bs: seq<Block>, i: nat, k: nat, bet: nat)
    requires Sound(bs) && IsSection(bs, i, k) && ListedOrNull(bs, bet)
    ensures var bs' := bs[i := RemoveAt(bs[i], k)];
            && Sound(bs') && InUse(bs') == InUse(bs) - bs[i].secs[k].size && Allocated(bs') == Allocated(bs)
            && bs'[0].addr == bs[0].addr && ListedOrNull(bs', bet)
            && bs[i].secs[k].size <= InUse(bs)
  {
    var bs' := bs[i := RemoveAt(bs[i], k)];
    assert bs[i].WF();
    RemoveWF(bs[i], k);
    ReplaceSound(bs, i, RemoveAt(bs[i], k));
    RemoveSums(bs[i], k);
    ReplaceSums(bs, i, bs'[i]);
    if bet != NULL {
      var j :| 0 <= j < |bs| && bs[j].addr == bet;
      assert bs'[j].addr == bet;
    }
  }

  lemma RemovedAligned(mem: map<nat, nat>, bs: seq<Block>, i: nat, k: nat)
    requires AlignMatch(mem, bs) && IsSection(bs, i, k)
    ensures AlignMatch(mem, bs[i := RemoveAt(bs[i], k)])
  {
    var bs' := bs[i := RemoveAt(bs[i], k)];
    forall j, l | IsSection(bs', j, l) ensures AlignByte(mem, bs'[j].secs[l]) {
      var l' := if j == i && l >= k then l + 1 else l;
      assert IsSection(bs, j, l') && bs'[j].secs[l] == bs[j].secs[l'];
    }
  }
}
