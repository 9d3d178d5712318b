/** The headers of the kernel heap as they lie in memory: records keyed by address, linked both ways,
    and the alignment byte in front of every user pointer.  When they represent a layout, and how a
    layout change is reflected in them. */
module HeapRecords {
  import opened HeapLayout
  import opened HeapSteps

  const NULL: nat := 0
  const MAGIC: nat := 0xc001_c0de
  const DEAD: nat := 0xdead_dead

  datatype Major = Major(prev: nat, next: nat, pages: nat, size: nat, usage: nat, first: nat)
  datatype Minor = Minor(prev: nat, next: nat, block: nat, magic: nat, size: nat, req: nat)

  /** The record a layout asks for at the head of block i. */
  function MajorRecord(bs: seq<Block>, i: int): Major
    requires 0 <= i < |bs|
  {
    var b := bs[i];
    Major(if i == 0 then NULL else bs[i - 1].addr, if i + 1 < |bs| then bs[i + 1].addr else NULL,
          b.pages, b.Size(), b.Usage(), if b.secs == [] then NULL else b.secs[0].addr)
  }

  function MinorRecord(b: Block, k: int): Minor
    requires 0 <= k < |b.secs|
  {
    Minor(if k == 0 then NULL else b.secs[k - 1].addr, if k + 1 < |b.secs| then b.secs[k + 1].addr else NULL,
          b.addr, MAGIC, b.secs[k].size, b.secs[k].req)
  }

  ghost predicate MajorMatches(majors: map<nat, Major>, bs: seq<Block>, i: int)
    requires 0 <= i < |bs|
  {
    bs[i].addr in majors && majors[bs[i].addr] == MajorRecord(bs, i)
  }

  ghost predicate MajorsMatch(majors: map<nat, Major>, bs: seq<Block>) {
    forall i :: 0 <= i < |bs| ==> MajorMatches(majors, bs, i)
  }

  ghost predicate MinorMatches(minors: map<nat, Minor>, b: Block, k: int)
    requires 0 <= k < |b.secs|
  {
    b.secs[k].addr in minors && minors[b.secs[k].addr] == MinorRecord(b, k)
  }

  ghost predicate MinorsMatch(minors: map<nat, Minor>, bs: seq<Block>) {
    forall i, k :: IsSection(bs, i, k) ==> MinorMatches(minors, bs[i], k)
  }

  /** The byte at address a. */
  function At(mem: map<nat, nat>, a: nat): nat {
    if a in mem then mem[a] else 0
  }

  function Put(mem: map<nat, nat>, a: nat, v: nat): (mem': map<nat, nat>)
    ensures forall x: nat :: At(mem', x) == if x == a then v else At(mem, x)
  {
    mem[a := v]
  }

  /** The n bytes from address a on. */
  function Bytes(mem: map<nat, nat>, a: nat, n: nat): seq<int> {
    seq(n, (o: nat) => At(mem, a + o))
  }

  /** The alignment information of a section is stored right before the user pointer. */
  ghost predicate AlignByte(mem: map<nat, nat>, s: Section) {
    At(mem, s.User() - ALIGN_INFO) == s.User() - s.Payload()
  }

  ghost predicate AlignMatch(mem: map<nat, nat>, bs: seq<Block>) {
    forall i, k :: IsSection(bs, i, k) ==> AlignByte(mem, bs[i].secs[k])
  }

  ghost predicate KeepsPayloads(bs: seq<Block>, mem: map<nat, nat>, mem': map<nat, nat>) {
    forall x: nat :: Payloads(bs, x) ==> At(mem', x) == At(mem, x)
  }

  // ---------- addresses identify headers ----------

  lemma BlockAddresses(bs: seq<Block>, i: int, j: int)
    requires Sound(bs) && 0 <= i < |bs| && 0 <= j < |bs| && i != j
    ensures bs[i].addr != bs[j].addr
  {
    assert bs[i].WF() && bs[j].WF();
    if i < j {
      assert Apart(bs[i], bs[j]);
    } else {
      assert Apart(bs[j], bs[i]);
    }
  }

  lemma SectionAddresses(bs: seq<Block>, i: int, k: int, j: int, l: int)
    requires Sound(bs) && IsSection(bs, i, k) && IsSection(bs, j, l) && (i, k) != (j, l)
    ensures bs[i].secs[k].addr != bs[j].secs[l].addr
  {
    SectionsDisjoint(bs, i, k, j, l);
  }

  lemma AlignByteInPayload(bs: seq<Block>, i: int, k: int)
    requires Sound(bs) && IsSection(bs, i, k)
    ensures InPayload(bs, i, k, bs[i].secs[k].User() - ALIGN_INFO)
  {
    SectionInBlock(bs, i, k);
  }

  /** Payloads that keep their bytes keep their alignment information. */
  lemma KeptAlignment(mem: map<nat, nat>, mem': map<nat, nat>, bs: seq<Block>)
    requires Sound(bs) && AlignMatch(mem, bs) && KeepsPayloads(bs, mem, mem')
    ensures AlignMatch(mem', bs)
  {
    forall i, k | IsSection(bs, i, k) ensures AlignByte(mem', bs[i].secs[k]) {
      AlignByteInPayload(bs, i, k);
      var x := bs[i].secs[k].User() - ALIGN_INFO;
      assert Payloads(bs, x);
      assert AlignByte(mem, bs[i].secs[k]);
    }
  }

  // ---------- a section comes in ----------

  /** What an insertion changes in the record of a block and of its neighbours. */
  lemma PlacedMajorRecord(bs: seq<Block>, i: nat, k: nat, req: nat, j: nat)
    requires i < |bs| && k <= |bs[i].secs| && j < |bs|
    ensures var bs', r := PlaceAt(bs, i, k, req), MajorRecord(bs, j);
            && bs'[j].addr == bs[j].addr
            && MajorRecord(bs', j) ==
               if j == i then r.(usage := r.usage + (req + PAD + MINOR),
                                 first := if k == 0 then bs[i].GapStart(0) else r.first)
               else r
  {
    InsertSums(bs[i], k, NewSection(bs[i], k, req));
  }

  lemma PlaceMajors(majors: map<nat, Major>, bs: seq<Block>, i: nat, k: nat, req: nat)
    requires Sound(bs) && MajorsMatch(majors, bs) && i < |bs| && k <= |bs[i].secs|
    ensures bs[i].addr in majors
    ensures var r := majors[bs[i].addr];
            MajorsMatch(majors[bs[i].addr := r.(usage := r.usage + (req + PAD + MINOR),
                                                first := if k == 0 then bs[i].GapStart(0) else r.first)],
                        PlaceAt(bs, i, k, req))
  {
    var bs' := PlaceAt(bs, i, k, req);
    assert MajorMatches(majors, bs, i);
    var r := majors[bs[i].addr].(usage := majors[bs[i].addr].usage + (req + PAD + MINOR),
                                 first := if k == 0 then bs[i].GapStart(0) else majors[bs[i].addr].first);
    var majors' := majors[bs[i].addr := r];
    forall j: nat | j < |bs'| ensures MajorMatches(majors', bs', j) {
      PlacedMajorRecord(bs, i, k, req, j);
      assert MajorMatches(majors, bs, j);
      if j != i { BlockAddresses(bs, i, j); }
    }
  }

  /** The writes kmalloc makes to the minors: the new header, and the links of its neighbours. */
  ghost predicate LinkedIn(minors: map<nat, Minor>, minors': map<nat, Minor>, b: Block, k: nat, req: nat)
    requires k <= |b.secs|
  {
    var a := b.GapStart(k);
    && a in minors'
    && minors'[a] == Minor(if k == 0 then NULL else b.secs[k - 1].addr, if k == |b.secs| then NULL else b.secs[k].addr,
                           b.addr, MAGIC, req + PAD, req)
    && (forall x :: x in minors && x != a ==> x in minors')
    && (forall x :: x in minors && x != a ==>
          minors'[x] == if k > 0 && x == b.secs[k - 1].addr then minors[x].(next := a)
                        else if k < |b.secs| && x == b.secs[k].addr then minors[x].(prev := a)
                        else minors[x])
  }

  /** What an insertion changes in the record of a section that was there before. */
  lemma InsertedRecord(b: Block, k: nat, req: nat, l: nat)
    requires k <= |b.secs| && l < |b.secs|
    ensures var b', l', r := InsertAt(b, k, NewSection(b, k, req)), if l >= k then l + 1 else l, MinorRecord(b, l);
            && b'.secs[l'] == b.secs[l]
            && MinorRecord(b', l') == if l + 1 == k then r.(next := b.GapStart(k))
                                      else if l == k then r.(prev := b.GapStart(k)) else r
  {}

  lemma NewRecord(b: Block, k: nat, req: nat)
    requires k <= |b.secs|
    ensures var b' := InsertAt(b, k, NewSection(b, k, req));
            && b'.secs[k] == NewSection(b, k, req)
            && MinorRecord(b', k) == Minor(if k == 0 then NULL else b.secs[k - 1].addr,
                                           if k == |b.secs| then NULL else b.secs[k].addr,
                                           b.addr, MAGIC, req + PAD, req)
  {}

  /** The neighbours of the gap, by address. */
  lemma NeighbourAddresses(bs: seq<Block>, i: nat, k: nat, j: int, l: int)
    requires Sound(bs) && i < |bs| && k <= |bs[i].secs| && bs[i].Gap(k) > 0 && IsSection(bs, j, l)
    ensures bs[j].secs[l].addr != bs[i].GapStart(k)
    ensures k > 0 ==> (bs[j].secs[l].addr == bs[i].secs[k - 1].addr <==> j == i && l == k - 1)
    ensures k < |bs[i].secs| ==> (bs[j].secs[l].addr == bs[i].secs[k].addr <==> j == i && l == k)
  {
    GapClear(bs, i, k);
    if k > 0 && (j, l) != (i, k - 1) { SectionAddresses(bs, j, l, i, k - 1); }
    if k < |bs[i].secs| && (j, l) != (i, k) { SectionAddresses(bs, j, l, i, k); }
  }

  /** A section that was there before: its links change only next to the new one. */
  lemma PlacedMinor(minors: map<nat, Minor>, minors': map<nat, Minor>, bs: seq<Block>, i: nat, k: nat, req: nat,
                    j: nat, l: nat)
    requires Sound(bs) && MinorsMatch(minors, bs) && i < |bs| && k <= |bs[i].secs| && bs[i].Gap(k) > 0
    requires LinkedIn(minors, minors', bs[i], k, req)
    requires IsSection(bs, j, l)
    ensures MinorMatches(minors', PlaceAt(bs, i, k, req)[j], if j == i && l >= k then l + 1 else l)
  {
    NeighbourAddresses(bs, i, k, j, l);
    assert MinorMatches(minors, bs[j], l);
    if j == i { InsertedRecord(bs[i], k, req, l); }
  }

  lemma PlaceMinors(minors: map<nat, Minor>, minors': map<nat, Minor>, bs: seq<Block>, i: nat, k: nat, req: nat)
    requires Sound(bs) && MinorsMatch(minors, bs) && i < |bs| && k <= |bs[i].secs| && bs[i].Gap(k) > 0
    requires LinkedIn(minors, minors', bs[i], k, req)
    ensures MinorsMatch(minors', PlaceAt(bs, i, k, req))
  {
    var bs' := PlaceAt(bs, i, k, req);
    NewRecord(bs[i], k, req);
    forall j, l | IsSection(bs', j, l) ensures MinorMatches(minors', bs'[j], l) {
      if j != i {
        PlacedMinor(minors, minors', bs, i, k, req, j, l);
      } else if l < k {
        PlacedMinor(minors, minors', bs, i, k, req, j, l);
      } else if l > k {
        PlacedMinor(minors, minors', bs, i, k, req, j, l - 1);
      }
    }
  }

  // ---------- a section goes out ----------

  /** The writes kfree makes to the minors: the header is marked dead, its neighbours are joined. */
  ghost predicate LinkedOut(minors: map<nat, Minor>, minors': map<nat, Minor>, b: Block, k: nat)
    requires k < |b.secs|
  {
    var a := b.secs[k].addr;
    && (forall x :: x in minors && x != a ==> x in minors')
    && (forall x :: x in minors && x != a ==>
          minors'[x] == if k > 0 && x == b.secs[k - 1].addr then minors[x].(next := MinorRecord(b, k).next)
                        else if k + 1 < |b.secs| && x == b.secs[k + 1].addr
                             then minors[x].(prev := MinorRecord(b, k).prev)
                        else minors[x])
  }

  /** What a removal changes in the record of a section that stays. */
  lemma RemovedRecord(b: Block, k: nat, l: nat)
    requires k < |b.secs| && l < |b.secs| && l != k
    ensures var b', l', r := RemoveAt(b, k), if l > k then l - 1 else l, MinorRecord(b, l);
            && b'.secs[l'] == b.secs[l]
            && MinorRecord(b', l') == if l + 1 == k then r.(next := MinorRecord(b, k).next)
                                      else if l == k + 1 then r.(prev := MinorRecord(b, k).prev) else r
  {}

  lemma RemainingMinor(minors: map<nat, Minor>, minors': map<nat, Minor>, bs: seq<Block>, i: nat, k: nat, j: nat,
                       l: nat)
    requires Sound(bs) && MinorsMatch(minors, bs) && IsSection(bs, i, k)
    requires LinkedOut(minors, minors', bs[i], k)
    requires IsSection(bs, j, l) && (j, l) != (i, k)
    ensures MinorMatches(minors', bs[i := RemoveAt(bs[i], k)][j], if j == i && l > k then l - 1 else l)
  {
    SectionAddresses(bs, j, l, i, k);
    if k > 0 && (j, l) != (i, k - 1) { SectionAddresses(bs, j, l, i, k - 1); }
    if k + 1 < |bs[i].secs| && (j, l) != (i, k + 1) { SectionAddresses(bs, j, l, i, k + 1); }
    assert MinorMatches(minors, bs[j], l);
    if j == i { RemovedRecord(bs[i], k, l); }
  }

  lemma RemoveMinors(minors: map<nat, Minor>, minors': map<nat, Minor>, bs: seq<Block>, i: nat, k: nat)
    requires Sound(bs) && MinorsMatch(minors, bs) && IsSection(bs, i, k)
    requires LinkedOut(minors, minors', bs[i], k)
    ensures MinorsMatch(minors', bs[i := RemoveAt(bs[i], k)])
  {
    var bs' := bs[i := RemoveAt(bs[i], k)];
    forall j, l | IsSection(bs', j, l) ensures MinorMatches(minors', bs'[j], l) {
      if j != i || l < k {
        RemainingMinor(minors, minors', bs, i, k, j, l);
      } else {
        RemainingMinor(minors, minors', bs, i, k, j, l + 1);
      }
    }
  }

  lemma RemovedMajorRecord(bs: seq<Block>, i: nat, k: nat, j: nat)
    requires IsSection(bs, i, k) && j < |bs|
    ensures bs[i].Usage() >= bs[i].secs[k].size + MINOR
    ensures var bs', r := bs[i := RemoveAt(bs[i], k)], MajorRecord(bs, j);
            && bs'[j].addr == bs[j].addr
            && MajorRecord(bs', j) ==
               if j == i then r.(usage := r.usage - (bs[i].secs[k].size + MINOR),
                                 first := if k == 0 then MinorRecord(bs[i], 0).next else r.first)
               else r
  {
    RemoveSums(bs[i], k);
  }

  lemma RemoveMajors(majors: map<nat, Major>, bs: seq<Block>, i: nat, k: nat)
    requires Sound(bs) && MajorsMatch(majors, bs) && IsSection(bs, i, k)
    ensures bs[i].addr in majors && majors[bs[i].addr].usage >= bs[i].secs[k].size + MINOR
    ensures var r := majors[bs[i].addr];
            MajorsMatch(majors[bs[i].addr := r.(usage := r.usage - (bs[i].secs[k].size + MINOR),
                                                first := if k == 0 then MinorRecord(bs[i], 0).next else r.first)],
                        bs[i := RemoveAt(bs[i], k)])
  {
    var bs' := bs[i := RemoveAt(bs[i], k)];
    assert MajorMatches(majors, bs, i);
    RemovedMajorRecord(bs, i, k, i);
    var r := majors[bs[i].addr].(usage := majors[bs[i].addr].usage - (bs[i].secs[k].size + MINOR),
                                 first := if k == 0 then MinorRecord(bs[i], 0).next else majors[bs[i].addr].first);
    var majors' := majors[bs[i].addr := r];
    forall j: nat | j < |bs'| ensures MajorMatches(majors', bs', j) {
      RemovedMajorRecord(bs, i, k, j);
      assert MajorMatches(majors, bs, j);
      if j != i { BlockAddresses(bs, i, j); }
    }
  }

  // ---------- a block comes in or goes out ----------

  /** The list's first block. */
  lemma FirstMajor(majors: map<nat, Major>, b: Block)
    requires b.secs == []
    ensures MajorsMatch(majors[b.addr := Major(NULL, NULL, b.pages, b.Size(), MAJOR, NULL)], [b])
  {}

  /** The stores that put a new block behind the last one. */
  lemma AppendMajors(majors: map<nat, Major>, bs: seq<Block>, b: Block)
    requires Sound(bs + [b]) && MajorsMatch(majors, bs) && b.secs == [] && bs != []
    ensures var last := bs[|bs| - 1].addr;
            && last in majors && last != b.addr
            && var m1 := majors[b.addr := Major(NULL, NULL, b.pages, b.Size(), MAJOR, NULL)];
            var m2 := m1[last := m1[last].(next := b.addr)];
            MajorsMatch(m2[b.addr := m2[b.addr].(prev := last)], bs + [b])
  {
    var bs', n := bs + [b], |bs|;
    var last := bs[n - 1].addr;
    BlockAddresses(bs', n - 1, n);
    assert MajorMatches(majors, bs, n - 1);
    var m1 := majors[b.addr := Major(NULL, NULL, b.pages, b.Size(), MAJOR, NULL)];
    var m2 := m1[last := m1[last].(next := b.addr)];
    var majors' := m2[b.addr := m2[b.addr].(prev := last)];
    forall j: nat | j < |bs'| ensures MajorMatches(majors', bs', j) {
      if j < n {
        BlockAddresses(bs', j, n);
        assert MajorMatches(majors, bs, j);
        if j < n - 1 { BlockAddresses(bs', j, n - 1); }
      }
    }
  }

  /** A new block without sections leaves minors and alignment bytes as they are. */
  lemma AppendMinors(minors: map<nat, Minor>, mem: map<nat, nat>, bs: seq<Block>, b: Block)
    requires b.secs == []
    ensures MinorsMatch(minors, bs) ==> MinorsMatch(minors, bs + [b])
    ensures AlignMatch(mem, bs) ==> AlignMatch(mem, bs + [b])
    ensures forall x: nat :: Payloads(bs + [b], x) ==> Payloads(bs, x)
    ensures forall x: nat :: Payloads(bs, x) ==> Payloads(bs + [b], x)
  {
    var bs' := bs + [b];
    forall j, l | IsSection(bs', j, l) ensures IsSection(bs, j, l) && bs'[j] == bs[j] {}
    forall x: nat, j, l | InPayload(bs', j, l, x) ensures Payloads(bs, x) { assert InPayload(bs, j, l, x); }
    forall x: nat, j, l | InPayload(bs, j, l, x) ensures Payloads(bs', x) { assert InPayload(bs', j, l, x); }
  }

  /** The writes kfree makes to the majors when block i leaves the list: its neighbours are joined. */
  ghost predicate JoinedAround(majors: map<nat, Major>, majors': map<nat, Major>, bs: seq<Block>, i: nat)
    requires i < |bs|
  {
    && (forall x :: x in majors && x != bs[i].addr ==> x in majors')
    && (forall x :: x in majors && x != bs[i].addr ==>
          majors'[x] == if i > 0 && x == bs[i - 1].addr then majors[x].(next := MajorRecord(bs, i).next)
                        else if i + 1 < |bs| && x == bs[i + 1].addr then majors[x].(prev := MajorRecord(bs, i).prev)
                        else majors[x])
  }

  lemma DroppedMajorRecord(bs: seq<Block>, i: nat, j: nat)
    requires i < |bs| && j < |bs| && j != i
    ensures var bs', j', r := bs[..i] + bs[i + 1..], if j > i then j - 1 else j, MajorRecord(bs, j);
            && bs'[j'] == bs[j]
            && MajorRecord(bs', j') == if j + 1 == i then r.(next := MajorRecord(bs, i).next)
                                       else if j == i + 1 then r.(prev := MajorRecord(bs, i).prev) else r
  {}

  lemma RemainingMajor(majors: map<nat, Major>, majors': map<nat, Major>, bs: seq<Block>, i: nat, j: nat)
    requires Sound(bs) && MajorsMatch(majors, bs) && i < |bs| && JoinedAround(majors, majors', bs, i)
    requires j < |bs| && j != i
    ensures MajorMatches(majors', bs[..i] + bs[i + 1..], if j > i then j - 1 else j)
  {
    BlockAddresses(bs, j, i);
    if i > 0 && j != i - 1 { BlockAddresses(bs, j, i - 1); }
    if i + 1 < |bs| && j != i + 1 { BlockAddresses(bs, j, i + 1); }
    assert MajorMatches(majors, bs, j);
    DroppedMajorRecord(bs, i, j);
  }

  lemma DropMajors(majors: map<nat, Major>, majors': map<nat, Major>, bs: seq<Block>, i: nat)
    requires Sound(bs) && MajorsMatch(majors, bs) && i < |bs| && JoinedAround(majors, majors', bs, i)
    ensures MajorsMatch(majors', bs[..i] + bs[i + 1..])
  {
    var bs' := bs[..i] + bs[i + 1..];
    forall j: nat | j < |bs'| ensures MajorMatches(majors', bs', j) {
      RemainingMajor(majors, majors', bs, i, if j < i then j else j + 1);
    }
  }

  /** Sections keep their records when an empty block goes or comes. */
  lemma DropMinors(minors: map<nat, Minor>, bs: seq<Block>, i: nat)
    requires MinorsMatch(minors, bs) && i < |bs|
    ensures MinorsMatch(minors, bs[..i] + bs[i + 1..])
  {
    var bs' := bs[..i] + bs[i + 1..];
    forall j, l | IsSection(bs', j, l) ensures MinorMatches(minors, bs'[j], l) {
      assert IsSection(bs, if j < i then j else j + 1, l);
    }
  }
}
