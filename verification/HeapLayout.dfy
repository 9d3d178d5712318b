/** The layout of the kernel heap: blocks of pages ("majors"), each with its sections ("minors") in
    address order.  What kmalloc, kfree and krealloc do to the layout, as relations, and the facts
    about addresses and sizes that hold in every layout. */
module HeapLayout {
  import opened Units

  const MIN_PAGES: nat := 16
  const MAJOR: nat := 40      // sizeof(struct liballoc_major)
  const MINOR: nat := 40      // sizeof(struct liballoc_minor)
  const ALIGNMENT: nat := 16
  const ALIGN_INFO: nat := 16
  const PAD: nat := 32        // ALIGNMENT + ALIGN_INFO, added to every request

  /** A minor: its header lies at addr, followed by `size` bytes, of which the user asked for `req`. */
  datatype Section = Section(addr: nat, size: nat, req: nat) {
    function Payload(): nat { addr + MINOR }
    function End(): nat { addr + MINOR + size }
    function User(): nat { AlignUp(Payload()) }
  }

  /** A major: its header lies at addr, at the start of its pages. */
  datatype Block = Block(addr: nat, pages: nat, secs: seq<Section>) {
    function Size(): nat { pages * PAGE }
    function End(): nat { addr + Size() }
    function Usage(): nat { MAJOR + Used(secs) }
    function Free(): int { Size() - Usage() }

    /** Gap k lies before section k; the last one is the space behind all sections. */
    function GapStart(k: nat): nat
      requires k <= |secs|
    {
      if k == 0 then addr + MAJOR else secs[k - 1].End()
    }

    function GapEnd(k: nat): nat
      requires k <= |secs|
    {
      if k == |secs| then End() else secs[k].addr
    }

    ghost predicate WF() {
      && addr > 0 && addr % PAGE == 0 && 0 < pages && Size() < W32 && End() <= W64
      && (forall i {:trigger SectionIn(i)} :: 0 <= i < |secs| ==> SectionIn(i))
      && (forall i, j :: 0 <= i < j < |secs| ==> secs[i].End() <= secs[j].addr)
    }

    ghost predicate SectionIn(i: nat)
      requires i < |secs|
    {
      addr + MAJOR <= secs[i].addr && secs[i].End() <= End() && secs[i].req + PAD <= secs[i].size
    }

    function Gap(k: nat): int
      requires k <= |secs|
    {
      GapEnd(k) - GapStart(k)
    }

    /** Gap k is the first that can hold `need` bytes. */
    ghost predicate FirstFit(need: nat, k: nat) {
      && k <= |secs| && Gap(k) >= need
      && forall i :: 0 <= i < k ==> Gap(i) < need
    }

    ghost predicate NoFit(need: nat) {
      forall i :: 0 <= i <= |secs| ==> Gap(i) < need
    }
  }

  // ---------- alignment of user pointers ----------

  /** The ALIGN macro: room for the alignment information, then up to the next multiple of 16. */
  function AlignUp(q: nat): (p: nat)
    ensures p % ALIGNMENT == 0 && q + ALIGN_INFO <= p < q + PAD
  {
    var p := q + ALIGN_INFO;
    if p % ALIGNMENT == 0 then p else p + (ALIGNMENT - p % ALIGNMENT)
  }

  // ---------- sums ----------

  function Used(secs: seq<Section>): nat {
    if secs == [] then 0 else secs[0].size + MINOR + Used(secs[1..])
  }

  function Sizes(secs: seq<Section>): nat {
    if secs == [] then 0 else secs[0].size + Sizes(secs[1..])
  }

  function InUse(bs: seq<Block>): nat {
    if bs == [] then 0 else Sizes(bs[0].secs) + InUse(bs[1..])
  }

  function Allocated(bs: seq<Block>): nat {
    if bs == [] then 0 else bs[0].Size() + Allocated(bs[1..])
  }

  lemma {:induction false} SumsConcat(a: seq<Section>, b: seq<Section>)
    ensures Used(a + b) == Used(a) + Used(b) && Sizes(a + b) == Sizes(a) + Sizes(b)
  {
    if a == [] {
      assert a + b == b;
    } else {
      assert (a + b)[0] == a[0] && (a + b)[1..] == a[1..] + b;
      SumsConcat(a[1..], b);
    }
  }

  lemma {:induction false} BlockSumsConcat(a: seq<Block>, b: seq<Block>)
    ensures InUse(a + b) == InUse(a) + InUse(b) && Allocated(a + b) == Allocated(a) + Allocated(b)
  {
    if a == [] {
      assert a + b == b;
    } else {
      assert (a + b)[0] == a[0] && (a + b)[1..] == a[1..] + b;
      BlockSumsConcat(a[1..], b);
    }
  }

  /** Sections in front of gap k and behind it are packed between the gap and the block's ends. */
  lemma {:induction false} UsedBeforeGap(b: Block, k: nat)
    requires b.WF() && k <= |b.secs|
    ensures b.addr + MAJOR + Used(b.secs[..k]) <= b.GapStart(k)
  {
    if k > 0 {
      UsedBeforeGap(b, k - 1);
      assert b.secs[..k] == b.secs[..k - 1] + [b.secs[k - 1]];
      SumsConcat(b.secs[..k - 1], [b.secs[k - 1]]);
      assert b.SectionIn(k - 1);
      assert b.GapStart(k - 1) <= b.secs[k - 1].addr;
    }
  }

  lemma {:induction false} UsedAfterGap(b: Block, k: nat)
    requires b.WF() && k <= |b.secs|
    ensures b.GapEnd(k) + Used(b.secs[k..]) <= b.End()
    decreases |b.secs| - k
  {
    if k < |b.secs| {
      UsedAfterGap(b, k + 1);
      assert b.secs[k..][1..] == b.secs[k + 1..];
      assert b.SectionIn(k);
      assert b.secs[k].End() <= b.GapEnd(k + 1);
    }
  }

  lemma SumsAt(secs: seq<Section>, k: nat)
    requires k <= |secs|
    ensures Used(secs) == Used(secs[..k]) + Used(secs[k..]) && Sizes(secs) == Sizes(secs[..k]) + Sizes(secs[k..])
  {
    assert secs == secs[..k] + secs[k..];
    SumsConcat(secs[..k], secs[k..]);
  }

  lemma GapOrdered(b: Block, k: nat)
    requires b.WF() && k <= |b.secs|
    ensures b.addr + MAJOR <= b.GapStart(k) <= b.GapEnd(k) <= b.End()
  {
    UsedBeforeGap(b, k);
    if k < |b.secs| {
      assert b.SectionIn(k);
    } else if k > 0 {
      assert b.SectionIn(k - 1);
    } else {
      assert b.Size() >= PAGE;
    }
  }

  /** usage never exceeds size, and a block's free memory bounds each of its gaps. */
  lemma GapAtMostFree(b: Block, k: nat)
    requires b.WF() && k <= |b.secs|
    ensures b.Usage() <= b.Size() && 0 <= b.Gap(k) <= b.Size() - b.Usage()
  {
    GapOrdered(b, k);
    UsedBeforeGap(b, k);
    UsedAfterGap(b, k);
    SumsAt(b.secs, k);
  }

  function Gaps(b: Block, k: nat): int
    requires k <= |b.secs| + 1
  {
    if k == 0 then 0 else Gaps(b, k - 1) + b.Gap(k - 1)
  }

  lemma {:induction false} GapsUpTo(b: Block, k: nat)
    requires k <= |b.secs|
    ensures Gaps(b, k + 1) == b.GapEnd(k) - b.addr - MAJOR - Used(b.secs[..k])
  {
    if k == 0 {
      assert Gaps(b, 1) == Gaps(b, 0) + b.Gap(0);
    } else {
      GapsUpTo(b, k - 1);
      assert b.secs[..k] == b.secs[..k - 1] + [b.secs[k - 1]];
      SumsConcat(b.secs[..k - 1], [b.secs[k - 1]]);
    }
  }

  /** What usage leaves of a block is exactly its gaps. */
  lemma FreeIsGaps(b: Block)
    ensures Gaps(b, |b.secs| + 1) == b.Size() - b.Usage()
  {
    GapsUpTo(b, |b.secs|);
    assert b.secs[..|b.secs|] == b.secs;
  }

  // ---------- layouts ----------

  ghost predicate Apart(a: Block, b: Block) {
    a.End() <= b.addr || b.End() <= a.addr
  }

  /** Blocks are in order inside, and pairwise disjoint. */
  ghost predicate Sound(bs: seq<Block>) {
    && (forall i {:trigger bs[i].WF()} :: 0 <= i < |bs| ==> bs[i].WF())
    && (forall i, j {:trigger Apart(bs[i], bs[j])} :: 0 <= i < j < |bs| ==> Apart(bs[i], bs[j]))
  }

  ghost predicate NoneEmpty(bs: seq<Block>) {
    forall i :: 0 <= i < |bs| ==> bs[i].secs != []
  }

  /** NULL, or one of the listed blocks. */
  ghost predicate ListedOrNull(bs: seq<Block>, a: nat) {
    a == 0 || exists i :: 0 <= i < |bs| && bs[i].addr == a
  }

  ghost predicate IsSection(bs: seq<Block>, i: int, k: int) {
    0 <= i < |bs| && 0 <= k < |bs[i].secs|
  }

  /** Byte x belongs to the payload of section k of block i. */
  ghost predicate InPayload(bs: seq<Block>, i: int, k: int, x: int) {
    IsSection(bs, i, k) && bs[i].secs[k].Payload() <= x < bs[i].secs[k].End()
  }

  ghost predicate Payloads(bs: seq<Block>, x: int) {
    exists i, k :: InPayload(bs, i, k, x)
  }

  lemma SectionInBlock(bs: seq<Block>, i: int, k: int)
    requires Sound(bs) && IsSection(bs, i, k)
    ensures var b, s := bs[i], bs[i].secs[k];
            b.addr + MAJOR <= s.addr && s.End() <= b.End() && s.req + PAD <= s.size && b.WF()
  {
    assert bs[i].WF() && bs[i].SectionIn(k);
  }

  /** Two different sections do not share a byte, headers included. */
  lemma SectionsDisjoint(bs: seq<Block>, i: int, k: int, j: int, l: int)
    requires Sound(bs) && IsSection(bs, i, k) && IsSection(bs, j, l) && (i, k) != (j, l)
    ensures var s, t := bs[i].secs[k], bs[j].secs[l]; s.End() <= t.addr || t.End() <= s.addr
  {
    SectionInBlock(bs, i, k);
    SectionInBlock(bs, j, l);
    if i < j {
      assert Apart(bs[i], bs[j]);
    } else if j < i {
      assert Apart(bs[j], bs[i]);
    }
  }

  /** The header of a section lies in no payload. */
  lemma MinorHeaderClear(bs: seq<Block>, i: int, k: int)
    requires Sound(bs) && IsSection(bs, i, k)
    ensures forall x :: bs[i].secs[k].addr <= x < bs[i].secs[k].Payload() ==> !Payloads(bs, x)
  {
    forall x, j, l | bs[i].secs[k].addr <= x < bs[i].secs[k].Payload() && InPayload(bs, j, l, x) ensures false {
      if (i, k) != (j, l) { SectionsDisjoint(bs, i, k, j, l); }
    }
  }

  /** A section keeps clear of every block's header. */
  lemma SectionClearOfMajors(bs: seq<Block>, i: int, j: int, l: int)
    requires Sound(bs) && 0 <= i < |bs| && IsSection(bs, j, l)
    ensures bs[j].secs[l].End() <= bs[i].addr || bs[i].addr + MAJOR <= bs[j].secs[l].addr
  {
    SectionInBlock(bs, j, l);
    assert bs[i].WF();
    if i < j {
      assert Apart(bs[i], bs[j]);
    } else if j < i {
      assert Apart(bs[j], bs[i]);
    }
  }

  /** The header of a block lies in no payload. */
  lemma MajorHeaderClear(bs: seq<Block>, i: int)
    requires Sound(bs) && 0 <= i < |bs|
    ensures forall x :: bs[i].addr <= x < bs[i].addr + MAJOR ==> !Payloads(bs, x)
  {
    forall x, j, l | bs[i].addr <= x < bs[i].addr + MAJOR && InPayload(bs, j, l, x) ensures false {
      SectionClearOfMajors(bs, i, j, l);
    }
  }

  /** A gap lies in no payload and in no header of a section. */
  lemma GapClear(bs: seq<Block>, i: nat, k: nat)
    requires Sound(bs) && i < |bs| && k <= |bs[i].secs|
    ensures forall x :: bs[i].GapStart(k) <= x < bs[i].GapEnd(k) ==> !Payloads(bs, x)
    ensures forall j, l :: IsSection(bs, j, l) ==>
              bs[j].secs[l].End() <= bs[i].GapStart(k) || bs[i].GapEnd(k) <= bs[j].secs[l].addr
  {
    var b := bs[i];
    assert b.WF();
    GapOrdered(b, k);
    forall j, l | IsSection(bs, j, l)
      ensures bs[j].secs[l].End() <= b.GapStart(k) || b.GapEnd(k) <= bs[j].secs[l].addr
    {
      SectionInBlock(bs, j, l);
      if i < j {
        assert Apart(bs[i], bs[j]);
      } else if j < i {
        assert Apart(bs[j], bs[i]);
      }
    }
  }
}
