/** Page-table entries and the split of a virtual address, in the 4-level format of section 4.5 of the
    Intel 64 and IA-32 Architectures Software Developer's Manual, Volume 3A. */
module PageEntry {
  import opened Units
  import opened Words

  const ENTRIES: nat := 512
  const PHYS_LIMIT: nat := 0x10_0000_0000_0000   // 2^52
  const FLAGS_MASK: nat := 0xFFF0_0000_0000_0FFF

  const PRESENT_BIT: nat := 0
  const PAT_BIT: nat := 7
  const XD_BIT: nat := 63

  /** The flag with bit k set. */
  function Flag(k: nat): nat {
    Pow2(k)
  }

  // ---------- entries ----------

  predicate IsPresent(raw: nat) {
    And(raw, Flag(PRESENT_BIT)) != 0
  }

  /** m_raw & ~FLAGS_MASK */
  function FrameOf(raw: nat): nat {
    MaskFits();
    And(raw, Not(FLAGS_MASK, WORD))
  }

  /** PageTableEntry::set */
  function MakeEntry(frame: nat, flags: nat): nat {
    Or(And(flags, FLAGS_MASK), FrameOf(frame))
  }

  lemma MaskFits()
    ensures FLAGS_MASK < Pow2(WORD) && Pow2(WORD) == W64
  {
    Pow2Values();
  }

  lemma FlagBit(k: nat, j: nat)
    ensures Bit(Flag(k), j) == (j == k)
  {
    Pow2Add(0, k);
    UpBit(1, k, j);
    if j >= k { OneBit(j - k); }
  }

  lemma FlagTest(raw: nat, k: nat)
    ensures And(raw, Flag(k)) != 0 <==> Bit(raw, k)
  {
    Pow2Add(0, k);
    AndHighMask(raw, 1, k);
    AndLowMask(Shr(raw, k), 1);
    assert Low(Shr(raw, k), 1) == Shr(raw, k) % 2 + 2 * Low(Shr(raw, k) / 2, 0);
    ShrZero(k);
    UpOrder(1, And(Shr(raw, k), 1), k);
    Pow2Add(0, k);
  }

  /** The frame part of an entry is bits 12 to 51. */
  lemma FrameBits(raw: nat)
    ensures FrameOf(raw) == raw / PAGE % (PHYS_LIMIT / PAGE) * PAGE
    ensures FrameOf(raw) % PAGE == 0 && FrameOf(raw) < PHYS_LIMIT
    ensures raw % PAGE == 0 && raw < PHYS_LIMIT ==> FrameOf(raw) == raw
  {
    Pow2Values();
    FrameMask(40, 12);
    AndHighMask(raw, Pow2(40) - 1, 12);
    AndLowMask(Shr(raw, 12), 40);
    ShrIsDiv(raw, 12);
    ShrIsDiv(Shr(raw, 12), 40);
    UpIsMul(Low(Shr(raw, 12), 40), 12);
    SplitFrame(raw);
  }

  lemma SplitFrame(raw: nat)
    ensures var f := raw / 0x1000 % 0x100_0000_0000 * 0x1000; f % 0x1000 == 0 && f < PHYS_LIMIT
    ensures raw % 0x1000 == 0 && raw < PHYS_LIMIT ==> raw / 0x1000 % 0x100_0000_0000 * 0x1000 == raw
  {}

  lemma FrameMask(a: nat, b: nat)
    requires a == 40 && b == 12
    ensures FLAGS_MASK < Pow2(WORD) && Not(FLAGS_MASK, WORD) == Up(Pow2(a) - 1, b)
  {
    Pow2Values();
    UpIsMul(Pow2(a) - 1, b);
  }

  /** A mask whose complement is `a` ones above `b` zeros. */
  lemma HoleyMaskBit(m: nat, a: nat, b: nat, n: nat, k: nat)
    requires m < Pow2(n) && k < n && Not(m, n) == Up(Pow2(a) - 1, b)
    ensures Bit(m, k) <==> k < b || a + b <= k
  {
    NotBit(m, n, k);
    UpBit(Pow2(a) - 1, b, k);
    if k >= b { OnesBit(a, k - b); }
  }

  /** FLAGS_MASK keeps bits 0 to 11 and 52 to 63. */
  lemma MaskBit(k: nat)
    requires k < WORD
    ensures FLAGS_MASK < Pow2(WORD) && (Bit(FLAGS_MASK, k) <==> k < 12 || 52 <= k)
  {
    FrameMask(40, 12);
    HoleyMaskBit(FLAGS_MASK, 40, 12, WORD, k);
  }

  /** An entry holds the flags in the mask's bits, and the frame in the others. */
  lemma EntryBit(frame: nat, flags: nat, k: nat)
    requires k < WORD
    ensures Bit(MakeEntry(frame, flags), k) == if k < 12 || 52 <= k then Bit(flags, k) else Bit(frame, k)
    ensures Bit(FrameOf(frame), k) == (12 <= k < 52 && Bit(frame, k))
  {
    MaskBit(k);
    OrBit(And(flags, FLAGS_MASK), FrameOf(frame), k);
    AndBit(flags, FLAGS_MASK, k);
    AndBit(frame, Not(FLAGS_MASK, WORD), k);
    NotBit(FLAGS_MASK, WORD, k);
  }

  lemma EntryFits(frame: nat, flags: nat)
    ensures MakeEntry(frame, flags) < Pow2(WORD) && FrameOf(frame) < Pow2(WORD)
  {
    MaskFits();
    AndBound(flags, FLAGS_MASK);
    AndBound(frame, Not(FLAGS_MASK, WORD));
    OrBound(And(flags, FLAGS_MASK), FrameOf(frame), WORD);
  }

  /** set and get_frame are inverse, whatever the flags; the flags decide presence. */
  lemma EntryRoundTrip(frame: nat, flags: nat)
    ensures FrameOf(MakeEntry(frame, flags)) == FrameOf(frame)
    ensures IsPresent(MakeEntry(frame, flags)) <==> Bit(flags, PRESENT_BIT)
    ensures MakeEntry(frame, flags) < W64
  {
    MaskFits();
    EntryFits(frame, flags);
    var e := MakeEntry(frame, flags);
    EntryFits(e, 0);
    forall k | 0 <= k < WORD ensures Bit(FrameOf(e), k) == Bit(FrameOf(frame), k) {
      EntryBit(frame, flags, k);
      EntryBit(e, 0, k);
    }
    BitsDetermine(FrameOf(e), FrameOf(frame), WORD);
    FlagTest(e, PRESENT_BIT);
    EntryBit(frame, flags, PRESENT_BIT);
  }

  // ---------- fix_flags ----------

  /** pte_flags of fix_flags: what the leaf gets. */
  function LeafFlags(flags: nat): nat {
    Or(flags, Flag(PRESENT_BIT))
  }

  lemma LeafFlagBit(flags: nat, k: nat)
    ensures Bit(LeafFlags(flags), k) <==> k == 0 || Bit(flags, k)
  {
    OrBit(flags, Flag(PRESENT_BIT), k);
    FlagBit(PRESENT_BIT, k);
  }

  /** The entry of a page that is mapped to `phys` with the given flags, bit for bit: bits 12 to 51 are those of the
      address, the others those of the flags, with bit 0 set. */
  ghost predicate LeafBits(e: nat, phys: nat, flags: nat) {
    forall k: nat {:trigger Bit(e, k)} :: k < 64 ==>
      (Bit(e, k) <==> if 12 <= k < 52 then Bit(phys, k) else k == 0 || Bit(flags, k))
  }

  lemma LeafEntryBits(phys: nat, flags: nat)
    ensures LeafBits(MakeEntry(phys, LeafFlags(flags)), phys, flags)
  {
    forall k: nat | k < 64
      ensures Bit(MakeEntry(phys, LeafFlags(flags)), k)
              <==> if 12 <= k < 52 then Bit(phys, k) else k == 0 || Bit(flags, k)
    {
      EntryBit(phys, LeafFlags(flags), k);
      LeafFlagBit(flags, k);
    }
  }

  /** The entry of a table that is created for a page with the given flags: the same, but for bits 7 and 63, which are
      clear. */
  ghost predicate TableBits(e: nat, table: nat, flags: nat) {
    forall k: nat {:trigger Bit(e, k)} :: k < 64 ==>
      (Bit(e, k) <==> if 12 <= k < 52 then Bit(table, k) else k == 0 || (Bit(flags, k) && k != 7 && k != 63))
  }

  lemma TableEntryBits(table: nat, pdFlags: nat, flags: nat)
    requires forall k: nat {:trigger Bit(pdFlags, k)} :: k < 64 ==>
               (Bit(pdFlags, k) <==> k == 0 || (Bit(flags, k) && k != 7 && k != 63))
    ensures TableBits(MakeEntry(table, pdFlags), table, flags)
  {
    forall k: nat | k < 64
      ensures Bit(MakeEntry(table, pdFlags), k)
              <==> if 12 <= k < 52 then Bit(table, k) else k == 0 || (Bit(flags, k) && k != 7 && k != 63)
    {
      EntryBit(table, pdFlags, k);
    }
  }

  /** The result of fix_flags: what the entries above the leaf get, and what the leaf gets. */
  method FixFlags(flags: nat) returns (pdFlags: nat, pteFlags: nat)
    requires flags < Pow2(WORD)
    ensures pteFlags == LeafFlags(flags) && pteFlags < Pow2(WORD) && pdFlags < Pow2(WORD)
    ensures forall k: nat {:trigger Bit(pdFlags, k)} :: k < 64 ==>
              (Bit(pdFlags, k) <==> k == 0 || (Bit(flags, k) && k != 7 && k != 63))
    ensures forall k: nat {:trigger Bit(pteFlags, k)} :: k < 64 ==> (Bit(pteFlags, k) <==> k == 0 || Bit(flags, k))
  {
    Pow2Less(PAT_BIT, WORD);
    Pow2Less(XD_BIT, WORD);
    Pow2Less(PRESENT_BIT, WORD);
    pteFlags := Or(flags, Flag(PRESENT_BIT));
    OrBound(flags, Flag(PRESENT_BIT), WORD);
    pdFlags := pteFlags;
    FlagTest(pdFlags, PAT_BIT);
    if And(pdFlags, Flag(PAT_BIT)) != 0 {
      AndBound(pdFlags, Not(Flag(PAT_BIT), WORD));
      pdFlags := And(pdFlags, Not(Flag(PAT_BIT), WORD));
    }
    ghost var noPat := pdFlags;
    FlagTest(pdFlags, XD_BIT);
    if And(pdFlags, Flag(XD_BIT)) != 0 {
      AndBound(pdFlags, Not(Flag(XD_BIT), WORD));
      pdFlags := And(pdFlags, Not(Flag(XD_BIT), WORD));
    }
    forall k: nat | k < 64
      ensures Bit(pdFlags, k) <==> k == 0 || (Bit(flags, k) && k != 7 && k != 63)
      ensures Bit(pteFlags, k) <==> k == 0 || Bit(flags, k)
    {
      LeafFlagBit(flags, k);
      ClearedFlag(pteFlags, PAT_BIT, k);
      ClearedFlag(noPat, XD_BIT, k);
    }
  }

  /** x & ~flag */
  lemma ClearedFlag(x: nat, j: nat, k: nat)
    requires j < WORD && k < WORD
    ensures Flag(j) < Pow2(WORD) && Bit(And(x, Not(Flag(j), WORD)), k) == (Bit(x, k) && k != j)
  {
    Pow2Less(j, WORD);
    FlagBit(j, k);
    NotBit(Flag(j), WORD, k);
    AndBit(x, Not(Flag(j), WORD), k);
  }

  // ---------- the split of an address ----------

  const PML4_SHIFT: nat := 39
  const PDP_SHIFT: nat := 30
  const PD_SHIFT: nat := 21
  const PT_SHIFT: nat := PAGE_BITS
  const INDEX_MASK: nat := 0x1FF

  function Pml4Index(x: nat): nat { And(Shr(x, PML4_SHIFT), INDEX_MASK) }
  function PdpIndex(x: nat): nat { And(Shr(x, PDP_SHIFT), INDEX_MASK) }
  function PdIndex(x: nat): nat { And(Shr(x, PD_SHIFT), INDEX_MASK) }
  function PtIndex(x: nat): nat { And(Shr(x, PT_SHIFT), INDEX_MASK) }

  /** The four indices, from the root down. */
  function Path(x: nat): seq<nat> {
    [Pml4Index(x), PdpIndex(x), PdIndex(x), PtIndex(x)]
  }

  /** Bits 12 to 47: the page, of 2^36, that an address lies in. */
  function PageNumber(x: nat): nat {
    x / PAGE % 0x10_0000_0000
  }

  lemma IndexIs(x: nat, s: nat)
    ensures And(Shr(x, s), INDEX_MASK) == x / Pow2(s) % ENTRIES
  {
    assert Pow2(3) == 8;
    assert Pow2(6) == 64;
    assert Pow2(9) == 512;
    AndLowMask(Shr(x, s), 9);
    ShrIsDiv(Shr(x, s), 9);
    ShrIsDiv(x, s);
  }

  lemma Indices(x: nat)
    ensures Pml4Index(x) == x / 0x80_0000_0000 % ENTRIES && PdpIndex(x) == x / 0x4000_0000 % ENTRIES
    ensures PdIndex(x) == x / 0x20_0000 % ENTRIES && PtIndex(x) == x / 0x1000 % ENTRIES
    ensures forall i :: 0 <= i < 4 ==> Path(x)[i] < ENTRIES
  {
    Shifts();
    IndexIs(x, PML4_SHIFT);
    IndexIs(x, PDP_SHIFT);
    IndexIs(x, PD_SHIFT);
    IndexIs(x, PT_SHIFT);
  }

  lemma Shifts()
    ensures Pow2(39) == 0x80_0000_0000 && Pow2(30) == 0x4000_0000 && Pow2(21) == 0x20_0000 && Pow2(12) == 0x1000
  {
    Pow2Values();
    assert Pow2(40) == 2 * Pow2(39);
    assert Pow2(32) == 4 * Pow2(30);
    assert Pow2(24) == 0x1000 * 0x1000 by { Pow2Add(12, 12); UpIsMul(Pow2(12), 12); }
    assert Pow2(24) == 8 * Pow2(21);
  }

  /** The page with the given indices. */
  function Compose(a: nat, b: nat, c: nat, d: nat): nat {
    ((a * ENTRIES + b) * ENTRIES + c) * ENTRIES + d
  }

  lemma PathOfPage(x: nat)
    ensures PageNumber(x) == Compose(Pml4Index(x), PdpIndex(x), PdIndex(x), PtIndex(x))
  {
    Indices(x);
    Digits(x / PAGE);
    assert x / 0x20_0000 == x / 0x1000 / 512;
    assert x / 0x4000_0000 == x / 0x1000 / 512 / 512;
    assert x / 0x80_0000_0000 == x / 0x1000 / 512 / 512 / 512;
  }

  lemma Digits(p: nat)
    ensures p % 0x10_0000_0000 == Compose(p / 512 / 512 / 512 % 512, p / 512 / 512 % 512, p / 512 % 512, p % 512)
  {
    var q := p / 512;
    var r := q / 512;
    var t := r / 512;
    var low := Compose(t % 512, r % 512, q % 512, p % 512);
    assert q == 512 * r + q % 512 && r == 512 * t + r % 512 && t == 512 * (t / 512) + t % 512;
    RestOf(p, t / 512, low);
  }

  lemma RestOf(p: nat, high: nat, low: nat)
    requires p == 0x10_0000_0000 * high + low && low < 0x10_0000_0000
    ensures p % 0x10_0000_0000 == low
  {}

  /** Two addresses take the same path exactly when they lie in the same page. */
  lemma SamePath(x: nat, y: nat)
    ensures Path(x) == Path(y) <==> PageNumber(x) == PageNumber(y)
  {
    PathOfPage(x);
    PathOfPage(y);
    Indices(x);
    Indices(y);
    if PageNumber(x) == PageNumber(y) {
      ComposeInjective(Pml4Index(x), PdpIndex(x), PdIndex(x), PtIndex(x), Pml4Index(y), PdpIndex(y), PdIndex(y),
                       PtIndex(y));
    }
  }

  lemma ComposeInjective(a: nat, b: nat, c: nat, d: nat, a': nat, b': nat, c': nat, d': nat)
    requires a < ENTRIES && b < ENTRIES && c < ENTRIES && d < ENTRIES
    requires a' < ENTRIES && b' < ENTRIES && c' < ENTRIES && d' < ENTRIES
    requires Compose(a, b, c, d) == Compose(a', b', c', d')
    ensures a == a' && b == b' && c == c' && d == d'
  {}

  /** Every path is the path of some address, so the split is a bijection. */
  lemma EveryPath(a: nat, b: nat, c: nat, d: nat)
    requires a < ENTRIES && b < ENTRIES && c < ENTRIES && d < ENTRIES
    ensures Path(Compose(a, b, c, d) * PAGE) == [a, b, c, d]
  {
    var p := Compose(a, b, c, d);
    var x := p * PAGE;
    assert PageNumber(x) == p by {
      assert x / PAGE == p;
      assert p < 0x10_0000_0000;
    }
    PathOfPage(x);
    Indices(x);
    ComposeInjective(a, b, c, d, Pml4Index(x), PdpIndex(x), PdIndex(x), PtIndex(x));
  }
}
