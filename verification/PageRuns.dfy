/** Runs of consecutive pages, and translations: what the operations mean for the flat map. */
module PageRuns {
  import opened Units
  import opened Words
  import opened PageEntry
  import opened PageTree
  import opened FreeFrames
  import opened SpaceChanges
  import opened SpaceSteps

  // ---------- one page ----------

  /** frame | offset is a sum. */
  lemma JoinOffset(e: nat, virt: nat)
    ensures Or(FrameOf(e), And(virt, PAGE - 1)) == FrameOf(e) + virt % PAGE
  {
    Pow2Values();
    FrameBits(e);
    var f := FrameOf(e) / PAGE;
    UpIsMul(f, PT_SHIFT);
    AndLowMask(virt, PT_SHIFT);
    ShrIsDiv(virt, PT_SHIFT);
    OrConcat(f, virt % PAGE, PT_SHIFT);
  }

  lemma LeafEntry(phys: nat, flags: nat)
    requires flags < Pow2(WORD)
    ensures var e := MakeEntry(phys, LeafFlags(flags)); IsPresent(e) && FrameOf(e) == FrameOf(phys) && e < W64
  {
    EntryRoundTrip(phys, LeafFlags(flags));
    OrBit(flags, Flag(PRESENT_BIT), PRESENT_BIT);
    FlagBit(PRESENT_BIT, PRESENT_BIT);
  }

  lemma FrameStart(k: nat, x: nat)
    requires x == k * PAGE
    ensures x % PAGE == 0 && x / PAGE == k
  {}

  /** The entry of a page maps the frame that it is made for. */
  lemma LeafMaps(phys: nat, flags: nat)
    requires flags < Pow2(WORD) && phys % PAGE == 0 && phys < PHYS_LIMIT
    ensures var e := MakeEntry(phys, LeafFlags(flags)); IsPresent(e) && FrameOf(e) == phys
  {
    LeafEntry(phys, flags);
    FrameBits(phys);
  }

  /** After map(v, p) every address of v's page translates to p plus its offset, and every other address to
      what it did before. */
  lemma MapTranslates(s: Space, s': Space, root: nat, v: nat, p: nat, flags: nat, w: nat)
    requires Good(s, root) && flags < Pow2(WORD) && p % PAGE == 0 && p < PHYS_LIMIT
    requires Mapped(s, s', root, Path(v), p, MakeEntry(p, LeafFlags(flags)), true)
    ensures s'.tables.Keys == s'.places.Keys
    ensures Translate(EntryAt(s'.tables, s'.places, Path(w)), w)
            == if PageNumber(w) == PageNumber(v) then p + w % PAGE
               else Translate(EntryAt(s.tables, s.places, Path(w)), w)
  {
    Indices(w);
    SamePath(v, w);
    LeafMaps(p, flags);
    JoinOffset(MakeEntry(p, LeafFlags(flags)), w);
  }

  /** After unmap(v) the addresses of v's page have no translation, and every other address has the one it had. */
  lemma UnmapTranslates(s: Space, s': Space, v: nat, w: nat)
    requires s.tables.Keys == s.places.Keys && Unmapped(s, s', Path(v), true)
    ensures s'.tables.Keys == s'.places.Keys
    ensures Translate(EntryAt(s'.tables, s'.places, Path(w)), w)
            == if PageNumber(w) == PageNumber(v) then -1 else Translate(EntryAt(s.tables, s.places, Path(w)), w)
  {
    Indices(w);
    SamePath(v, w);
    ZeroNotPresent();
  }

  /** unmap(v) undoes map(v, p) on a page that was not mapped: every address translates as before. */
  lemma UnmapUndoesMap(s: Space, s1: Space, s2: Space, root: nat, v: nat, p: nat, flags: nat, w: nat)
    requires Good(s, root) && flags < Pow2(WORD) && p % PAGE == 0 && p < PHYS_LIMIT
    requires !IsPresent(EntryAt(s.tables, s.places, Path(v)))
    requires Mapped(s, s1, root, Path(v), p, MakeEntry(p, LeafFlags(flags)), true)
    requires s1.tables.Keys == s1.places.Keys && Unmapped(s1, s2, Path(v), true)
    ensures s2.tables.Keys == s2.places.Keys
    ensures Translate(EntryAt(s2.tables, s2.places, Path(w)), w) == Translate(EntryAt(s.tables, s.places, Path(w)), w)
  {
    MapTranslates(s, s1, root, v, p, flags, w);
    UnmapTranslates(s1, s2, v, w);
    SamePath(v, w);
  }

  /** Which frames are in use after map(v, p): a page that maps another frame has that one released, and nothing
      else; otherwise the lowest free frames are taken, one for each missing table. */
  lemma MapFrames(s: Space, s': Space, root: nat, path: seq<nat>, p: nat, raw: nat, n: nat)
    requires Good(s, root) && ValidPath(path) && Mapped(s, s', root, path, p, raw, true) && n < |s.frames|
    ensures var e, need := EntryAt(s.tables, s.places, path), Missing(s.tables, root, path[..DEPTH]);
            && |s'.frames| == |s.frames|
            && (IsPresent(e) ==> need == 0)
            && (s'.frames[n] <==> if IsPresent(e) && FrameOf(e) != p then s.frames[n] && n * PAGE != FrameOf(e)
                                  else s.frames[n] || exists i :: 0 <= i < need && Nth(s.frames, i) == n)
  {
    var e, need := EntryAt(s.tables, s.places, path), Missing(s.tables, root, path[..DEPTH]);
    if need > 0 { NoLeaf(s, root, path); }
    ZeroNotPresent();
    TakeBit(s.frames, need, n);
    FrameBits(e);
    assert FrameOf(e) == FrameOf(e) / PAGE * PAGE;
  }

  /** Which frames are in use after unmap(v): all that were, but the one the page mapped. */
  lemma UnmapFrames(s: Space, s': Space, path: seq<nat>, ok: bool, n: nat)
    requires s.tables.Keys == s.places.Keys && |path| == DEPTH + 1 && Unmapped(s, s', path, ok) && n < |s.frames|
    ensures var e := EntryAt(s.tables, s.places, path);
            && |s'.frames| == |s.frames|
            && (s'.frames[n] <==> s.frames[n] && !(IsPresent(e) && n * PAGE == FrameOf(e)))
  {
    var e := EntryAt(s.tables, s.places, path);
    FrameBits(e);
    assert FrameOf(e) == FrameOf(e) / PAGE * PAGE;
  }

  // ---------- a run of pages ----------

  const MAX_PAGES: nat := 0x10_0000_0000   // 2^36

  /** The path of the k-th page from v. */
  function Window(v: nat, k: nat): seq<nat> {
    Path(v + k * PAGE)
  }

  lemma WindowIs(v: nat, k: nat, x: nat)
    requires x == v + k * PAGE
    ensures Window(v, k) == Path(x)
  {}

  lemma WindowValid(v: nat, k: nat)
    ensures ValidPath(Window(v, k))
  {
    Indices(v + k * PAGE);
  }

  lemma WindowDistinct(v: nat, j: nat, k: nat)
    requires j < k < MAX_PAGES
    ensures Window(v, j) != Window(v, k)
  {
    SamePath(v + j * PAGE, v + k * PAGE);
    PageOf(v, j);
    PageOf(v, k);
    NotSameModulo(v / PAGE, j, k);
  }

  lemma PageOf(v: nat, k: nat)
    ensures (v + k * PAGE) / PAGE == v / PAGE + k
  {}

  lemma NotSameModulo(a: nat, j: nat, k: nat)
    requires j < k < MAX_PAGES
    ensures (a + j) % MAX_PAGES != (a + k) % MAX_PAGES
  {}

  /** The entry of the k-th page from v. */
  ghost function Entry(s: Space, v: nat, k: nat): nat
    requires s.tables.Keys == s.places.Keys
  {
    EntryAt(s.tables, s.places, Window(v, k))
  }

  ghost predicate Outside(v: nat, n: nat, path: seq<nat>) {
    forall k: nat {:trigger Window(v, k)} :: k < n ==> path != Window(v, k)
  }

  /** From s0 to s the first pages from v got the given entries, and no other page changed. */
  ghost predicate EntriesSet(s0: Space, s: Space, v: nat, raws: seq<nat>) {
    && s0.tables.Keys == s0.places.Keys && s.tables.Keys == s.places.Keys
    && (forall k: nat {:trigger Entry(s, v, k)} :: k < |raws| ==> Entry(s, v, k) == raws[k])
    && forall path {:trigger EntryAt(s.tables, s.places, path)} ::
         ValidPath(path) && Outside(v, |raws|, path) ==>
               EntryAt(s.tables, s.places, path) == EntryAt(s0.tables, s0.places, path)
  }

  lemma SetNone(s: Space, v: nat)
    requires s.tables.Keys == s.places.Keys
    ensures EntriesSet(s, s, v, [])
  {}

  lemma SetOneMore(s0: Space, s: Space, s': Space, v: nat, raws: seq<nat>, raw: nat)
    requires EntriesSet(s0, s, v, raws) && |raws| < MAX_PAGES
    requires Remapped(s.tables, s.places, s'.tables, s'.places, Window(v, |raws|), raw)
    ensures EntriesSet(s0, s', v, raws + [raw])
  {
    var n := |raws|;
    forall k: nat | k < n + 1 ensures Entry(s', v, k) == (raws + [raw])[k] {
      WindowValid(v, k);
      if k < n {
        WindowDistinct(v, k, n);
        assert Entry(s, v, k) == raws[k];
      }
    }
    forall path | ValidPath(path) && Outside(v, n + 1, path)
      ensures EntryAt(s'.tables, s'.places, path) == EntryAt(s0.tables, s0.places, path)
    {
      assert path != Window(v, n);
      assert Outside(v, n, path);
    }
  }

  /** A page beyond those set has the entry it had. */
  lemma NotYetSet(s0: Space, s: Space, v: nat, raws: seq<nat>, k: nat)
    requires EntriesSet(s0, s, v, raws) && |raws| <= k < MAX_PAGES
    ensures Entry(s, v, k) == Entry(s0, v, k)
  {
    WindowValid(v, k);
    forall j: nat | j < |raws| ensures Window(v, k) != Window(v, j) {
      WindowDistinct(v, j, k);
    }
  }

  // ---------- releasing a run ----------

  function Erase(e: nat): nat {
    if IsPresent(e) then 0 else e
  }

  ghost function Erased(s: Space, v: nat, n: nat): (r: seq<nat>)
    requires s.tables.Keys == s.places.Keys
    ensures |r| == n && forall k: nat :: k < n ==> r[k] == Erase(Entry(s, v, k))
  {
    if n == 0 then [] else Erased(s, v, n - 1) + [Erase(Entry(s, v, n - 1))]
  }

  /** The frames after the first n pages from v have been unmapped. */
  ghost function DropFrames(s: Space, v: nat, n: nat): seq<bool>
    requires s.tables.Keys == s.places.Keys
  {
    if n == 0 then s.frames
    else
      var e := Entry(s, v, n - 1);
      if IsPresent(e) then AfterRelease(DropFrames(s, v, n - 1), FrameOf(e)) else DropFrames(s, v, n - 1)
  }

  /** The k-th page from v, when its turn comes, is unmapped or holds a frame in use. */
  ghost predicate OrderlyAt(s: Space, v: nat, k: nat)
    requires s.tables.Keys == s.places.Keys
  {
    IsPresent(Entry(s, v, k)) ==> InUse(DropFrames(s, v, k), FrameOf(Entry(s, v, k)))
  }

  ghost predicate Orderly(s: Space, v: nat, n: nat)
    requires s.tables.Keys == s.places.Keys
  {
    forall k: nat {:trigger OrderlyAt(s, v, k)} :: k < n ==> OrderlyAt(s, v, k)
  }

  /** The frames of the first n pages from v hold no tables. */
  ghost predicate NoTables(s: Space, v: nat, n: nat)
    requires s.tables.Keys == s.places.Keys
  {
    forall k: nat {:trigger Entry(s, v, k)} :: k < n && IsPresent(Entry(s, v, k)) ==>
          FrameOf(Entry(s, v, k)) !in s.tables
  }

  /** i pages have been unmapped. */
  ghost predicate Dropping(s0: Space, s: Space, v: nat, i: nat) {
    && s0.tables.Keys == s0.places.Keys && s.places == s0.places && Orderly(s0, v, i)
    && EntriesSet(s0, s, v, Erased(s0, v, i)) && s.frames == DropFrames(s0, v, i)
  }

  /** Unless one of the n pages maps a frame that holds a table, s is reached from s0 by changes that spare the
      tables. */
  ghost predicate Sparing(s0: Space, s: Space, v: nat, n: nat) {
    s0.tables.Keys == s0.places.Keys && (NoTables(s0, v, n) ==> Reaches(s0, s))
  }

  lemma DropNone(s: Space, v: nat)
    requires s.tables.Keys == s.places.Keys
    ensures Dropping(s, s, v, 0)
  {
    SetNone(s, v);
  }

  lemma SparingNone(s: Space, v: nat, n: nat)
    requires s.tables.Keys == s.places.Keys
    ensures Sparing(s, s, v, n)
  {
    ReachesSelf(s);
  }

  lemma DropSpares(s0: Space, s: Space, s': Space, v: nat, i: nat, n: nat, path: seq<nat>, ok: bool)
    requires Dropping(s0, s, v, i) && i < n <= MAX_PAGES && path == Window(v, i) && Unmapped(s, s', path, ok)
    requires Sparing(s0, s, v, n)
    ensures Sparing(s0, s', v, n)
  {
    NotYetSet(s0, s, v, Erased(s0, v, i), i);
    if NoTables(s0, v, n) {
      assert Entry(s0, v, i) == EntryAt(s.tables, s.places, path);
      assert SparesTables(s, path);
      ReachesFurther(s0, s, s');
    }
  }

  /** The turn of the i-th page: its entry is the first one. */
  lemma DropTurn(s0: Space, s: Space, v: nat, i: nat, path: seq<nat>)
    requires Dropping(s0, s, v, i) && i < MAX_PAGES && path == Window(v, i)
    ensures s.tables.Keys == s.places.Keys && EntryAt(s.tables, s.places, path) == Entry(s0, v, i)
    ensures Erased(s0, v, i + 1) == Erased(s0, v, i) + [Erase(Entry(s0, v, i))]
    ensures DropFrames(s0, v, i + 1)
            == if IsPresent(Entry(s0, v, i)) then AfterRelease(s.frames, FrameOf(Entry(s0, v, i))) else s.frames
    ensures OrderlyAt(s0, v, i) <==> (IsPresent(Entry(s0, v, i)) ==> InUse(s.frames, FrameOf(Entry(s0, v, i))))
  {
    NotYetSet(s0, s, v, Erased(s0, v, i), i);
  }

  lemma DropOneMore(s0: Space, s: Space, s': Space, v: nat, i: nat, n: nat, path: seq<nat>, ok: bool)
    requires Dropping(s0, s, v, i) && i < n <= MAX_PAGES && path == Window(v, i) && Unmapped(s, s', path, ok)
    ensures ok ==> Dropping(s0, s', v, i + 1)
    ensures !ok ==> !Orderly(s0, v, n)
  {
    DropTurn(s0, s, v, i, path);
    if ok {
      OrderlyMore(s0, v, i);
      SetOneMore(s0, s, s', v, Erased(s0, v, i), Erase(Entry(s0, v, i)));
    }
  }

  lemma OrderlyMore(s: Space, v: nat, n: nat)
    requires s.tables.Keys == s.places.Keys && Orderly(s, v, n) && OrderlyAt(s, v, n)
    ensures Orderly(s, v, n + 1)
  {
    forall k: nat | k < n + 1 ensures OrderlyAt(s, v, k) {}
  }

  /** Pages of a range of `size` bytes. */
  function Pages(size: nat): nat {
    (size + PAGE - 1) / PAGE
  }

  /** The iterator has reached the end when all pages of the range have been visited. */
  lemma NextPage(size: nat, offset: nat, i: nat, n: nat)
    requires offset == i * PAGE && n == Pages(size)
    ensures (offset < size <==> i < n) && offset + PAGE == (i + 1) * PAGE
  {}
}
