/** Mapping a range of pages: which entries the pages get, which frames are taken for tables and which are released,
    and when it panics. */
module PageRanges {
  import opened Units
  import opened PageEntry
  import opened PageTree
  import opened FreeFrames
  import opened SpaceChanges
  import opened SpaceSteps
  import opened PageRuns

  /** What the k-th page of a range gets. */
  function RangeEntry(phys: nat, flags: nat, k: nat): nat {
    MakeEntry(phys + k * PAGE, LeafFlags(flags))
  }

  function RangeEntries(phys: nat, flags: nat, n: nat): (r: seq<nat>)
    ensures |r| == n && forall k: nat :: k < n ==> r[k] == RangeEntry(phys, flags, k)
  {
    if n == 0 then [] else RangeEntries(phys, flags, n - 1) + [RangeEntry(phys, flags, n - 1)]
  }

  /** Bit for bit: each page of the range maps its own frame, with the flags of the call. */
  lemma RangeBits(s0: Space, s: Space, v: nat, phys: nat, flags: nat, n: nat, k: nat)
    requires EntriesSet(s0, s, v, RangeEntries(phys, flags, n)) && k < n
    ensures LeafBits(Entry(s, v, k), phys + k * PAGE, flags)
  {
    assert Entry(s, v, k) == RangeEntry(phys, flags, k);
    LeafEntryBits(phys + k * PAGE, flags);
  }

  /** Mapping the k-th page displaces a frame. */
  ghost predicate DisplacesAt(s: Space, v: nat, phys: nat, k: nat)
    requires s.tables.Keys == s.places.Keys
  {
    Displaces(Entry(s, v, k), phys + k * PAGE)
  }

  // ---------- the tables that are missing ----------

  /** No table has the place that d indices of the k-th page's path lead to, and no earlier page has it on its path. */
  ghost predicate Lacks(places: Places, v: nat, k: nat, d: nat)
    requires d <= DEPTH
  {
    !Occupied(places, Window(v, k)[..d]) && !BeginsEarlier(v, k, Window(v, k)[..d])
  }

  /** The place is on the path of one of the first k pages. */
  ghost predicate BeginsEarlier(v: nat, k: nat, q: seq<nat>) {
    exists j: nat {:trigger Window(v, j)} :: j < k && Begins(q, Window(v, j), DEPTH)
  }

  /** The tables that are missing for the k-th page when those for the earlier pages are there. */
  ghost function Need(places: Places, v: nat, k: nat): (n: nat)
    ensures n <= DEPTH
  {
    (if Lacks(places, v, k, 1) then 1 else 0) + (if Lacks(places, v, k, 2) then 1 else 0)
    + if Lacks(places, v, k, 3) then 1 else 0
  }

  /** The places that are taken once the first i pages have their tables. */
  ghost predicate Covers(places0: Places, places: Places, v: nat, i: nat) {
    forall q {:trigger Occupied(places, q)} :: Occupied(places, q) <==> Occupied(places0, q) || BeginsEarlier(v, i, q)
  }

  lemma CoversNone(places: Places, v: nat)
    ensures Covers(places, places, v, 0)
  {}

  lemma CoversMore(places0: Places, places: Places, places': Places, v: nat, i: nat)
    requires Covers(places0, places, v, i) && Extends(places, places', Window(v, i), DEPTH)
    ensures Covers(places0, places', v, i + 1)
  {
    forall q ensures Occupied(places', q) <==> Occupied(places0, q) || BeginsEarlier(v, i + 1, q) {
      assert Occupied(places', q) <==> Occupied(places, q) || Begins(q, Window(v, i), DEPTH);
      assert Occupied(places, q) <==> Occupied(places0, q) || BeginsEarlier(v, i, q);
    }
  }

  /** The tables that the walk for the next page misses. */
  lemma NeedIsMissing(places0: Places, s: Space, root: nat, v: nat, i: nat, path: seq<nat>)
    requires Tree(s.tables, s.places, root) && Covers(places0, s.places, v, i) && path == Window(v, i)
    ensures Missing(s.tables, root, path[..DEPTH]) == Need(places0, v, i)
  {
    WindowValid(v, i);
    var p := path[..DEPTH];
    assert p[..0] == [] && p[0..] == p;
    MissingIsUntaken(s.tables, s.places, root, root, p, 0);
    assert p[..1] == path[..1] && p[..2] == path[..2] && p[..3] == path[..3];
    assert Untaken(s.places, p, 3) == 0;
    assert Untaken(s.places, p, 2) == if Lacks(places0, v, i, 3) then 1 else 0;
    assert Untaken(s.places, p, 1) == (if Lacks(places0, v, i, 2) then 1 else 0) + Untaken(s.places, p, 2);
    assert Untaken(s.places, p, 0) == (if Lacks(places0, v, i, 1) then 1 else 0) + Untaken(s.places, p, 1);
  }

  // ---------- the frames ----------

  /** The frames once a page with entry e is mapped to p, which takes `need` tables: with an entry there is a leaf
      table, and a displaced frame is released. */
  function PageFrames(frames: seq<bool>, need: nat, e: nat, p: nat): seq<bool> {
    if Displaces(e, p) then AfterRelease(frames, FrameOf(e)) else Take(frames, need)
  }

  /** The frames once the first i pages are mapped. */
  ghost function RangeFrames(s: Space, v: nat, phys: nat, i: nat): seq<bool>
    requires s.tables.Keys == s.places.Keys
  {
    if i == 0 then s.frames
    else PageFrames(RangeFrames(s, v, phys, i - 1), Need(s.places, v, i - 1), Entry(s, v, i - 1), phys + (i - 1) * PAGE)
  }

  /** When its turn comes, there are frames for the tables of the k-th page. */
  ghost predicate TablesFit(s: Space, v: nat, phys: nat, k: nat)
    requires s.tables.Keys == s.places.Keys
  {
    Need(s.places, v, k) <= FreeCount(RangeFrames(s, v, phys, k))
  }

  /** When its turn comes, a frame that the k-th page displaces is in use. */
  ghost predicate ReleasesUsed(s: Space, v: nat, phys: nat, k: nat)
    requires s.tables.Keys == s.places.Keys
  {
    DisplacesAt(s, v, phys, k) ==> InUse(RangeFrames(s, v, phys, k), FrameOf(Entry(s, v, k)))
  }

  ghost predicate TurnFits(s: Space, v: nat, phys: nat, k: nat)
    requires s.tables.Keys == s.places.Keys
  {
    TablesFit(s, v, phys, k) && ReleasesUsed(s, v, phys, k)
  }

  ghost predicate RangeFits(s: Space, v: nat, phys: nat, n: nat)
    requires s.tables.Keys == s.places.Keys
  {
    forall k: nat {:trigger TurnFits(s, v, phys, k)} :: k < n ==> TurnFits(s, v, phys, k)
  }

  /** The call gets to a page whose displaced frame is not in use. */
  ghost predicate PanicsReleasing(s: Space, v: nat, phys: nat, n: nat)
    requires s.tables.Keys == s.places.Keys
  {
    exists k: nat {:trigger ReleasesUsed(s, v, phys, k)} ::
      k < n && RangeFits(s, v, phys, k) && !ReleasesUsed(s, v, phys, k)
  }

  // ---------- the frames that tables take ----------

  /** At its turn the k-th page takes the frame at `address` for a table. */
  ghost predicate TakenAt(s: Space, v: nat, phys: nat, k: nat, address: nat)
    requires s.tables.Keys == s.places.Keys
  {
    !InUse(RangeFrames(s, v, phys, k), address) && InUse(RangeFrames(s, v, phys, k + 1), address)
  }

  ghost predicate Taken(s: Space, v: nat, phys: nat, i: nat, address: nat)
    requires s.tables.Keys == s.places.Keys
  {
    exists k: nat {:trigger TakenAt(s, v, phys, k, address)} :: k < i && TakenAt(s, v, phys, k, address)
  }

  /** A frame that the k-th page displaces held no table at the start, and none of the pages before took it for one. */
  ghost predicate SparesAt(s: Space, v: nat, phys: nat, k: nat)
    requires s.tables.Keys == s.places.Keys
  {
    var frame := FrameOf(Entry(s, v, k));
    DisplacesAt(s, v, phys, k) ==> frame !in s.tables && !Taken(s, v, phys, k, frame)
  }

  /** The pages that the call gets to release no table's frame. */
  ghost predicate SparesRange(s: Space, v: nat, phys: nat, n: nat)
    requires s.tables.Keys == s.places.Keys
  {
    forall k: nat {:trigger SparesAt(s, v, phys, k)} :: k < n && RangeFits(s, v, phys, k) ==> SparesAt(s, v, phys, k)
  }

  /** The tables that are missing for each of the first n pages. */
  ghost function Needs(places: Places, v: nat, n: nat): (r: seq<nat>)
    ensures |r| == n
  {
    seq(n, k requires 0 <= k < n => Need(places, v, k))
  }

  lemma FitsOneMore(s: Space, v: nat, phys: nat, n: nat)
    requires s.tables.Keys == s.places.Keys
    ensures RangeFits(s, v, phys, n + 1) <==> RangeFits(s, v, phys, n) && TurnFits(s, v, phys, n)
  {
    if RangeFits(s, v, phys, n) && TurnFits(s, v, phys, n) {
      forall k: nat | k < n + 1 ensures TurnFits(s, v, phys, k) {}
    }
  }

  /** No page of the range displaces a frame. */
  ghost predicate DisplacesNone(s: Space, v: nat, phys: nat, n: nat)
    requires s.tables.Keys == s.places.Keys
  {
    forall k: nat {:trigger DisplacesAt(s, v, phys, k)} :: k < n ==> !DisplacesAt(s, v, phys, k)
  }

  lemma RangeInTurn(s: Space, v: nat, phys: nat, states: seq<seq<bool>>)
    requires s.tables.Keys == s.places.Keys && |states| > 0 && DisplacesNone(s, v, phys, |states| - 1)
    requires forall k: nat :: k < |states| ==> states[k] == RangeFrames(s, v, phys, k)
    ensures TakenInTurn(states, Needs(s.places, v, |states| - 1)) && states[0] == s.frames
  {
    var counts := Needs(s.places, v, |states| - 1);
    forall k: nat | k < |counts| ensures states[k + 1] == Take(states[k], counts[k]) {
      assert !DisplacesAt(s, v, phys, k);
      assert RangeFrames(s, v, phys, k + 1) == Take(RangeFrames(s, v, phys, k), Need(s.places, v, k));
    }
  }

  lemma FitsInTurn(s: Space, v: nat, phys: nat, states: seq<seq<bool>>)
    requires s.tables.Keys == s.places.Keys && |states| > 0 && DisplacesNone(s, v, phys, |states| - 1)
    requires forall k: nat :: k < |states| ==> states[k] == RangeFrames(s, v, phys, k)
    ensures var counts := Needs(s.places, v, |states| - 1);
            RangeFits(s, v, phys, |counts|) <==> EnoughInTurn(states, counts, |counts|)
  {
    var counts := Needs(s.places, v, |states| - 1);
    forall k: nat | k < |counts| ensures TurnFits(s, v, phys, k) <==> counts[k] <= FreeCount(states[k]) {
      assert !DisplacesAt(s, v, phys, k);
      assert states[k] == RangeFrames(s, v, phys, k);
    }
  }

  /** Where no page displaces a frame, the missing tables take the lowest free frames, and the call panics exactly
      when fewer frames are free than tables are missing. */
  lemma UnmappedRange(s: Space, v: nat, phys: nat, n: nat)
    requires s.tables.Keys == s.places.Keys && DisplacesNone(s, v, phys, n)
    ensures RangeFrames(s, v, phys, n) == Take(s.frames, Total(Needs(s.places, v, n)))
    ensures RangeFits(s, v, phys, n) <==> Total(Needs(s.places, v, n)) <= FreeCount(s.frames)
  {
    var states := seq(n + 1, k requires 0 <= k < n + 1 => RangeFrames(s, v, phys, k));
    var counts := Needs(s.places, v, n);
    RangeInTurn(s, v, phys, states);
    TakenTotal(states, counts, n);
    assert counts[..n] == counts;
    FitsInTurn(s, v, phys, states);
  }

  // ---------- a range, page by page ----------

  /** i pages have got their entries. */
  ghost predicate Mapping(s0: Space, s: Space, v: nat, phys: nat, flags: nat, i: nat) {
    EntriesSet(s0, s, v, RangeEntries(phys, flags, i))
  }

  /** The tables for the first i pages are there, in frames that were taken for them, and the frames are those that
      mapping these pages leaves. */
  ghost predicate Growing(s0: Space, s: Space, v: nat, phys: nat, i: nat) {
    && s0.tables.Keys == s0.places.Keys && Covers(s0.places, s.places, v, i)
    && s.frames == RangeFrames(s0, v, phys, i) && RangeFits(s0, v, phys, i)
    && forall t {:trigger t in s.tables} :: t in s.tables ==> t in s0.tables || Taken(s0, v, phys, i, t)
  }

  lemma MapNone(s: Space, v: nat, phys: nat, flags: nat)
    requires s.tables.Keys == s.places.Keys
    ensures Mapping(s, s, v, phys, flags, 0) && Growing(s, s, v, phys, 0)
  {
    SetNone(s, v);
    CoversNone(s.places, v);
  }

  /** The next page is as it was, and if it displaces a frame, that holds no table. */
  lemma MapReady(s0: Space, s: Space, v: nat, phys: nat, flags: nat, i: nat, n: nat, path: seq<nat>, at: nat)
    requires Mapping(s0, s, v, phys, flags, i) && Growing(s0, s, v, phys, i) && SparesRange(s0, v, phys, n)
    requires i < n <= MAX_PAGES && path == Window(v, i) && at == phys + i * PAGE
    ensures ValidPath(path) && EntryAt(s.tables, s.places, path) == Entry(s0, v, i) && Spares(s, path, at)
  {
    WindowValid(v, i);
    NotYetSet(s0, s, v, RangeEntries(phys, flags, i), i);
    assert Entry(s, v, i) == EntryAt(s.tables, s.places, path);
    assert SparesAt(s0, v, phys, i);
  }

  lemma MapOneMore(s0: Space, s: Space, s': Space, root: nat, v: nat, phys: nat, flags: nat, i: nat,
                   path: seq<nat>, at: nat, raw: nat)
    requires Mapping(s0, s, v, phys, flags, i) && i < MAX_PAGES
    requires path == Window(v, i) && at == phys + i * PAGE && raw == MakeEntry(at, LeafFlags(flags))
    requires Mapped(s, s', root, path, at, raw, true)
    ensures Mapping(s0, s', v, phys, flags, i + 1)
  {
    SetOneMore(s0, s, s', v, RangeEntries(phys, flags, i), RangeEntry(phys, flags, i));
  }

  /** A table that is new is in a frame that was taken at this turn. */
  lemma TablesTaken(s0: Space, s: Space, s': Space, v: nat, phys: nat, i: nat)
    requires Growing(s0, s, v, phys, i) && TablesUsed(s'.tables, s'.frames)
    requires s'.frames == RangeFrames(s0, v, phys, i + 1)
    requires forall t {:trigger t in s'.tables} :: t in s'.tables ==> t in s.tables || !InUse(s.frames, t)
    ensures forall t {:trigger t in s'.tables} :: t in s'.tables ==> t in s0.tables || Taken(s0, v, phys, i + 1, t)
  {
    forall t | t in s'.tables ensures t in s0.tables || Taken(s0, v, phys, i + 1, t) {
      if t !in s.tables { assert TakenAt(s0, v, phys, i, t); }
    }
  }

  /** One page more, when the frames before it are known. */
  lemma RangeStep(s: Space, v: nat, phys: nat, k: nat, frames: seq<bool>, need: nat, e: nat, at: nat)
    requires s.tables.Keys == s.places.Keys && RangeFrames(s, v, phys, k) == frames && Need(s.places, v, k) == need
    requires Entry(s, v, k) == e && at == phys + k * PAGE
    ensures RangeFrames(s, v, phys, k + 1) == PageFrames(frames, need, e, at)
    ensures TurnFits(s, v, phys, k)
            <==> need <= FreeCount(frames) && (Displaces(e, at) ==> InUse(frames, FrameOf(e)))
  {}

  /** The turn of the i-th page: the frames that it takes and releases, and whether it panics. */
  lemma RangeTurn(s0: Space, s: Space, s': Space, root: nat, v: nat, phys: nat, i: nat, path: seq<nat>, at: nat,
                  raw: nat, ok: bool)
    requires Tree(s.tables, s.places, root) && Growing(s0, s, v, phys, i) && path == Window(v, i)
    requires at == phys + i * PAGE && EntryAt(s.tables, s.places, path) == Entry(s0, v, i)
    requires ValidPath(path) && Mapped(s, s', root, path, at, raw, ok)
    ensures ok <==> TurnFits(s0, v, phys, i)
    ensures s'.frames == RangeFrames(s0, v, phys, i + 1)
  {
    var need := Missing(s.tables, root, path[..DEPTH]);
    assert Need(s0.places, v, i) == need by { NeedIsMissing(s0.places, s, root, v, i, path); }
    RangeStep(s0, v, phys, i, s.frames, need, Entry(s0, v, i), at);
  }

  /** The tables and the frames, for one more page. */
  lemma GrowOneMore(s0: Space, s: Space, s': Space, root: nat, v: nat, phys: nat, i: nat, path: seq<nat>, at: nat,
                    raw: nat, ok: bool)
    requires Good(s, root) && Good(s', root) && Growing(s0, s, v, phys, i) && path == Window(v, i)
    requires at == phys + i * PAGE && EntryAt(s.tables, s.places, path) == Entry(s0, v, i)
    requires ValidPath(path) && Mapped(s, s', root, path, at, raw, ok)
    ensures ok <==> TurnFits(s0, v, phys, i)
    ensures ok ==> Growing(s0, s', v, phys, i + 1)
  {
    RangeTurn(s0, s, s', root, v, phys, i, path, at, raw, ok);
    if ok {
      CoversMore(s0.places, s.places, s'.places, v, i);
      FitsOneMore(s0, v, phys, i);
      TablesTaken(s0, s, s', v, phys, i);
    }
  }

  /** map fails for want of a frame, and then none is left, or because the displaced frame is not in use. */
  lemma MapExhausts(s0: Space, s: Space, s': Space, root: nat, v: nat, phys: nat, i: nat, n: nat, path: seq<nat>,
                    at: nat, raw: nat)
    requires Good(s, root) && Growing(s0, s, v, phys, i) && i < n && at == phys + i * PAGE
    requires ValidPath(path) && EntryAt(s.tables, s.places, path) == Entry(s0, v, i)
    requires Mapped(s, s', root, path, at, raw, false)
    ensures Lowest(s'.frames) == -1 || PanicsReleasing(s0, v, phys, n)
  {
    var need := Missing(s.tables, root, path[..DEPTH]);
    if ReleasesUsed(s0, v, phys, i) {
      NoLeaf(s, root, path);
      ZeroNotPresent();
      TakeCount(s.frames, need);
      CountZero(Take(s.frames, need));
    }
  }
}
