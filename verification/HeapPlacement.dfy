/** Which gap kmalloc takes, and what kmalloc and kfree make of the best bet, in terms of the blocks alone. */
module HeapPlacement {
  import opened HeapLayout
  import opened HeapSteps
  import opened HeapProofs
  import opened HeapTheorems

  // ---------- the order in which blocks are looked at ----------

  /** Block b has a gap of `need` bytes. */
  ghost predicate HasRoom(b: Block, need: nat) {
    exists g :: 0 <= g <= |b.secs| && b.Gap(g) >= need
  }

  /** The best bet has more than `need` bytes free. */
  ghost predicate Promising(s: State, need: nat) {
    exists b :: 0 <= b < |s.blocks| && s.blocks[b].addr == s.bet && s.blocks[b].Free() > need
  }

  /** The search for `need` bytes begins at block `from`: at the best bet if it is promising, else at the root. */
  ghost predicate BeginsAt(s: State, need: nat, from: nat) {
    if Promising(s, need) then from < |s.blocks| && s.blocks[from].addr == s.bet else from == 0
  }

  /** Of n blocks, block j comes before block i: from, ..., the last one, then the root and those behind it, and at the
      very end a new block. */
  predicate Before(n: nat, from: nat, j: int, i: int) {
    0 <= j < n && (i >= n || if i >= from then from <= j < i else from <= j || j < i)
  }

  lemma BeginsAtStart(s: State, need: nat, from: nat)
    requires Sound(s.blocks) && BeginsAt(s, need, from)
    ensures from == Start(s, need)
  {
    if Promising(s, need) {
      IndexOfBlock(s.blocks, from);
      var b :| 0 <= b < |s.blocks| && s.blocks[b].addr == s.bet && s.blocks[b].Free() > need;
      IndexOfBlock(s.blocks, b);
    }
  }

  // ---------- kmalloc ----------

  /** A successful kmalloc, and the section it has made. */
  ghost predicate Made(s: State, s': State, req: nat, page: nat, p: nat, i: nat, k: nat) {
    && Good(s) && req <= MAX_REQ && (page != 0 ==> FreshPages(s.blocks, page, PagesFor(req + PAD)))
    && MallocStep(s, s', req, page, p) && p != 0 && PointsTo(s'.blocks, p, i, k)
  }

  /** The step that has made it: in a gap of a block, or in the new block. */
  lemma MadeHow(s: State, s': State, req: nat, page: nat, p: nat, i: nat, k: nat)
    requires Made(s, s', req, page, p, i, k)
    ensures (exists j, l :: Placed(s, s', req, p, j, l)) || Appended(s, s', req, page, p)
  {}

  ghost predicate Appended(s: State, s': State, req: nat, page: nat, p: nat) {
    var need, now := req + PAD + MINOR, s.blocks + [EmptyBlock(page, req)];
    && page != 0 && s'.blocks == s.blocks + [NewBlock(page, req)] && p == AlignUp(page + MAJOR + MINOR)
    && NoFits(s.blocks, need, 0, |s.blocks|)
    && Remembers(s, now, s'.bet, Start(s, need), j => true) && RemembersNew(s, need, now, s'.bet)
  }

  /** The section is the one that the step placed, or the one in the new block. */
  lemma MadeWhere(s: State, s': State, req: nat, page: nat, p: nat, i: nat, k: nat)
    requires Made(s, s', req, page, p, i, k)
    ensures i < |s.blocks| ==> Placed(s, s', req, p, i, k)
    ensures i >= |s.blocks| ==> i == |s.blocks| && k == 0 && Appended(s, s', req, page, p)
  {
    MallocGood(s, s', req, page, p);
    MadeHow(s, s', req, page, p, i, k);
    if j, l :| Placed(s, s', req, p, j, l) {
      PlacedThere(s, s', req, p, i, k, j, l);
    } else {
      AppendedThere(s, s', req, page, p, i, k);
    }
  }

  lemma PlacedThere(s: State, s': State, req: nat, p: nat, i: nat, k: nat, j: nat, l: nat)
    requires Sound(s'.blocks) && Placed(s, s', req, p, j, l) && PointsTo(s'.blocks, p, i, k)
    ensures i == j && k == l
  {
    PlaceAdds(s.blocks, j, l, req);
    assert PointsTo(s'.blocks, p, j, l);
    if (i, k) != (j, l) { UserPointersDiffer(s'.blocks, i, k, j, l); }
  }

  lemma AppendedThere(s: State, s': State, req: nat, page: nat, p: nat, i: nat, k: nat)
    requires Sound(s'.blocks) && s'.blocks == s.blocks + [NewBlock(page, req)] && PointsTo(s'.blocks, p, i, k)
    requires p == AlignUp(page + MAJOR + MINOR)
    ensures i == |s.blocks| && k == 0
  {
    assert PointsTo(s'.blocks, p, |s.blocks|, 0);
    if (i, k) != (|s.blocks|, 0) { UserPointersDiffer(s'.blocks, i, k, |s.blocks|, 0); }
  }

  lemma NoRoom(b: Block, need: nat)
    requires b.NoFit(need)
    ensures !HasRoom(b, need)
  {}

  /** The request goes into the first gap with room of the first block with room, in the order of the search; a new
      block is made only when no block has room. */
  lemma MallocPlaces(s: State, s': State, req: nat, page: nat, p: nat, i: nat, k: nat, from: nat)
    requires Made(s, s', req, page, p, i, k)
    ensures i < |s.blocks| ==>
              && k <= |s.blocks[i].secs| && s.blocks[i].Gap(k) >= req + 72
              && (forall g :: 0 <= g < k ==> s.blocks[i].Gap(g) < req + 72)
    ensures i < |s.blocks| && BeginsAt(s, req + 72, from) ==>
              forall j :: 0 <= j < |s.blocks| && Before(|s.blocks|, from, j, i) ==> !HasRoom(s.blocks[j], req + 72)
    ensures i >= |s.blocks| ==>
              && i == |s.blocks| && k == 0 && page != 0 && s'.blocks[i].addr == page
              && forall j :: 0 <= j < |s.blocks| ==> !HasRoom(s.blocks[j], req + 72)
  {
    MadeWhere(s, s', req, page, p, i, k);
    var n, begins := |s.blocks|, BeginsAt(s, req + 72, from);
    if begins { BeginsAtStart(s, req + 72, from); }
    forall j | 0 <= j < n && (i >= n || (begins && Before(n, from, j, i)))
      ensures !HasRoom(s.blocks[j], req + 72)
    {
      NoRoom(s.blocks[j], req + 72);
    }
  }

  /** The section has the request and 32 bytes of padding, and lies right behind the one before it or behind the block's
      header; all other sections are as before.  The user pointer is the first multiple of 16 that leaves 16 bytes. */
  lemma MallocLays(s: State, s': State, req: nat, page: nat, p: nat, i: nat, k: nat)
    requires Made(s, s', req, page, p, i, k)
    ensures var b := s'.blocks[i];
            && b.secs[k].req == req && b.secs[k].size == req + 32
            && b.secs[k].addr == (if k == 0 then b.addr + 40 else b.secs[k - 1].addr + 40 + b.secs[k - 1].size)
            && p % 16 == 0 && b.secs[k].addr + 56 <= p < b.secs[k].addr + 72
    ensures |s'.blocks| == (if i < |s.blocks| then |s.blocks| else |s.blocks| + 1)
    ensures forall j :: 0 <= j < |s.blocks| && j != i ==> s'.blocks[j] == s.blocks[j]
    ensures i < |s.blocks| ==>
              && s'.blocks[i].addr == s.blocks[i].addr && s'.blocks[i].pages == s.blocks[i].pages
              && s'.blocks[i].secs[..k] + s'.blocks[i].secs[k + 1..] == s.blocks[i].secs
  {
    MadeWhere(s, s', req, page, p, i, k);
    if i < |s.blocks| { PlaceLays(s.blocks, i, k, req); }
  }

  lemma PlaceLays(bs: seq<Block>, i: nat, k: nat, req: nat)
    requires i < |bs| && k <= |bs[i].secs|
    ensures var b := PlaceAt(bs, i, k, req)[i];
            && |b.secs| == |bs[i].secs| + 1 && b.secs[k] == NewSection(bs[i], k, req)
            && (k > 0 ==> b.secs[k - 1] == bs[i].secs[k - 1])
            && b.secs[..k] + b.secs[k + 1..] == bs[i].secs
  {
    var b := PlaceAt(bs, i, k, req)[i];
    assert b.secs[..k] == bs[i].secs[..k] && b.secs[k + 1..] == bs[i].secs[k..];
  }

  /** A new block has at least 16 pages, and no more than the section with all headers takes. */
  lemma NewBlockPages(s: State, s': State, req: nat, page: nat, p: nat, i: nat, k: nat)
    requires Made(s, s', req, page, p, i, k)
    ensures i >= |s.blocks| ==>
              var pages := s'.blocks[i].pages;
              && pages >= 16 && pages * 4096 >= req + 112 && (pages == 16 || (pages - 1) * 4096 < req + 112)
  {
    MadeWhere(s, s', req, page, p, i, k);
    LeastPages(req);
  }

  lemma LeastPages(req: nat)
    requires req <= MAX_REQ
    ensures var pages := PagesFor(req + 32);
            && pages >= 16 && pages * 4096 >= req + 112 && (pages == 16 || (pages - 1) * 4096 < req + 112)
  {}

  // ---------- the best bet after kmalloc ----------

  /** Free memory of the best bet; 0 when there is none. */
  ghost function BetFree(bs: seq<Block>, bet: nat): int {
    if b :| 0 <= b < |bs| && bs[b].addr == bet then bs[b].Free() else 0
  }

  /** Of the blocks `now`, the first n of which were there before, `looked` were looked at: the best bet stays when none
      of them has more free memory, and is otherwise the first of those with the most. */
  ghost predicate BetChosen(s: State, now: seq<Block>, from: nat, looked: int -> bool, bet: nat) {
    if bet == s.bet then
      forall j :: 0 <= j < |now| && looked(j) ==> now[j].Free() <= BetFree(s.blocks, s.bet)
    else
      exists m :: 0 <= m < |now| && looked(m) && now[m].addr == bet && MostFree(s, now, from, looked, m)
  }

  ghost predicate MostFree(s: State, now: seq<Block>, from: nat, looked: int -> bool, m: int)
    requires 0 <= m < |now|
  {
    && now[m].Free() > BetFree(s.blocks, s.bet)
    && (forall j :: 0 <= j < |now| && looked(j) ==> now[j].Free() <= now[m].Free())
    && (forall j :: 0 <= j < |now| && Before(|s.blocks|, from, j, m) ==> now[j].Free() < now[m].Free())
  }

  lemma BetFreeIs(bs: seq<Block>, bet: nat)
    requires Sound(bs)
    ensures BetFree(bs, bet) == FreeOf(bs, bet)
  {
    forall b | 0 <= b < |bs| && bs[b].addr == bet ensures IndexOf(bs, bet) == b { IndexOfBlock(bs, b); }
  }

  lemma ChosenBet(s: State, now: seq<Block>, from: nat, looked: int -> bool, bet: nat)
    requires s.blocks <= now && from <= |s.blocks| && Sound(s.blocks)
    requires bet == s.bet ==> FreeOf(now, bet) == FreeOf(s.blocks, s.bet)
    requires bet != s.bet ==> FirstMost(s, now, from, bet) && FreeOf(now, bet) > FreeOf(s.blocks, s.bet)
    requires bet != s.bet ==> looked(IndexOf(now, bet))
    requires forall j :: 0 <= j < |now| && looked(j) ==> now[j].Free() <= FreeOf(now, bet)
    ensures BetChosen(s, now, from, looked, bet)
  {
    BetFreeIs(s.blocks, s.bet);
    if bet != s.bet {
      var m := IndexOf(now, bet);
      forall j | 0 <= j < |now| && Before(|s.blocks|, from, j, m) ensures now[j].Free() < now[m].Free() {
        assert m >= |s.blocks| || Rank(from, |s.blocks|, j) < Rank(from, |s.blocks|, m);
      }
      assert MostFree(s, now, from, looked, m);
    }
  }

  /** The request went into a block that was there: the blocks up to that one were looked at. */
  lemma MallocBet(s: State, s': State, req: nat, page: nat, p: nat, i: nat, k: nat, from: nat)
    requires Made(s, s', req, page, p, i, k)
    ensures i < |s.blocks| && BeginsAt(s, req + 72, from) ==>
              BetChosen(s, s.blocks, from, j => j == i || Before(|s.blocks|, from, j, i), s'.bet)
  {
    MadeWhere(s, s', req, page, p, i, k);
    if i < |s.blocks| && BeginsAt(s, req + 72, from) {
      BeginsAtStart(s, req + 72, from);
      PlacedBet(s, s', req, p, i, k);
    }
  }

  lemma PlacedBet(s: State, s': State, req: nat, p: nat, i: nat, k: nat)
    requires Sound(s.blocks) && Placed(s, s', req, p, i, k)
    ensures var start := Start(s, req + 72);
            BetChosen(s, s.blocks, start, j => j == i || Before(|s.blocks|, start, j, i), s'.bet)
  {
    var start := Start(s, req + 72);
    ChosenBet(s, s.blocks, start, j => j == i || Before(|s.blocks|, start, j, i), s'.bet);
  }

  /** A new block, still empty then, counts when the heap was empty, or when the last block has enough free memory,
      though in no one gap; all others were looked at. */
  lemma MallocNewBet(s: State, s': State, req: nat, page: nat, p: nat, i: nat, k: nat, from: nat)
    requires Made(s, s', req, page, p, i, k)
    ensures i >= |s.blocks| && BeginsAt(s, req + 72, from) ==>
              BetChosen(s, s.blocks + [s'.blocks[i].(secs := [])], from, j => NewCounts(s.blocks, req + 72, j), s'.bet)
  {
    MadeWhere(s, s', req, page, p, i, k);
    if i >= |s.blocks| && BeginsAt(s, req + 72, from) {
      BeginsAtStart(s, req + 72, from);
      AppendedBet(s, s', req, page, p);
    }
  }

  predicate NewCounts(bs: seq<Block>, need: nat, j: int) {
    j < |bs| || bs == [] || bs[|bs| - 1].Free() >= need
  }

  lemma AppendedBet(s: State, s': State, req: nat, page: nat, p: nat)
    requires Good(s) && FreshPages(s.blocks, page, PagesFor(req + PAD)) && Appended(s, s', req, page, p)
    ensures |s'.blocks| == |s.blocks| + 1
    ensures BetChosen(s, s.blocks + [s'.blocks[|s.blocks|].(secs := [])], Start(s, req + 72),
                      j => NewCounts(s.blocks, req + 72, j), s'.bet)
  {
    assert NewBlock(page, req).(secs := []) == EmptyBlock(page, req);
    BetOld(s, page, req);
    ChosenBet(s, s.blocks + [EmptyBlock(page, req)], Start(s, req + 72), j => NewCounts(s.blocks, req + 72, j), s'.bet);
  }

  lemma BetOld(s: State, page: nat, req: nat)
    requires Good(s) && FreshPages(s.blocks, page, PagesFor(req + PAD))
    ensures FreeOf(s.blocks + [EmptyBlock(page, req)], s.bet) == FreeOf(s.blocks, s.bet)
  {
    FreeOfAppended(s.blocks, EmptyBlock(page, req), s.bet);
    assert s.bet == page ==> s.bet != 0;
  }

  /** kmalloc fails: every block was looked at. */
  lemma MallocNullBet(s: State, s': State, req: nat, page: nat, from: nat)
    requires Good(s) && MallocStep(s, s', req, page, 0) && BeginsAt(s, req + 72, from)
    ensures page == 0 && s'.blocks == s.blocks && BetChosen(s, s.blocks, from, j => true, s'.bet)
  {
    forall j, l | Placed(s, s', req, 0, j, l) ensures false {}
    BeginsAtStart(s, req + 72, from);
    ChosenBet(s, s.blocks, from, j => true, s'.bet);
  }

  // ---------- kfree ----------

  /** kfree of the pointer of section k of block i. */
  ghost predicate FreedAt(s: State, s': State, p: nat, i: nat, k: nat) {
    Good(s) && FreeStep(s, s', p) && PointsTo(s.blocks, p, i, k)
  }

  lemma FreedWhere(s: State, s': State, p: nat, i: nat, k: nat)
    requires FreedAt(s, s', p, i, k)
    ensures Freed(s, s', p, i, k)
  {
    var j: nat, l: nat :| Freed(s, s', p, j, l);
    if (i, k) != (j, l) { UserPointersDiffer(s.blocks, i, k, j, l); }
  }

  /** Only that section leaves; a block with no other one leaves too. */
  lemma FreeDrops(s: State, s': State, p: nat, i: nat, k: nat)
    requires FreedAt(s, s', p, i, k)
    ensures var secs := s.blocks[i].secs;
            if |secs| == 1 then s'.blocks == s.blocks[..i] + s.blocks[i + 1..]
            else s'.blocks == s.blocks[i := s.blocks[i].(secs := secs[..k] + secs[k + 1..])]
  {
    FreedWhere(s, s', p, i, k);
  }

  /** As ints, two numbers below 2^32 are in order unless just one of them reaches 2^31; that one is negative. */
  predicate GreaterAsInt(x: int, y: int) {
    if (x < 0x8000_0000) == (y < 0x8000_0000) then x > y else x < 0x8000_0000
  }

  lemma SignedIntIs(x: int)
    ensures 0 <= x < 0x8000_0000 ==> SignedInt(x) == x
    ensures 0x8000_0000 <= x < 0x1_0000_0000 ==> SignedInt(x) == x - 0x1_0000_0000
  {}

  /** The best bet after kfree: forgotten with its block; otherwise the block of the section, when the best bet is not
      NULL and has less free memory than that block has now, as ints. */
  lemma FreeBet(s: State, s': State, p: nat, i: nat, k: nat, b: nat)
    requires FreedAt(s, s', p, i, k) && (s.bet == 0 || (b < |s.blocks| && s.blocks[b].addr == s.bet))
    ensures |s.blocks[i].secs| == 1 ==> s'.bet == if s.bet == s.blocks[i].addr then 0 else s.bet
    ensures |s.blocks[i].secs| > 1 && s.bet == 0 ==> s'.bet == 0
    ensures |s.blocks[i].secs| > 1 && s.bet != 0 ==>
              && |s'.blocks| == |s.blocks| && 0 <= s'.blocks[b].Free() < 0x1_0000_0000
              && 0 <= s'.blocks[i].Free() < 0x1_0000_0000
              && s'.bet == if GreaterAsInt(s'.blocks[i].Free(), s'.blocks[b].Free()) then s.blocks[i].addr else s.bet
  {
    FreedWhere(s, s', p, i, k);
    FreeSound(s.blocks, i, k);
    if |s.blocks[i].secs| > 1 && s.bet != 0 {
      FreeInRange(s'.blocks, i);
      FreeInRange(s'.blocks, b);
      IndexOfBlock(s'.blocks, b);
      SignedIntIs(s'.blocks[i].Free());
      SignedIntIs(s'.blocks[b].Free());
    }
  }

  lemma FreeInRange(bs: seq<Block>, i: nat)
    requires Sound(bs) && i < |bs|
    ensures 0 <= bs[i].Free() < 0x1_0000_0000
  {
    assert bs[i].WF();
    GapAtMostFree(bs[i], 0);
  }
}
