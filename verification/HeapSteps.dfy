/** What the heap operations do to a layout, and what every step keeps. */
module HeapSteps {
  import opened Units
  import opened HeapLayout

  // ---------- changing one block, or the list of blocks ----------

  function InsertAt(b: Block, k: nat, s: Section): Block
    requires k <= |b.secs|
  {
    b.(secs := b.secs[..k] + [s] + b.secs[k..])
  }

  function RemoveAt(b: Block, k: nat): Block
    requires k < |b.secs|
  {
    b.(secs := b.secs[..k] + b.secs[k + 1..])
  }

  /** The section kmalloc writes into a gap: at its very start. */
  function NewSection(b: Block, k: nat, req: nat): Section
    requires k <= |b.secs|
  {
    Section(b.GapStart(k), req + PAD, req)
  }

  function PlaceAt(bs: seq<Block>, i: nat, k: nat, req: nat): seq<Block>
    requires i < |bs| && k <= |bs[i].secs|
  {
    bs[i := InsertAt(bs[i], k, NewSection(bs[i], k, req))]
  }

  /** A section leaves; a block it leaves empty goes too. */
  function FreeAt(bs: seq<Block>, i: nat, k: nat): seq<Block>
    requires i < |bs| && k < |bs[i].secs|
  {
    if |bs[i].secs| == 1 then bs[..i] + bs[i + 1..] else bs[i := RemoveAt(bs[i], k)]
  }

  // ---------- soundness ----------

  lemma ReplaceSound(bs: seq<Block>, i: nat, b: Block)
    requires Sound(bs) && i < |bs| && b.WF() && b.addr == bs[i].addr && b.pages == bs[i].pages
    ensures Sound(bs[i := b])
  {
    var bs' := bs[i := b];
    forall j, l | 0 <= j < l < |bs'| ensures Apart(bs'[j], bs'[l]) {
      assert Apart(bs[j], bs[l]);
    }
  }

  lemma InsertInside(b: Block, k: nat, req: nat, i: nat)
    requires b.WF() && k <= |b.secs| && b.Gap(k) >= req + PAD + MINOR && i <= |b.secs|
    ensures InsertAt(b, k, NewSection(b, k, req)).SectionIn(i)
  {
    GapOrdered(b, k);
    if i < k { assert b.SectionIn(i); } else if i > k { assert b.SectionIn(i - 1); }
  }

  lemma InsertOrdered(b: Block, k: nat, req: nat, i: nat, j: nat)
    requires b.WF() && k <= |b.secs| && b.Gap(k) >= req + PAD + MINOR && i < j <= |b.secs|
    ensures var b' := InsertAt(b, k, NewSection(b, k, req)); b'.secs[i].End() <= b'.secs[j].addr
  {
    if j == k {
      assert b.secs[i].End() <= b.secs[k - 1].End() by {
        if i < k - 1 { assert b.secs[i].End() <= b.secs[k - 1].addr; }
      }
    } else if i == k {
      if k < j - 1 { assert b.secs[k].End() <= b.secs[j - 1].addr; }
    } else {
      assert b.secs[if i < k then i else i - 1].End() <= b.secs[if j < k then j else j - 1].addr;
    }
  }

  lemma InsertWF(b: Block, k: nat, req: nat)
    requires b.WF() && k <= |b.secs| && b.Gap(k) >= req + PAD + MINOR
    ensures InsertAt(b, k, NewSection(b, k, req)).WF()
  {
    var b' := InsertAt(b, k, NewSection(b, k, req));
    forall i | 0 <= i < |b'.secs| ensures b'.SectionIn(i) {
      InsertInside(b, k, req, i);
    }
    forall i, j | 0 <= i < j < |b'.secs| ensures b'.secs[i].End() <= b'.secs[j].addr {
      InsertOrdered(b, k, req, i, j);
    }
  }

  lemma RemoveWF(b: Block, k: nat)
    requires b.WF() && k < |b.secs|
    ensures RemoveAt(b, k).WF()
  {
    var b' := RemoveAt(b, k);
    forall i | 0 <= i < |b'.secs| ensures b'.SectionIn(i) {
      assert b.SectionIn(if i < k then i else i + 1);
    }
  }

  lemma PlaceSound(bs: seq<Block>, i: nat, k: nat, req: nat)
    requires Sound(bs) && i < |bs| && k <= |bs[i].secs| && bs[i].Gap(k) >= req + PAD + MINOR
    ensures Sound(PlaceAt(bs, i, k, req))
  {
    InsertWF(bs[i], k, req);
    ReplaceSound(bs, i, InsertAt(bs[i], k, NewSection(bs[i], k, req)));
  }

  lemma DropSound(bs: seq<Block>, i: nat)
    requires Sound(bs) && i < |bs|
    ensures Sound(bs[..i] + bs[i + 1..])
  {
    var bs' := bs[..i] + bs[i + 1..];
    forall j, l | 0 <= j < l < |bs'| ensures Apart(bs'[j], bs'[l]) {
      assert Apart(bs[if j < i then j else j + 1], bs[if l < i then l else l + 1]);
    }
  }

  lemma FreeSound(bs: seq<Block>, i: nat, k: nat)
    requires Sound(bs) && NoneEmpty(bs) && i < |bs| && k < |bs[i].secs|
    ensures Sound(FreeAt(bs, i, k)) && NoneEmpty(FreeAt(bs, i, k))
  {
    if |bs[i].secs| == 1 {
      DropSound(bs, i);
    } else {
      RemoveWF(bs[i], k);
      ReplaceSound(bs, i, RemoveAt(bs[i], k));
    }
  }

  // ---------- the totals ----------

  lemma InsertSums(b: Block, k: nat, s: Section)
    requires k <= |b.secs|
    ensures InsertAt(b, k, s).Usage() == b.Usage() + s.size + MINOR
    ensures Sizes(InsertAt(b, k, s).secs) == Sizes(b.secs) + s.size
  {
    SumsAt(b.secs, k);
    SumsConcat(b.secs[..k] + [s], b.secs[k..]);
    SumsConcat(b.secs[..k], [s]);
  }

  lemma RemoveSums(b: Block, k: nat)
    requires k < |b.secs|
    ensures RemoveAt(b, k).Usage() == b.Usage() - b.secs[k].size - MINOR
    ensures Sizes(RemoveAt(b, k).secs) == Sizes(b.secs) - b.secs[k].size
  {
    SumsAt(b.secs, k);
    assert b.secs[k..][1..] == b.secs[k + 1..];
    SumsConcat(b.secs[..k], b.secs[k + 1..]);
  }

  /** Replacing one block changes the totals by that block's share. */
  lemma ReplaceSums(bs: seq<Block>, i: nat, b: Block)
    requires i < |bs|
    ensures InUse(bs[i := b]) == InUse(bs) - Sizes(bs[i].secs) + Sizes(b.secs)
    ensures Allocated(bs[i := b]) == Allocated(bs) - bs[i].Size() + b.Size()
    ensures InUse(bs[..i] + bs[i + 1..]) == InUse(bs) - Sizes(bs[i].secs)
    ensures Allocated(bs[..i] + bs[i + 1..]) == Allocated(bs) - bs[i].Size()
  {
    assert bs == bs[..i] + ([bs[i]] + bs[i + 1..]);
    assert bs[i := b] == bs[..i] + ([b] + bs[i + 1..]);
    BlockSumsConcat(bs[..i], [bs[i]] + bs[i + 1..]);
    BlockSumsConcat([bs[i]], bs[i + 1..]);
    BlockSumsConcat(bs[..i], [b] + bs[i + 1..]);
    BlockSumsConcat([b], bs[i + 1..]);
    BlockSumsConcat(bs[..i], bs[i + 1..]);
  }

  // ---------- payloads ----------

  /** Freeing a section leaves no payload that was not there. */
  lemma FreeKeepsPayloads(bs: seq<Block>, i: nat, k: nat)
    requires i < |bs| && k < |bs[i].secs|
    ensures forall x :: Payloads(FreeAt(bs, i, k), x) ==> Payloads(bs, x)
  {
    var bs' := FreeAt(bs, i, k);
    forall x, j, l | InPayload(bs', j, l, x) ensures Payloads(bs, x) {
      var j' := if |bs[i].secs| == 1 && j >= i then j + 1 else j;
      var l' := if j' == i && l >= k then l + 1 else l;
      assert bs'[j].secs[l] == bs[j'].secs[l'];
      assert InPayload(bs, j', l', x);
    }
  }

  // ---------- the steps ----------

  /** What the allocator's callers can observe of its state, and the best-bet hint. */
  datatype State = State(blocks: seq<Block>, bet: nat)

  ghost predicate Good(s: State) {
    Sound(s.blocks) && NoneEmpty(s.blocks) && ListedOrNull(s.blocks, s.bet)
  }

  /** The position of the block at address a, or the number of blocks. */
  function IndexOf(bs: seq<Block>, a: nat): (i: nat)
    ensures i <= |bs| && (i < |bs| ==> bs[i].addr == a)
    ensures forall j :: 0 <= j < i ==> bs[j].addr != a
  {
    if bs == [] then 0 else if bs[0].addr == a then 0 else 1 + IndexOf(bs[1..], a)
  }

  /** Where the search starts: at the best bet when it has more than `need` bytes free, else at the root. */
  function Start(s: State, need: nat): nat {
    var i := IndexOf(s.blocks, s.bet);
    if i < |s.blocks| && s.blocks[i].Free() > need then i else 0
  }

  ghost predicate NoFits(bs: seq<Block>, need: nat, lo: nat, hi: nat) {
    forall j :: lo <= j < hi && j < |bs| ==> bs[j].NoFit(need)
  }

  /** Gap k of block i is the first fit, searching from `start` to the end and then from the root. */
  ghost predicate Chosen(bs: seq<Block>, start: nat, need: nat, i: nat, k: nat) {
    && i < |bs| && bs[i].FirstFit(need, k)
    && (if i >= start then NoFits(bs, need, start, i)
        else NoFits(bs, need, start, |bs|) && NoFits(bs, need, 0, i))
  }

  /** The largest request for which the 32-bit block size does not wrap. */
  const MAX_REQ: nat := W32 - PAGE - MAJOR - MINOR - PAD

  /** The page count allocate_new_page asks for; `size` is an unsigned int there. */
  function PagesFor(size: nat): nat {
    var st := (size + MAJOR + MINOR) % W32;
    var pages := if st % PAGE == 0 then st / PAGE else st / PAGE + 1;
    if pages < MIN_PAGES then MIN_PAGES else pages
  }

  /** The size field of a new major, an unsigned int. */
  function MajorSize(pages: nat): nat {
    pages * PAGE % W32
  }

  /** A new major holds the request it was asked for exactly when the request is at most MAX_REQ. */
  lemma NewMajorFits(req: nat)
    ensures MajorSize(PagesFor(req + PAD)) >= MAJOR + MINOR + req + PAD <==> req <= MAX_REQ
    ensures req <= MAX_REQ ==> PagesFor(req + PAD) * PAGE < W32
  {}

  /** The pages that liballoc_alloc returns at `page`: page-aligned, in the address space, and apart
      from every block the heap still holds. */
  ghost predicate FreshPages(bs: seq<Block>, page: nat, pages: nat) {
    && page > 0 && page % PAGE == 0 && page + pages * PAGE <= W64
    && forall i :: 0 <= i < |bs| ==> Apart(bs[i], Block(page, pages, []))
  }

  function NewBlock(page: nat, req: nat): Block {
    Block(page, PagesFor(req + PAD), [Section(page + MAJOR, req + PAD, req)])
  }

  /** The block that is made for a request holds its section exactly when the request is at most MAX_REQ; for a larger
      one the section that kmalloc puts there reaches beyond the block, or the block's size does not fit 32 bits. */
  lemma NewBlockSound(page: nat, req: nat)
    requires page > 0 && page % PAGE == 0 && page + PagesFor(req + PAD) * PAGE <= W64
    ensures NewBlock(page, req).WF() <==> req <= MAX_REQ
  {
    var b := NewBlock(page, req);
    NewMajorFits(req);
    assert b.Size() < W32 ==> b.Size() <= W32 - PAGE;
    assert b.WF() ==> b.SectionIn(0);
    if req <= MAX_REQ { assert b.SectionIn(0); }
  }

  /** Free memory of the block at address a; 0 when there is none. */
  function FreeOf(bs: seq<Block>, a: nat): int {
    var i := IndexOf(bs, a);
    if i < |bs| then bs[i].Free() else 0
  }

  /** The place of block j in the order of a search that starts at block `start` and goes on at the root. */
  function Rank(start: nat, n: nat, j: int): int {
    if j >= start then j - start else j + n
  }

  /** The best bet has more free memory than all blocks before it in the order of the search; a new block comes last. */
  ghost predicate FirstMost(s: State, now: seq<Block>, start: nat, bet: nat) {
    var n, m := |s.blocks|, IndexOf(now, bet);
    && m < |now|
    && forall j :: 0 <= j < n && (m >= n || Rank(start, n, j) < Rank(start, n, m)) ==>
         s.blocks[j].Free() < FreeOf(now, bet)
  }

  /** What kmalloc does to the hint, having looked at the blocks that `seen` allows: the new best bet has
      at least as much free memory as each of them and as the old one; it is the old one unless it has more, and then
      it is the first one looked at with as much.  `now` is the list of blocks at the end of the search. */
  ghost predicate Remembers(s: State, now: seq<Block>, bet: nat, start: nat, seen: int -> bool) {
    && (bet != s.bet ==>
          FirstMost(s, now, start, bet) && (IndexOf(now, bet) < |s.blocks| ==> seen(IndexOf(now, bet))))
    && FreeOf(now, bet) >= FreeOf(s.blocks, s.bet)
    && (bet != s.bet ==> FreeOf(now, bet) > FreeOf(s.blocks, s.bet))
    && forall j :: 0 <= j < |s.blocks| && seen(j) ==> s.blocks[j].Free() <= FreeOf(now, bet)
  }

  /** A new block is looked at as the others are only when the heap was empty, or when the last block had enough free
      memory, though in no one gap (CASE 5): behind a block with too little (CASE 1) the search goes on to placing. */
  predicate NewLookedAt(bs: seq<Block>, need: nat) {
    bs == [] || bs[|bs| - 1].Free() >= need
  }

  /** What kmalloc makes of the hint when it has appended a block. */
  ghost predicate RemembersNew(s: State, need: nat, now: seq<Block>, bet: nat) {
    && |now| > |s.blocks|
    && if NewLookedAt(s.blocks, need) then now[|s.blocks|].Free() <= FreeOf(now, bet)
       else IndexOf(now, bet) != |s.blocks|
  }

  /** kmalloc(req) returning p, when liballoc_alloc would return `page` (NULL is 0). */
  ghost predicate MallocStep(s: State, s': State, req: nat, page: nat, p: nat) {
    var bs, need, start := s.blocks, req + PAD + MINOR, Start(s, req + PAD + MINOR);
    && ListedOrNull(s'.blocks, s'.bet)
    && ((exists i, k :: Placed(s, s', req, p, i, k))
        || (NoFits(bs, need, 0, |bs|)
            && if page == 0 then
                 s'.blocks == bs && p == 0 && Remembers(s, bs, s'.bet, start, j => true)
               else
                 && s'.blocks == bs + [NewBlock(page, req)] && p == AlignUp(page + MAJOR + MINOR)
                 && Remembers(s, bs + [EmptyBlock(page, req)], s'.bet, start, j => true)
                 && RemembersNew(s, need, bs + [EmptyBlock(page, req)], s'.bet)))
  }

  /** The request went into gap k of block i, after a look at the blocks from the start of the search. */
  ghost predicate Placed(s: State, s': State, req: nat, p: nat, i: nat, k: nat) {
    var start := Start(s, req + PAD + MINOR);
    && Chosen(s.blocks, start, req + PAD + MINOR, i, k)
    && s'.blocks == PlaceAt(s.blocks, i, k, req)
    && p == NewSection(s.blocks[i], k, req).User()
    && Remembers(s, s.blocks, s'.bet, start, j => if i >= start then start <= j <= i else start <= j || j <= i)
  }

  /** p is the pointer kmalloc returned for section k of block i. */
  ghost predicate PointsTo(bs: seq<Block>, p: nat, i: int, k: int) {
    IsSection(bs, i, k) && bs[i].secs[k].User() == p
  }

  ghost predicate Live(bs: seq<Block>, p: nat) {
    exists i, k :: PointsTo(bs, p, i, k)
  }

  /** An unsigned int stored in an int. */
  function SignedInt(x: int): int {
    if x % W32 >= W32 / 2 then x % W32 - W32 else x % W32
  }

  /** What kfree makes of the hint: a released block is forgotten; otherwise the block that gained free
      memory becomes the best bet if it now has more than the best bet, compared as signed integers. */
  function FreedBet(bs: seq<Block>, bet: nat, i: nat, k: nat): nat
    requires i < |bs| && k < |bs[i].secs|
  {
    var bs' := FreeAt(bs, i, k);
    if |bs[i].secs| == 1 then (if bet == bs[i].addr then 0 else bet)
    else if bet != 0 && SignedInt(RemoveAt(bs[i], k).Free()) > SignedInt(FreeOf(bs', bet)) then bs[i].addr
    else bet
  }

  /** kfree(p) for a live pointer p. */
  ghost predicate FreeStep(s: State, s': State, p: nat) {
    && ListedOrNull(s'.blocks, s'.bet)
    && exists i, k :: Freed(s, s', p, i, k)
  }

  ghost predicate Freed(s: State, s': State, p: nat, i: nat, k: nat) {
    PointsTo(s.blocks, p, i, k) && s' == State(FreeAt(s.blocks, i, k), FreedBet(s.blocks, s.bet, i, k))
  }

  // ---------- how kmalloc's search proceeds ----------

  function EmptyBlock(page: nat, req: nat): Block {
    Block(page, PagesFor(req + PAD), [])
  }

  /** Where the search of kmalloc stands when it looks at block i: before or after the restart at the
      root, and before or after a new block was appended. */
  ghost predicate Searching(s: State, req: nat, page: nat, now: seq<Block>, i: nat, startedBet: bool, grown: bool) {
    var bs, need, start := s.blocks, req + PAD + MINOR, Start(s, req + PAD + MINOR);
    && i < |now|
    && if grown then
         && page > 0 && now == bs + [EmptyBlock(page, req)] && i == |bs| && !startedBet
         && NoFits(bs, need, 0, |bs|)
       else
         && now == bs
         && if startedBet then start <= i && NoFits(bs, need, start, i)
            else NoFits(bs, need, 0, i) && (start > 0 ==> NoFits(bs, need, start, |bs|))
  }

  /** The blocks looked at before block i. */
  predicate Seen(start: nat, i: nat, startedBet: bool, j: int) {
    if startedBet then start <= j < i else j < i || 0 < start <= j
  }

  /** Block m has been looked at; or all of them have, without a fit. */
  ghost predicate LookedAt(s: State, req: nat, i: nat, startedBet: bool, m: nat) {
    var need, n := req + PAD + MINOR, |s.blocks|;
    m >= n || Seen(Start(s, need), i, startedBet, m) || NoFits(s.blocks, need, 0, n)
  }

  /** The hint and its size, when the blocks before block i have been looked at. */
  ghost predicate Hint(s: State, req: nat, now: seq<Block>, i: nat, startedBet: bool, bet: nat, bestSize: int) {
    && bestSize == FreeOf(now, bet) && bestSize >= FreeOf(s.blocks, s.bet)
    && (bet != s.bet ==>
          && bestSize > FreeOf(s.blocks, s.bet) && FirstMost(s, now, Start(s, req + PAD + MINOR), bet)
          && LookedAt(s, req, i, startedBet, IndexOf(now, bet)))
    && (forall j :: 0 <= j < |s.blocks| && Seen(Start(s, req + PAD + MINOR), i, startedBet, j) ==>
          s.blocks[j].Free() <= bestSize)
    && NewHint(s, req, now, i, bet, bestSize)
  }

  ghost predicate NewHint(s: State, req: nat, now: seq<Block>, i: nat, bet: nat, bestSize: int) {
    var n, looked := |s.blocks|, i > |s.blocks| && NewLookedAt(s.blocks, req + PAD + MINOR);
    |now| > n ==> (looked ==> now[n].Free() <= bestSize) && (IndexOf(now, bet) == n ==> looked)
  }

  /** Every block before block i in the order of the search has been looked at. */
  lemma EarlierSeen(s: State, req: nat, page: nat, now: seq<Block>, i: nat, startedBet: bool, grown: bool, j: nat)
    requires Searching(s, req, page, now, i, startedBet, grown) && j < |s.blocks|
    requires i >= |s.blocks| || Rank(Start(s, req + PAD + MINOR), |s.blocks|, j)
                                < Rank(Start(s, req + PAD + MINOR), |s.blocks|, i)
    ensures Seen(Start(s, req + PAD + MINOR), i, startedBet, j)
  {}

  /** Block i is looked at, and offers more than the hint. */
  lemma HintRises(s: State, req: nat, page: nat, now: seq<Block>, i: nat, startedBet: bool, grown: bool, bet: nat,
                  bestSize: int)
    requires Searching(s, req, page, now, i, startedBet, grown) && Hint(s, req, now, i, startedBet, bet, bestSize)
    requires IndexOf(now, now[i].addr) == i && bestSize < now[i].Free()
    requires grown ==> NewLookedAt(s.blocks, req + PAD + MINOR)
    ensures Hint(s, req, now, i + 1, startedBet, now[i].addr, now[i].Free())
  {
    forall j: nat | j < |s.blocks| && (i >= |s.blocks| || Rank(Start(s, req + PAD + MINOR), |s.blocks|, j)
                                                   < Rank(Start(s, req + PAD + MINOR), |s.blocks|, i))
      ensures s.blocks[j].Free() < now[i].Free()
    {
      EarlierSeen(s, req, page, now, i, startedBet, grown, j);
    }
  }

  /** Block i is looked at, and does not. */
  lemma HintStays(s: State, req: nat, page: nat, now: seq<Block>, i: nat, startedBet: bool, grown: bool, bet: nat,
                  bestSize: int)
    requires Searching(s, req, page, now, i, startedBet, grown) && Hint(s, req, now, i, startedBet, bet, bestSize)
    requires bestSize >= now[i].Free()
    ensures Hint(s, req, now, i + 1, startedBet, bet, bestSize)
  {}

  /** Block i holds no fit: the search moves on, restarts at the root, or has seen every block. */
  lemma SearchMovesOn(s: State, req: nat, page: nat, now: seq<Block>, i: nat, startedBet: bool)
    requires Searching(s, req, page, now, i, startedBet, false) && now[i].NoFit(req + PAD + MINOR)
    ensures i + 1 < |now| ==> Searching(s, req, page, now, i + 1, startedBet, false)
    ensures i + 1 == |now| && startedBet ==> Searching(s, req, page, now, 0, false, false)
    ensures i + 1 == |now| && !startedBet ==> NoFits(s.blocks, req + PAD + MINOR, 0, |s.blocks|)
    ensures i + 1 == |now| && !startedBet && page > 0 ==>
              Searching(s, req, page, now + [EmptyBlock(page, req)], i + 1, false, true)
  {}

  lemma HintMovesOn(s: State, req: nat, page: nat, now: seq<Block>, i: nat, startedBet: bool, bet: nat, bestSize: int)
    requires Searching(s, req, page, now, i, startedBet, false)
    requires Hint(s, req, now, i + 1, startedBet, bet, bestSize) && now[i].NoFit(req + PAD + MINOR)
    ensures i + 1 == |now| && startedBet ==> Hint(s, req, now, 0, false, bet, bestSize)
    ensures i + 1 == |now| && !startedBet ==> Remembers(s, now, bet, Start(s, req + PAD + MINOR), j => true)
    ensures i + 1 == |now| && !startedBet && page > 0 && ListedOrNull(now, bet) ==>
              Hint(s, req, now + [EmptyBlock(page, req)], i + 1, false, bet, bestSize)
  {
    if i + 1 == |now| && !startedBet && page > 0 && ListedOrNull(now, bet) {
      HintGrows(s, req, page, now, i + 1, bet, bestSize);
    }
  }

  /** A block that is appended is not the best bet, and comes last. */
  lemma HintGrows(s: State, req: nat, page: nat, now: seq<Block>, i: nat, bet: nat, bestSize: int)
    requires Hint(s, req, now, i, false, bet, bestSize) && now == s.blocks && i == |now|
    requires page > 0 && ListedOrNull(now, bet)
    ensures Hint(s, req, now + [EmptyBlock(page, req)], i, false, bet, bestSize)
  {
    FreeOfAppended(now, EmptyBlock(page, req), bet);
  }

  /** Appending a block does not change what is known of another. */
  lemma {:induction false} FreeOfAppended(bs: seq<Block>, b: Block, a: nat)
    ensures IndexOf(bs, a) < |bs| ==> IndexOf(bs + [b], a) == IndexOf(bs, a)
    ensures IndexOf(bs, a) == |bs| ==> IndexOf(bs + [b], a) == if b.addr == a then |bs| else |bs| + 1
    ensures IndexOf(bs, a) < |bs| || b.addr != a ==> FreeOf(bs + [b], a) == FreeOf(bs, a)
  {
    if bs == [] {
      assert bs + [b] == [b];
    } else {
      assert (bs + [b])[1..] == bs[1..] + [b];
      FreeOfAppended(bs[1..], b, a);
    }
  }

  lemma IndexFound(bs: seq<Block>, a: nat, i: nat)
    requires i < |bs| && bs[i].addr == a && forall j :: 0 <= j < |bs| && j != i ==> bs[j].addr != a
    ensures IndexOf(bs, a) == i
  {}

  /** The search ends where the specification says. */
  lemma SearchEnds(s: State, s': State, req: nat, page: nat, now: seq<Block>, i: nat, startedBet: bool, grown: bool,
                   k: nat, p: nat, bestSize: int)
    requires Searching(s, req, page, now, i, startedBet, grown)
    requires now[i].FirstFit(req + PAD + MINOR, k)
    requires s'.blocks == PlaceAt(now, i, k, req) && p == NewSection(now[i], k, req).User()
    requires ListedOrNull(s'.blocks, s'.bet) && NoneEmpty(s.blocks)
    requires Hint(s, req, now, i + 1, startedBet, s'.bet, bestSize)
    ensures MallocStep(s, s', req, page, p) && NoneEmpty(s'.blocks)
  {
    if grown {
      assert InsertAt(now[i], 0, NewSection(now[i], 0, req)).secs == NewBlock(page, req).secs;
      assert PlaceAt(now, i, 0, req) == s.blocks + [NewBlock(page, req)];
    } else {
      HintIsRight(s, req, page, i, startedBet, k, s'.bet, bestSize);
      assert Placed(s, s', req, p, i, k);
    }
  }

  /** The hint when the search ends at block i: the blocks looked at are those from the start of the search. */
  lemma HintIsRight(s: State, req: nat, page: nat, i: nat, startedBet: bool, k: nat, bet: nat, bestSize: int)
    requires Searching(s, req, page, s.blocks, i, startedBet, false) && s.blocks[i].FirstFit(req + PAD + MINOR, k)
    requires Hint(s, req, s.blocks, i + 1, startedBet, bet, bestSize)
    ensures var start := Start(s, req + PAD + MINOR);
            Remembers(s, s.blocks, bet, start, j => if i >= start then start <= j <= i else start <= j || j <= i)
  {
    assert s.blocks[i].Gap(k) >= req + PAD + MINOR;
    assert !s.blocks[i].NoFit(req + PAD + MINOR);
  }

  /** The payloads the search started with are still there. */
  lemma SearchKeepsPayloads(s: State, req: nat, page: nat, now: seq<Block>, i: nat, startedBet: bool, grown: bool)
    requires Searching(s, req, page, now, i, startedBet, grown)
    ensures forall x :: Payloads(s.blocks, x) ==> Payloads(now, x)
  {
    forall x, j, l | InPayload(s.blocks, j, l, x) ensures Payloads(now, x) {
      assert InPayload(now, j, l, x);
    }
  }

  /** A block with too little free memory has no gap that fits. */
  lemma TooLittleFree(b: Block, need: nat)
    requires b.WF() && b.Size() - b.Usage() < need
    ensures b.NoFit(need)
  {
    forall k | 0 <= k <= |b.secs| ensures b.Gap(k) < need {
      GapAtMostFree(b, k);
    }
  }

  /** A new block is sound, and fits the request it was made for. */
  lemma EmptyBlockFits(bs: seq<Block>, page: nat, req: nat)
    requires Sound(bs) && req <= MAX_REQ && FreshPages(bs, page, PagesFor(req + PAD))
    ensures Sound(bs + [EmptyBlock(page, req)])
    ensures var b := EmptyBlock(page, req);
            && b.Size() < W32 && MajorSize(b.pages) == b.Size()
            && b.Size() - b.Usage() >= req + PAD + MINOR && b.FirstFit(req + PAD + MINOR, 0)
  {
    NewMajorFits(req);
    var bs', b := bs + [EmptyBlock(page, req)], EmptyBlock(page, req);
    forall i, j | 0 <= i < j < |bs'| ensures Apart(bs'[i], bs'[j]) {
      if j < |bs| { assert Apart(bs[i], bs[j]); }
    }
  }

  // ---------- krealloc ----------

  /** krealloc returns, or it copies to address 0 and the page-fault handler stops the kernel. */
  datatype Outcome = Returned(ptr: nat) | PageFault

  function ShrinkAt(bs: seq<Block>, i: nat, k: nat, size: nat): seq<Block>
    requires i < |bs| && k < |bs[i].secs|
  {
    bs[i := bs[i].(secs := bs[i].secs[k := bs[i].secs[k].(req := size)])]
  }

  /** krealloc(p, size) for the pointer p of section k of block i, with size > 0: a smaller size is only
      noted; otherwise the section moves, and when there is no memory to move it to, the copy faults
      (an empty section is simply freed). */
  ghost predicate ReallocStep(s: State, s': State, p: nat, i: nat, k: nat, size: nat, page: nat, r: Outcome)
    requires PointsTo(s.blocks, p, i, k)
  {
    var req := s.blocks[i].secs[k].req;
    if size <= req then
      r == Returned(p) && s' == State(ShrinkAt(s.blocks, i, k, size), s.bet)
    else
      exists mid, q :: Moved(s, mid, s', p, req, size, page, q, r)
  }

  ghost predicate Moved(s: State, mid: State, s': State, p: nat, req: nat, size: nat, page: nat, q: nat, r: Outcome) {
    && MallocStep(s, mid, size, page, q)
    && if q == 0 && req > 0 then r == PageFault
       else r == Returned(q) && FreeStep(mid, s', p)
  }

  lemma ShrinkSound(bs: seq<Block>, i: nat, k: nat, size: nat)
    requires Sound(bs) && IsSection(bs, i, k) && size <= bs[i].secs[k].req
    ensures Sound(ShrinkAt(bs, i, k, size)) && |ShrinkAt(bs, i, k, size)| == |bs|
    ensures forall j :: 0 <= j < |bs| ==> var b, b' := bs[j], ShrinkAt(bs, i, k, size)[j];
              b'.addr == b.addr && b'.pages == b.pages && |b'.secs| == |b.secs|
    ensures forall j, l :: IsSection(bs, j, l) ==> var t, t' := bs[j].secs[l], ShrinkAt(bs, i, k, size)[j].secs[l];
              t'.addr == t.addr && t'.size == t.size && t'.req == if j == i && l == k then size else t.req
  {
    var b, b' := bs[i], bs[i].(secs := bs[i].secs[k := bs[i].secs[k].(req := size)]);
    assert b.WF();
    forall l | 0 <= l < |b'.secs| ensures b'.SectionIn(l) { assert b.SectionIn(l); }
    ReplaceSound(bs, i, b');
  }

  lemma {:induction false} ShrinkSums(secs: seq<Section>, k: nat, size: nat)
    requires k < |secs|
    ensures Used(secs[k := secs[k].(req := size)]) == Used(secs)
            && Sizes(secs[k := secs[k].(req := size)]) == Sizes(secs)
  {
    var secs' := secs[k := secs[k].(req := size)];
    if k == 0 {
      assert secs'[1..] == secs[1..];
    } else {
      assert secs'[1..] == secs[1..][k - 1 := secs[k].(req := size)];
      ShrinkSums(secs[1..], k - 1, size);
    }
  }

  // ---------- sections before and after a step ----------

  /** Live pointers of different sections differ. */
  lemma UserPointersDiffer(bs: seq<Block>, i: int, k: int, j: int, l: int)
    requires Sound(bs) && IsSection(bs, i, k) && IsSection(bs, j, l) && (i, k) != (j, l)
    ensures bs[i].secs[k].User() != bs[j].secs[l].User()
  {
    SectionInBlock(bs, i, k);
    SectionInBlock(bs, j, l);
    SectionsDisjoint(bs, i, k, j, l);
  }

  /** Section (i, k) is new in bs'; every other section of bs' stands in bs, at the same place or, in the
      same block behind the new one, one position before it; and every section of bs stands in bs'. */
  ghost predicate AddsSection(bs: seq<Block>, bs': seq<Block>, i: nat, k: nat) {
    && IsSection(bs', i, k)
    && (forall j, l :: IsSection(bs, j, l) ==> SameSection(bs, j, l, bs', j, if j == i && l >= k then l + 1 else l))
    && (forall j, l :: IsSection(bs', j, l) && (j, l) != (i, k) ==>
          SameSection(bs', j, l, bs, j, if j == i && l > k then l - 1 else l))
  }

  ghost predicate SameSection(bs: seq<Block>, j: int, l: int, bs': seq<Block>, j': int, l': int) {
    IsSection(bs, j, l) && IsSection(bs', j', l') && bs'[j'].secs[l'] == bs[j].secs[l]
  }

  lemma PlaceAdds(bs: seq<Block>, i: nat, k: nat, req: nat)
    requires i < |bs| && k <= |bs[i].secs|
    ensures AddsSection(bs, PlaceAt(bs, i, k, req), i, k)
    ensures PlaceAt(bs, i, k, req)[i].secs[k] == NewSection(bs[i], k, req)
  {}

  lemma AppendAdds(bs: seq<Block>, b: Block)
    requires |b.secs| == 1
    ensures AddsSection(bs, bs + [b], |bs|, 0)
  {}

  /** A successful kmalloc adds one section, the one its result points to. */
  lemma MallocAdds(s: State, s': State, req: nat, page: nat, p: nat) returns (i: nat, k: nat)
    requires MallocStep(s, s', req, page, p) && p != 0
    ensures AddsSection(s.blocks, s'.blocks, i, k) && PointsTo(s'.blocks, p, i, k)
    ensures s'.blocks[i].secs[k].req == req && s'.blocks[i].secs[k].size == req + PAD
  {
    if j, l :| Placed(s, s', req, p, j, l) {
      i, k := j, l;
      PlaceAdds(s.blocks, i, k, req);
    } else {
      i, k := |s.blocks|, 0;
      AppendAdds(s.blocks, NewBlock(page, req));
    }
  }

  /** A free keeps every other section. */
  lemma FreeKeepsSection(bs: seq<Block>, i: nat, k: nat, j: int, l: int) returns (j': int, l': int)
    requires IsSection(bs, i, k) && IsSection(bs, j, l) && (i, k) != (j, l)
    ensures IsSection(FreeAt(bs, i, k), j', l') && FreeAt(bs, i, k)[j'].secs[l'] == bs[j].secs[l]
  {
    j' := if |bs[i].secs| == 1 && j > i then j - 1 else j;
    l' := if j == i && l > k then l - 1 else l;
  }

  /** Every section after a free was there before. */
  lemma FreeAddsNone(bs: seq<Block>, i: nat, k: nat, j: int, l: int) returns (j': int, l': int)
    requires IsSection(bs, i, k) && IsSection(FreeAt(bs, i, k), j, l)
    ensures IsSection(bs, j', l') && (j', l') != (i, k) && FreeAt(bs, i, k)[j].secs[l] == bs[j'].secs[l']
  {
    j' := if |bs[i].secs| == 1 && j >= i then j + 1 else j;
    l' := if j' == i && l >= k then l + 1 else l;
  }
}
