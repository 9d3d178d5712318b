/** The frames of a run of pages that are mapped one after the other: each page gets the lowest free frame, the tables
    that it misses get the next ones, and the frame that it mapped before is released. */
module FrameRuns {
  import opened Units
  import opened PageEntry
  import opened FreeFrames
  import opened SpaceChanges

  /** A page before its turn: how many tables it misses, and its entry. */
  datatype Page = Page(need: nat, entry: nat)

  /** The free frames at the start, and the pages. */
  datatype Plan = Plan(frames: seq<bool>, pages: seq<Page>)

  /** The address of the lowest free frame; 0 if there is none. */
  function LowestAddress(frames: seq<bool>): nat {
    if Lowest(frames) < 0 then 0 else Lowest(frames) * PAGE
  }

  /** The address of the frame that is handed out after k others. */
  function FrameAt(frames: seq<bool>, k: nat): nat {
    LowestAddress(Take(frames, k))
  }

  /** The frames that are handed out before the k-th page gets its own: one for each earlier page, and those for the
      tables that these miss. */
  function Position(pages: seq<Page>, k: nat): (n: nat)
    requires k <= |pages|
    ensures n >= k
  {
    if k == 0 then 0 else Position(pages, k - 1) + 1 + pages[k - 1].need
  }

  lemma {:induction false} PositionGrows(pages: seq<Page>, j: nat, k: nat)
    requires j < k <= |pages|
    ensures Position(pages, j + 1) <= Position(pages, k)
  {
    if j + 1 < k { PositionGrows(pages, j, k - 1); }
  }

  /** The position counts the pages when no table is missing. */
  lemma {:induction false} PositionIsCount(pages: seq<Page>, n: nat, k: nat)
    requires k <= n <= |pages| && Position(pages, n) == n
    ensures Position(pages, k) == k
    decreases n - k
  {
    if k < n { PositionIsCount(pages, n, k + 1); }
  }

  lemma {:induction false} NeedsNothing(pages: seq<Page>, n: nat)
    requires n <= |pages| && forall k: nat :: k < n ==> pages[k].need == 0
    ensures Position(pages, n) == n
  {
    if n > 0 { NeedsNothing(pages, n - 1); }
  }

  /** The number of the frame that the k-th page is to get, or -1. */
  function Number(p: Plan, k: nat): int
    requires k <= |p.pages|
  {
    Nth(p.frames, Position(p.pages, k))
  }

  /** Its address. */
  function PageFrame(p: Plan, k: nat): nat
    requires k <= |p.pages|
  {
    FrameAt(p.frames, Position(p.pages, k))
  }

  /** The k-th page is unmapped, or already maps the frame it is to get. */
  predicate Suits(p: Plan, k: nat)
    requires k < |p.pages|
  {
    !Displaces(p.pages[k].entry, PageFrame(p, k))
  }

  ghost predicate Clean(p: Plan, n: nat)
    requires n <= |p.pages|
  {
    forall k: nat {:trigger Suits(p, k)} :: k < n ==> Suits(p, k)
  }

  // ---------- one page after the other ----------

  /** The frames once one page has had its turn. */
  function PageTaken(frames: seq<bool>, page: Page): (r: seq<bool>)
    ensures |r| == |frames|
  {
    if Displaces(page.entry, LowestAddress(frames)) then AfterRelease(Take(frames, 1), FrameOf(page.entry))
    else Take(frames, 1 + page.need)
  }

  /** The frames after the turns of i pages. */
  function RunFrames(p: Plan, i: nat): (r: seq<bool>)
    requires i <= |p.pages|
    ensures |r| == |p.frames|
  {
    if i == 0 then p.frames else PageTaken(RunFrames(p, i - 1), p.pages[i - 1])
  }

  /** The entries those pages have then. */
  function RunRaws(p: Plan, flags: nat, i: nat): (r: seq<nat>)
    requires i <= |p.pages|
    ensures |r| == i
    ensures forall k: nat {:trigger r[k]} :: k < i ==>
              r[k] == MakeEntry(LowestAddress(RunFrames(p, k)), LeafFlags(flags))
  {
    if i == 0 then []
    else RunRaws(p, flags, i - 1) + [MakeEntry(LowestAddress(RunFrames(p, i - 1)), LeafFlags(flags))]
  }

  /** There are frames for a page and its tables, and a frame that it displaces is in use. */
  ghost predicate Fits(frames: seq<bool>, page: Page) {
    && page.need < FreeCount(frames)
    && (Displaces(page.entry, LowestAddress(frames)) ==> InUse(Take(frames, 1), FrameOf(page.entry)))
  }

  /** The k-th page does not panic when its turn comes. */
  ghost predicate PageFits(p: Plan, k: nat)
    requires k < |p.pages|
  {
    Fits(RunFrames(p, k), p.pages[k])
  }

  ghost predicate Smooth(p: Plan, n: nat)
    requires n <= |p.pages|
  {
    forall k: nat {:trigger PageFits(p, k)} :: k < n ==> PageFits(p, k)
  }

  lemma OneMoreFits(p: Plan, n: nat)
    requires n < |p.pages|
    ensures Smooth(p, n + 1) <==> Smooth(p, n) && PageFits(p, n)
  {
    if Smooth(p, n) && PageFits(p, n) {
      forall k: nat | k < n + 1 ensures PageFits(p, k) {}
    }
  }

  lemma FitsHasFrame(p: Plan, k: nat)
    requires k < |p.pages| && PageFits(p, k)
    ensures Lowest(RunFrames(p, k)) >= 0
  {
    CountZero(RunFrames(p, k));
  }

  lemma SmoothUpTo(p: Plan, n: nat, k: nat)
    requires n <= |p.pages| && k < |p.pages| && !PageFits(p, k)
    ensures Smooth(p, n) ==> n <= k
  {}

  /** The run gets to the k-th page, with a frame for it. */
  ghost predicate Reached(p: Plan, k: nat)
    requires k < |p.pages|
  {
    Smooth(p, k) && Lowest(RunFrames(p, k)) >= 0
  }

  // ---------- the tables of a run ----------

  /** At the turn of the k-th page the frame at `address` is taken for a table. */
  ghost predicate TableAt(p: Plan, k: nat, address: nat)
    requires k < |p.pages|
  {
    !InUse(Take(RunFrames(p, k), 1), address) && InUse(RunFrames(p, k + 1), address)
  }

  ghost predicate GotTable(p: Plan, i: nat, address: nat)
    requires i <= |p.pages|
  {
    exists k: nat {:trigger TableAt(p, k, address)} :: k < i && TableAt(p, k, address)
  }

  /** None of the first i pages has got a frame that was then taken for a table. */
  ghost predicate KeptAt(p: Plan, i: nat)
    requires i <= |p.pages|
  {
    forall k: nat {:trigger RunFrames(p, k)} :: k < i ==> !GotTable(p, i, LowestAddress(RunFrames(p, k)))
  }

  /** If the frames run out, the pages mapped till then still hold their own frames, and no tables. */
  ghost predicate RunKept(p: Plan) {
    forall i: nat {:trigger KeptAt(p, i)} ::
      i < |p.pages| && Smooth(p, i) && Lowest(RunFrames(p, i)) < 0 ==> KeptAt(p, i)
  }

  /** Where no page misses a table none is taken. */
  lemma LeafTablesKept(p: Plan)
    requires forall k: nat :: k < |p.pages| ==> p.pages[k].need == 0
    ensures RunKept(p)
    ensures forall i: nat, address: nat :: i <= |p.pages| ==> !GotTable(p, i, address)
  {
    forall k: nat, address: nat | k < |p.pages| ensures !TableAt(p, k, address) {
      TakesNoTable(RunFrames(p, k), p.pages[k], address);
    }
  }

  lemma TakesNoTable(frames: seq<bool>, page: Page, address: nat)
    requires page.need == 0
    ensures InUse(PageTaken(frames, page), address) ==> InUse(Take(frames, 1), address)
  {}

  // ---------- a clean run ----------

  /** The entries of a run that gets the lowest free frames. */
  function RunEntries(p: Plan, flags: nat, n: nat): (r: seq<nat>)
    requires n <= |p.pages|
    ensures |r| == n && forall k: nat :: k < n ==> r[k] == MakeEntry(PageFrame(p, k), LeafFlags(flags))
  {
    if n == 0 then [] else RunEntries(p, flags, n - 1) + [MakeEntry(PageFrame(p, n - 1), LeafFlags(flags))]
  }

  lemma CleanPrefix(p: Plan, i: nat, n: nat)
    requires i <= n <= |p.pages| && Clean(p, n)
    ensures Clean(p, i)
  {}

  lemma CleanSplit(p: Plan, n: nat)
    requires n < |p.pages|
    ensures Clean(p, n + 1) <==> Clean(p, n) && Suits(p, n)
  {
    if Clean(p, n) && Suits(p, n) {
      forall k: nat | k < n + 1 ensures Suits(p, k) {}
    }
  }

  /** A page that gets its turn after n frames have been handed out, and displaces none. */
  lemma PageClean(frames: seq<bool>, n: nat, page: Page)
    requires !Displaces(page.entry, FrameAt(frames, n))
    ensures PageTaken(Take(frames, n), page) == Take(frames, n + 1 + page.need)
    ensures Fits(Take(frames, n), page) <==> n + 1 + page.need <= FreeCount(frames)
  {
    TakeCount(frames, n);
    TakeTake(frames, n, 1 + page.need);
  }

  lemma CleanPage(p: Plan, k: nat)
    requires k < |p.pages| && Suits(p, k) && RunFrames(p, k) == Take(p.frames, Position(p.pages, k))
    ensures RunFrames(p, k + 1) == Take(p.frames, Position(p.pages, k + 1))
    ensures PageFits(p, k) <==> Position(p.pages, k + 1) <= FreeCount(p.frames)
  {
    PageClean(p.frames, Position(p.pages, k), p.pages[k]);
  }

  /** A clean run takes the lowest free frames, one after the other. */
  lemma {:induction false} CleanFrames(p: Plan, n: nat)
    requires n <= |p.pages| && Clean(p, n)
    ensures RunFrames(p, n) == Take(p.frames, Position(p.pages, n))
  {
    if n == 0 {
      assert Take(p.frames, 0) == p.frames;
    } else {
      CleanSplit(p, n - 1);
      CleanFrames(p, n - 1);
      CleanPage(p, n - 1);
    }
  }

  lemma CleanSmooth(p: Plan, n: nat)
    requires n <= |p.pages| && Clean(p, n) && Position(p.pages, n) <= FreeCount(p.frames)
    ensures Smooth(p, n)
  {
    forall k: nat | k < n ensures PageFits(p, k) {
      CleanPrefix(p, k, n);
      CleanFrames(p, k);
      assert Suits(p, k);
      CleanPage(p, k);
      PositionGrows(p.pages, k, n);
    }
  }

  lemma CleanRaws(p: Plan, flags: nat, n: nat)
    requires n <= |p.pages| && Clean(p, n)
    ensures RunRaws(p, flags, n) == RunEntries(p, flags, n)
  {
    forall k: nat | k < n ensures RunRaws(p, flags, n)[k] == RunEntries(p, flags, n)[k] {
      CleanPrefix(p, k, n);
      CleanFrames(p, k);
    }
  }

  /** A page takes frames for itself and its tables, and gives one back if it displaces one. */
  lemma PageCounts(frames: seq<bool>, page: Page)
    requires Fits(frames, page)
    ensures FreeCount(PageTaken(frames, page))
            == FreeCount(frames) - if Displaces(page.entry, LowestAddress(frames)) then 0 else 1 + page.need
  {
    TakeCount(frames, 1);
    TakeCount(frames, 1 + page.need);
    if Displaces(page.entry, LowestAddress(frames)) {
      CountUpdate(Take(frames, 1), FrameOf(page.entry) / PAGE, false);
    }
  }

  /** A run that is not clean leaves more frames free than it should: each page that does not suit puts one back. */
  lemma {:induction false} UncleanCount(p: Plan, n: nat)
    requires n <= |p.pages| && Smooth(p, n)
    ensures FreeCount(RunFrames(p, n)) + Position(p.pages, n) >= FreeCount(p.frames)
    ensures !Clean(p, n) ==> FreeCount(RunFrames(p, n)) + Position(p.pages, n) > FreeCount(p.frames)
  {
    if n > 0 {
      OneMoreFits(p, n - 1);
      UncleanCount(p, n - 1);
      PageCounts(RunFrames(p, n - 1), p.pages[n - 1]);
      CleanSplit(p, n - 1);
      if Clean(p, n - 1) { CleanFrames(p, n - 1); }
    }
  }

  lemma TakenThen(frames: seq<bool>, i: nat, k: nat)
    requires i < k && i < FreeCount(frames)
    ensures InUse(Take(frames, k), FrameAt(frames, i))
  {
    TakeCount(frames, i);
    TakeBit(frames, k, Nth(frames, i));
  }

  lemma NotTakenYet(frames: seq<bool>, i: nat, k: nat)
    requires i <= k < FreeCount(frames)
    ensures !InUse(Take(frames, i), FrameAt(frames, k))
  {
    TakeCount(frames, k);
    TakeBit(frames, i, Nth(frames, k));
    TakeBit(frames, k, Nth(frames, k));
  }

  /** The frame that is handed out after i others is not among those from a to b. */
  lemma NotBetween(frames: seq<bool>, a: nat, b: nat, i: nat)
    requires a <= b && i < FreeCount(frames) && !(a <= i < b)
    ensures InUse(Take(frames, b), FrameAt(frames, i)) ==> InUse(Take(frames, a), FrameAt(frames, i))
  {
    if i < a { TakenThen(frames, i, a); } else { NotTakenYet(frames, b, i); }
  }

  /** The frames before and after the tables of a page are taken. */
  lemma CleanTurn(p: Plan, n: nat, j: nat)
    requires j < n <= |p.pages| && Clean(p, n)
    ensures Take(RunFrames(p, j), 1) == Take(p.frames, Position(p.pages, j) + 1)
    ensures RunFrames(p, j + 1) == Take(p.frames, Position(p.pages, j + 1))
  {
    CleanPrefix(p, j, n);
    CleanPrefix(p, j + 1, n);
    CleanFrames(p, j);
    CleanFrames(p, j + 1);
    TakeTake(p.frames, Position(p.pages, j), 1);
  }

  /** No page gets a frame in the turn of another one. */
  lemma OtherTurn(pages: seq<Page>, j: nat, k: nat)
    requires j < |pages| && k < |pages|
    ensures !(Position(pages, j) + 1 <= Position(pages, k) < Position(pages, j + 1))
  {
    if k < j { PositionGrows(pages, k, j); }
    if j < k { PositionGrows(pages, j, k); }
  }

  lemma CleanTable(p: Plan, n: nat, j: nat, k: nat)
    requires j < n <= |p.pages| && k < n && Clean(p, n) && Position(p.pages, n) <= FreeCount(p.frames)
    ensures !TableAt(p, j, PageFrame(p, k))
  {
    CleanTurn(p, n, j);
    OtherTurn(p.pages, j, k);
    PositionGrows(p.pages, k, n);
    NotBetween(p.frames, Position(p.pages, j) + 1, Position(p.pages, j + 1), Position(p.pages, k));
  }

  /** No page of a clean run gets a frame that is taken for a table. */
  lemma CleanKept(p: Plan, n: nat, k: nat)
    requires k < n <= |p.pages| && Clean(p, n) && Position(p.pages, n) <= FreeCount(p.frames)
    ensures !GotTable(p, n, PageFrame(p, k))
  {
    forall j: nat | j < n ensures !TableAt(p, j, PageFrame(p, k)) {
      CleanTable(p, n, j, k);
    }
  }

  // ---------- the frames of the pages ----------

  /** Each page has a frame of its own, which is free before. */
  lemma PageNth(p: Plan, n: nat, k: nat)
    requires k < n <= |p.pages| && Position(p.pages, n) <= FreeCount(p.frames)
    ensures 0 <= Number(p, k) && !p.frames[Number(p, k)]
    ensures forall j: nat :: j < k ==> Number(p, j) < Number(p, k)
  {
    var pos := Position(p.pages, k);
    PositionGrows(p.pages, k, n);
    TakeCount(p.frames, pos);
    NthWasFree(p.frames, pos);
    forall j: nat | j < k ensures Number(p, j) < Number(p, k) {
      PositionGrows(p.pages, j, k);
      NthGrows(p.frames, Position(p.pages, j), pos);
    }
  }

  /** The frames of a run are distinct, were free, and are in use now; in a clean run none of them is taken for a
      table. */
  lemma RunIsFresh(p: Plan, n: nat, k: nat)
    requires k < n <= |p.pages| && Position(p.pages, n) <= FreeCount(p.frames)
    ensures !InUse(p.frames, PageFrame(p, k)) && InUse(Take(p.frames, Position(p.pages, n)), PageFrame(p, k))
    ensures forall j: nat :: j < k ==> PageFrame(p, j) < PageFrame(p, k)
    ensures Clean(p, n) ==> !GotTable(p, n, PageFrame(p, k))
  {
    PageNth(p, n, k);
    PositionGrows(p.pages, k, n);
    TakenThen(p.frames, Position(p.pages, k), Position(p.pages, n));
    forall j: nat | j < k ensures PageFrame(p, j) < PageFrame(p, k) {
      PageNth(p, n, j);
    }
    if Clean(p, n) { CleanKept(p, n, k); }
  }

  /** Frame m is handed out for one of the first i pages. */
  predicate HandedOut(p: Plan, i: nat, m: int)
    requires i <= |p.pages|
  {
    i > 0 && (Number(p, i - 1) == m || HandedOut(p, i - 1, m))
  }

  lemma {:induction false} HandedOutNth(p: Plan, i: nat, m: int)
    requires i <= |p.pages|
    ensures HandedOut(p, i, m) <==> exists j: nat {:trigger Number(p, j)} :: j < i && Number(p, j) == m
  {
    if i > 0 { HandedOutNth(p, i - 1, m); }
  }

  /** The frames once n pages and their tables have got theirs, and those of the first i pages are free again. */
  function Returned(p: Plan, n: nat, i: nat): (r: seq<bool>)
    requires i <= |p.pages| && n <= |p.pages|
    ensures |r| == |p.frames|
  {
    var taken := Take(p.frames, Position(p.pages, n));
    seq(|p.frames|, m requires 0 <= m < |p.frames| => taken[m] && !HandedOut(p, i, m))
  }

  lemma ReturnNone(p: Plan, n: nat)
    requires n <= |p.pages|
    ensures Returned(p, n, 0) == Take(p.frames, Position(p.pages, n))
  {}

  /** One more page gives its frame back, which was in use till then. */
  lemma ReturnStep(p: Plan, n: nat, i: nat)
    requires i < n <= |p.pages| && Position(p.pages, n) <= FreeCount(p.frames)
    ensures var m := Number(p, i);
            && m >= 0 && Returned(p, n, i)[m] && Returned(p, n, i + 1) == Returned(p, n, i)[m := false]
  {
    PageNth(p, n, i);
    var m: nat := Number(p, i);
    PositionGrows(p.pages, i, n);
    TakenThen(p.frames, Position(p.pages, i), Position(p.pages, n));
    HandedOutNth(p, i, m);
  }

  lemma {:induction false} ReturnCount(p: Plan, n: nat, i: nat)
    requires i <= n <= |p.pages| && Position(p.pages, n) <= FreeCount(p.frames)
    ensures FreeCount(Returned(p, n, i)) == FreeCount(p.frames) - Position(p.pages, n) + i
  {
    if i == 0 {
      ReturnNone(p, n);
      TakeCount(p.frames, Position(p.pages, n));
    } else {
      ReturnCount(p, n, i - 1);
      ReturnStep(p, n, i - 1);
      CountUpdate(Returned(p, n, i - 1), Number(p, i - 1), false);
    }
  }

  lemma StaysUsed(p: Plan, n: nat, m: nat)
    requires n <= |p.pages| && Position(p.pages, n) <= FreeCount(p.frames) && m < |p.frames| && p.frames[m]
    ensures Returned(p, n, n)[m]
  {
    TakeBit(p.frames, Position(p.pages, n), m);
    HandedOutNth(p, n, m);
    forall j: nat | j < n ensures Number(p, j) != m { PageNth(p, n, j); }
  }

  lemma StaysFree(p: Plan, n: nat, m: nat)
    requires n <= |p.pages| && Position(p.pages, n) == n <= FreeCount(p.frames) && m < |p.frames| && !p.frames[m]
    ensures !Returned(p, n, n)[m]
  {
    TakeBit(p.frames, n, m);
    HandedOutNth(p, n, m);
    forall j: nat | j < n && Nth(p.frames, j) == m ensures HandedOut(p, n, m) {
      PositionIsCount(p.pages, n, j);
      assert Number(p, j) == m;
    }
  }

  /** When all pages have given their frames back, what was used before is used; of the other frames as many are used
      as tables were missing; and where none was missing, the frames are as before. */
  lemma OnlyTablesStay(p: Plan, n: nat)
    requires n <= |p.pages| && Position(p.pages, n) <= FreeCount(p.frames)
    ensures forall m: nat :: m < |p.frames| && p.frames[m] ==> Returned(p, n, n)[m]
    ensures FreeCount(Returned(p, n, n)) == FreeCount(p.frames) - (Position(p.pages, n) - n)
    ensures Position(p.pages, n) == n ==> Returned(p, n, n) == p.frames
  {
    forall m: nat | m < |p.frames| && p.frames[m] ensures Returned(p, n, n)[m] {
      StaysUsed(p, n, m);
    }
    ReturnCount(p, n, n);
    if Position(p.pages, n) == n {
      forall m: nat | m < |p.frames| ensures Returned(p, n, n)[m] == p.frames[m] {
        if !p.frames[m] { StaysFree(p, n, m); }
      }
    }
  }

  // ---------- when the frames do not suffice ----------

  /** The free frames are enough for n pages, and not for one more. */
  ghost predicate LastsFor(p: Plan, n: nat)
    requires n < |p.pages|
  {
    Position(p.pages, n) <= FreeCount(p.frames) < Position(p.pages, n + 1)
  }

  lemma {:induction false} RunsOut(p: Plan, n: nat)
    requires n <= |p.pages| && Position(p.pages, n) > FreeCount(p.frames)
    ensures exists k: nat {:trigger LastsFor(p, k)} :: k < n && LastsFor(p, k)
  {
    if Position(p.pages, n - 1) > FreeCount(p.frames) {
      RunsOut(p, n - 1);
    } else {
      assert LastsFor(p, n - 1);
    }
  }

  /** A clean run gets to the page for which the frames do not suffice; then none is left, or too few for its tables. */
  lemma CleanStops(p: Plan, n: nat)
    requires n < |p.pages| && Clean(p, n + 1) && LastsFor(p, n)
    ensures Smooth(p, n) && !PageFits(p, n) && RunFrames(p, n) == Take(p.frames, Position(p.pages, n))
    ensures Lowest(RunFrames(p, n)) < 0 <==> Position(p.pages, n) == FreeCount(p.frames)
  {
    CleanPrefix(p, n, n + 1);
    CleanFrames(p, n);
    CleanSmooth(p, n);
    assert Suits(p, n);
    CleanPage(p, n);
    TakeCount(p.frames, Position(p.pages, n));
    CountZero(Take(p.frames, Position(p.pages, n)));
  }

  // ---------- when the run is clean ----------

  /** Each of the first n pages maps the frame at its own offset from the first, as the higher-half map does. */
  ghost predicate IdentityMapped(p: Plan, n: nat)
    requires n <= |p.pages|
  {
    forall k: nat {:trigger p.pages[k]} :: k < n ==>
      IsPresent(p.pages[k].entry) && FrameOf(p.pages[k].entry) == LowestAddress(p.frames) + k * PAGE
  }

  /** The n frames from the lowest free one are free. */
  ghost predicate Consecutive(frames: seq<bool>, n: nat) {
    && 0 <= Lowest(frames) && Lowest(frames) + n <= |frames|
    && forall m :: Lowest(frames) <= m < Lowest(frames) + n ==> !frames[m]
  }

  /** A run of consecutive frames is clean, also where pages are not mapped, unless a table is missing. */
  lemma ConsecutiveIsClean(p: Plan, n: nat)
    requires 0 < n <= |p.pages| && Position(p.pages, n) == n <= FreeCount(p.frames) && Consecutive(p.frames, n)
    requires forall k: nat {:trigger p.pages[k]} :: k < n && IsPresent(p.pages[k].entry) ==>
               FrameOf(p.pages[k].entry) == LowestAddress(p.frames) + k * PAGE
    ensures Clean(p, n)
  {
    forall k: nat | k < n ensures Suits(p, k) {
      NthOfRun(p.frames, n, k);
      PositionIsCount(p.pages, n, k);
    }
  }

  lemma CleanFrame(p: Plan, n: nat, k: nat)
    requires k < n <= |p.pages| && Position(p.pages, n) == n <= FreeCount(p.frames)
    requires IdentityMapped(p, n) && Clean(p, n)
    ensures 0 <= Lowest(p.frames) && Lowest(p.frames) + k < |p.frames| && !p.frames[Lowest(p.frames) + k]
  {
    CountZero(p.frames);
    PositionIsCount(p.pages, n, k);
    assert Suits(p, k);
    TakeCount(p.frames, k);
    NthWasFree(p.frames, k);
  }

  lemma CleanIsConsecutive(p: Plan, n: nat)
    requires 0 < n <= |p.pages| && Position(p.pages, n) == n <= FreeCount(p.frames)
    requires IdentityMapped(p, n) && Clean(p, n)
    ensures Consecutive(p.frames, n)
  {
    CleanFrame(p, n, n - 1);
    forall m | Lowest(p.frames) <= m < Lowest(p.frames) + n ensures !p.frames[m] {
      CleanFrame(p, n, m - Lowest(p.frames));
    }
  }

  /** With the higher-half map in place a run is clean exactly when the lowest free frames are consecutive. */
  lemma CleanWhenConsecutive(p: Plan, n: nat)
    requires 0 < n <= |p.pages| && Position(p.pages, n) == n <= FreeCount(p.frames) && IdentityMapped(p, n)
    ensures Clean(p, n) <==> Consecutive(p.frames, n)
  {
    if Consecutive(p.frames, n) { ConsecutiveIsClean(p, n); }
    if Clean(p, n) { CleanIsConsecutive(p, n); }
  }
}
