/** The physical memory manager: which frames are free after start-up, and handing frames out. */
module FrameAllocator {
  import opened Units
  import opened Words
  import opened Bitmaps
  import opened FreeFrames


  // ---------- round_up and round_down ----------

  /** num & ~(size - 1) */
  function RoundDown(num: nat, size: nat): nat
    requires 0 < size <= Pow2(WORD)
  {
    And(num, Not(size - 1, WORD))
  }

  /** (num + size - 1) & ~(size - 1), in 64 bits */
  function RoundUp(num: nat, size: nat): nat
    requires 0 < size <= Pow2(WORD)
  {
    And(Low(num + size - 1, WORD), Not(size - 1, WORD))
  }

  /** The mask with k low zeros. */
  lemma HighMask(k: nat, n: nat)
    requires k <= n
    ensures Pow2(k) <= Pow2(n) && Not(Pow2(k) - 1, n) == Up(Pow2(n - k) - 1, k)
  {
    Pow2AtMost(k, n);
    Pow2Add(n - k, k);
    Pow2Add(0, k);
    UpAdd(Pow2(n - k) - 1, 1, k);
  }

  lemma UpShr(num: nat, size: nat, k: nat)
    requires size == Pow2(k)
    ensures Up(Shr(num, k), k) == num / size * size
  {
    UpIsMul(Shr(num, k), k);
    ShrIsDiv(num, k);
  }

  /** Rounding to a power of two by masking. */
  lemma MaskRounds(num: nat, size: nat, k: nat, n: nat)
    requires num < Pow2(n) && k <= n && size == Pow2(k)
    ensures size <= Pow2(n) && And(num, Not(size - 1, n)) == num / size * size
  {
    HighMask(k, n);
    assert And(num, Not(size - 1, n)) == Up(Shr(num, k), k) by {
      AndHighMask(num, Pow2(n - k) - 1, k);
      ShrBound(num, n - k, k);
      AndAllOnes(Shr(num, k), n - k);
    }
    UpShr(num, size, k);
  }

  lemma RoundsToFrames(num: nat)
    requires num + PAGE < W64
    ensures PAGE <= Pow2(WORD)
    ensures RoundDown(num, PAGE) / PAGE == num / PAGE
    ensures RoundUp(num, PAGE) / PAGE == (num + PAGE - 1) / PAGE
  {
    Pow2Values();
    LowSmall(num + PAGE - 1, WORD);
    MaskRounds(num, PAGE, PAGE_BITS, WORD);
    MaskRounds(num + PAGE - 1, PAGE, PAGE_BITS, WORD);
  }

  lemma RoundsToWords(num: nat)
    requires num + 64 < W64
    ensures 64 <= Pow2(WORD)
    ensures RoundUp(num, 64) % 64 == 0 && num <= RoundUp(num, 64) < num + 64
  {
    Pow2Values();
    LowSmall(num + 63, WORD);
    assert Pow2(3) == 8;
    assert Pow2(6) == 64;
    MaskRounds(num + 63, 64, 6, WORD);
    AlignedAbove(num);
  }

  lemma AlignedAbove(num: nat)
    ensures var r := (num + 63) / 64 * 64; r % 64 == 0 && num <= r < num + 64
  {}

  // ---------- the memory map ----------

  /** An entry of the boot loader's memory map. */
  datatype Entry = Entry(base: nat, length: nat, usable: bool) {
    function End(): nat { base + length }

    /** Frame n lies in this entry, which is usable. */
    predicate HasFrame(n: int) {
      usable && base <= n * PAGE && (n + 1) * PAGE <= End()
    }

    /** Frame n is one that free_region frees for this entry. */
    predicate Frees(n: int)
      requires base + PAGE < W64 && length < W64
    {
      EntryBounds(this);
      usable && RoundUp(base, PAGE) / PAGE <= n < RoundUp(base, PAGE) / PAGE + RoundDown(length, PAGE) / PAGE
    }

    /** The entry once `bytes` at its start hold the bitmap. */
    function Carve(bytes: nat): Entry
      requires bytes <= length
    {
      Entry(base + bytes, length - bytes, usable)
    }
  }

  lemma EntryBounds(e: Entry)
    ensures PAGE <= Pow2(WORD)
  {
    Pow2Values();
  }

  /** What the boot loader guarantees: usable entries are page-aligned, disjoint, and within 64 bits. */
  ghost predicate MapOK(es: seq<Entry>) {
    && (forall i :: 0 <= i < |es| ==> es[i].End() + PAGE < W64)
    && (forall i :: 0 <= i < |es| && es[i].usable ==> es[i].base % PAGE == 0 && es[i].length % PAGE == 0)
    && (forall i, j {:trigger DisjointEntries(es[i], es[j])} :: 0 <= i < j < |es| ==> DisjointEntries(es[i], es[j]))
  }

  ghost predicate DisjointEntries(a: Entry, b: Entry) {
    a.usable && b.usable ==> a.End() <= b.base || b.End() <= a.base
  }

  /** The end of usable memory. */
  function MemEnd(es: seq<Entry>): (end: nat)
    ensures forall i :: 0 <= i < |es| && es[i].usable ==> es[i].End() <= end
    ensures end == 0 || exists i :: 0 <= i < |es| && es[i].usable && es[i].End() == end
  {
    if es == [] then 0
    else
      var n := |es| - 1;
      var end := MemEnd(es[..n]);
      if es[n].usable && es[n].End() > end then es[n].End() else end
  }

  /** Bytes of the bitmap: one bit a frame, in whole words. */
  function BitmapBytes(end: nat): nat
    requires end < W64
  {
    RoundingFits();
    RoundUp(RoundDown(end, PAGE) / PAGE, 64) / 8
  }

  lemma RoundingFits()
    ensures PAGE <= Pow2(WORD) && 64 <= Pow2(WORD)
  {
    Pow2Values();
  }

  /** The bitmap has a bit for every frame below the end of memory, and no word more than that takes. */
  lemma BitmapIsLargeEnough(end: nat)
    requires end + PAGE < W64
    ensures BitmapBytes(end) % 8 == 0 && end / 4096 <= BitmapBytes(end) * 8 < end / 4096 + 64
  {
    RoundsToFrames(end);
    RoundsToWords(end / PAGE);
    WholeWords(RoundUp(end / PAGE, 64));
  }

  lemma WholeWords(bits: nat)
    requires bits % 64 == 0
    ensures bits / 8 % 8 == 0 && bits / 8 * 8 == bits
  {
    var words := bits / 64;
    assert bits == 64 * words;
    assert bits / 8 == 8 * words;
  }

  /** What free_region frees in an entry whose first `bytes` hold the bitmap: the frames of the entry
      that start behind them, although the carved entry is no longer aligned. */
  lemma CarvedFrees(e: Entry, bytes: nat, n: int)
    requires e.usable ==> e.base % PAGE == 0 && e.length % PAGE == 0
    requires e.End() + PAGE < W64 && bytes <= e.length
    ensures e.Carve(bytes).Frees(n) <==> e.HasFrame(n) && n * PAGE >= e.base + bytes
  {
    var c := e.Carve(bytes);
    EntryBounds(c);
    RoundsToFrames(c.base);
    RoundsToFrames(c.length);
    if e.usable { FramesBehind(e.base / PAGE, e.length / PAGE, bytes, n); }
  }

  lemma FramesBehind(b: int, l: int, bytes: int, n: int)
    requires 0 <= bytes <= l * PAGE
    ensures var first, count := (b * PAGE + bytes + PAGE - 1) / PAGE, (l * PAGE - bytes) / PAGE;
            && first + count == b + l
            && (n >= first <==> n * PAGE >= b * PAGE + bytes)
            && (n < b + l <==> (n + 1) * PAGE <= b * PAGE + l * PAGE)
  {
    var c := (bytes + PAGE - 1) / PAGE;
    assert (b * PAGE + bytes + PAGE - 1) / PAGE == b + c;
    assert (l * PAGE - bytes) / PAGE == l - c;
  }

  // ---------- the manager ----------

  /** Entry c of the map is the first usable one with room for the bitmap (find_physical_entry). */
  ghost predicate HoldsBitmap(es: seq<Entry>, c: int, bytes: nat) {
    && 0 <= c < |es| && es[c].usable && es[c].length >= bytes
    && forall i :: 0 <= i < c ==> !(es[i].usable && es[i].length >= bytes)
  }

  /** Frame n is usable memory, and the bitmap's own storage does not touch it. */
  ghost predicate Available(es: seq<Entry>, c: int, bytes: nat, n: int)
    requires 0 <= c < |es|
  {
    && (exists i :: 0 <= i < |es| && es[i].HasFrame(n))
    && ((n + 1) * PAGE <= es[c].base || es[c].base + bytes <= n * PAGE)
  }

  /** The memory map after the bitmap has been carved out of entry c. */
  function Carved(es: seq<Entry>, c: nat, bytes: nat): seq<Entry>
    requires c < |es| && bytes <= es[c].length
  {
    es[c := es[c].Carve(bytes)]
  }

  /** What init frees, entry by entry, is what is available. */
  lemma FreedIsAvailable(es: seq<Entry>, c: nat, bytes: nat, n: int)
    requires MapOK(es) && HoldsBitmap(es, c, bytes)
    ensures forall i :: 0 <= i < |es| ==>
              Carved(es, c, bytes)[i].base + PAGE < W64 && Carved(es, c, bytes)[i].length < W64
    ensures Available(es, c, bytes, n) <==> exists i :: 0 <= i < |es| && Carved(es, c, bytes)[i].Frees(n)
  {
    var es' := Carved(es, c, bytes);
    forall i | 0 <= i < |es|
      ensures es'[i].base + PAGE < W64 && es'[i].length < W64
      ensures es'[i].Frees(n) <==> es[i].HasFrame(n) && ((n + 1) * PAGE <= es[c].base || es[c].base + bytes <= n * PAGE)
    {
      CarvedFrees(es[i], if i == c then bytes else 0, n);
      assert es[i].Carve(0) == es[i];
      if i < c {
        assert DisjointEntries(es[i], es[c]);
      } else if c < i {
        assert DisjointEntries(es[c], es[i]);
      }
    }
    if Available(es, c, bytes, n) {
      var i :| 0 <= i < |es| && es[i].HasFrame(n);
      assert es'[i].Frees(n);
    }
  }

  /** A frame is freed for one entry only, and is below the end of memory. */
  lemma FreedOnce(es: seq<Entry>, c: nat, bytes: nat, i: int, n: int)
    requires MapOK(es) && HoldsBitmap(es, c, bytes) && 0 <= i < |es|
    ensures Carved(es, c, bytes)[i].base + PAGE < W64 && Carved(es, c, bytes)[i].length < W64
    ensures Carved(es, c, bytes)[i].Frees(n) ==> es[i].HasFrame(n) && 0 <= n < MemEnd(es) / PAGE
    ensures Carved(es, c, bytes)[i].Frees(n) ==> forall j :: 0 <= j < |es| && j != i ==> !es[j].HasFrame(n)
  {
    CarvedFrees(es[i], if i == c then bytes else 0, n);
    assert es[i].Carve(0) == es[i];
    forall j | 0 <= j < |es| && j != i && es[i].HasFrame(n) ensures !es[j].HasFrame(n) {
      if i < j {
        assert DisjointEntries(es[i], es[j]);
      } else {
        assert DisjointEntries(es[j], es[i]);
      }
    }
  }

  ghost predicate InBounds(es: seq<Entry>) {
    forall i :: 0 <= i < |es| ==> es[i].base + PAGE < W64 && es[i].length < W64
  }

  /** The free frames are those of the first k entries. */
  ghost predicate FreedBefore(frames: seq<bool>, es: seq<Entry>, k: int)
    requires InBounds(es) && 0 <= k <= |es|
  {
    forall n :: 0 <= n < |frames| ==> (!frames[n] <==> exists j :: 0 <= j < k && es[j].Frees(n))
  }

  /** The free frames are exactly the available ones, and every available frame has a bit. */
  ghost predicate FreeExactly(frames: seq<bool>, es: seq<Entry>, c: int, bytes: nat)
    requires 0 <= c < |es|
  {
    && (forall n :: 0 <= n < |frames| ==> (!frames[n] <==> Available(es, c, bytes, n)))
    && (forall n :: Available(es, c, bytes, n) ==> 0 <= n < |frames|)
  }

  lemma CarvedBounds(es: seq<Entry>, c: nat, bytes: nat)
    requires MapOK(es) && HoldsBitmap(es, c, bytes)
    ensures InBounds(Carved(es, c, bytes))
  {
    FreedIsAvailable(es, c, bytes, 0);
  }

  lemma FreedSummary(es: seq<Entry>, c: nat, bytes: nat, es': seq<Entry>, frames: seq<bool>)
    requires MapOK(es) && HoldsBitmap(es, c, bytes) && es' == Carved(es, c, bytes) && InBounds(es')
    requires MemEnd(es) / PAGE <= |frames| && FreedBefore(frames, es', |es|)
    ensures FreeExactly(frames, es, c, bytes)
  {
    forall n ensures Available(es, c, bytes, n) ==> 0 <= n < |frames| {
      FreedIsAvailable(es, c, bytes, n);
      if Available(es, c, bytes, n) {
        var i :| 0 <= i < |es| && es'[i].Frees(n);
        FreedOnce(es, c, bytes, i, n);
      }
    }
    forall n | 0 <= n < |frames| ensures !frames[n] <==> Available(es, c, bytes, n) {
      FreedIsAvailable(es, c, bytes, n);
    }
  }

  lemma FreedOneMore(frames: seq<bool>, frames': seq<bool>, es: seq<Entry>, i: nat)
    requires InBounds(es) && i < |es| && FreedBefore(frames, es, i) && |frames'| == |frames|
    requires es[i].usable ==> forall n :: 0 <= n < |frames| ==> frames'[n] == (frames[n] && !es[i].Frees(n))
    requires !es[i].usable ==> frames' == frames
    ensures FreedBefore(frames', es, i + 1)
  {
    forall n | 0 <= n < |frames'| ensures !frames'[n] <==> exists j :: 0 <= j < i + 1 && es[j].Frees(n) {
      if !frames[n] {
        var j :| 0 <= j < i && es[j].Frees(n);
      }
    }
  }

  /** Before entry i is freed, all its frames are still used. */
  lemma NotYetFreed(es: seq<Entry>, c: nat, bytes: nat, es': seq<Entry>, frames: seq<bool>, i: nat)
    requires MapOK(es) && HoldsBitmap(es, c, bytes) && es' == Carved(es, c, bytes) && i < |es|
    requires InBounds(es') && MemEnd(es) / PAGE <= |frames| && FreedBefore(frames, es', i)
    ensures forall n :: es'[i].Frees(n) ==> 0 <= n < |frames| && frames[n]
  {
    forall n | es'[i].Frees(n) ensures 0 <= n < |frames| && frames[n] {
      FreedOnce(es, c, bytes, i, n);
      if !frames[n] {
        var j :| 0 <= j < i && es'[j].Frees(n);
        FreedOnce(es, c, bytes, j, n);
      }
    }
  }

  class PhysicalMemoryManager {
    const bitmap: Bitmap
    const storage: nat              // where the bitmap lies

    ghost predicate Valid()
      reads bitmap, bitmap.words
    {
      bitmap.Valid()
    }

    /** Used frames: true is used. */
    ghost function Frames(): seq<bool>
      requires Valid()
      reads bitmap, bitmap.words
    {
      bitmap.bits
    }

    /** init */
    constructor (memmap: array<Entry>)
      requires MapOK(memmap[..])
      requires exists c :: HoldsBitmap(memmap[..], c, BitmapBytes(MemEnd(memmap[..])))
      modifies memmap
      ensures Valid() && fresh(bitmap) && fresh(bitmap.words)
      ensures MapOK(old(memmap[..])) && |Frames()| == 8 * BitmapBytes(MemEnd(old(memmap[..])))
      ensures exists c :: HoldsBitmap(old(memmap[..]), c, bitmap.bsize) && storage == old(memmap[..])[c].base
                && memmap[..] == Carved(old(memmap[..]), c, bitmap.bsize)
                && FreeExactly(Frames(), old(memmap[..]), c, bitmap.bsize)
    {
      ghost var es := memmap[..];
      var end := FindEnd(memmap);
      RoundingFits();
      var bytes := BitmapBytes(end);
      BitmapIsLargeEnough(end);
      var c := FindEntry(memmap, bytes);
      var words := new nat[bytes / 8];
      EntrySize();
      FillOnes(words);
      storage := memmap[c].base;
      bitmap := new Bitmap(words, bytes);
      memmap[c] := memmap[c].Carve(bytes);
      new;
      assert memmap[..] == Carved(es, c, bytes);
      AllUsed();
      FreeAll(memmap, es, c);
    }

    lemma AllUsed()
      requires Valid() && forall i :: 0 <= i < bitmap.words.Length ==> bitmap.words[i] == Pow2(WORD) - 1
      ensures forall n :: 0 <= n < |Frames()| ==> Frames()[n]
    {
      forall n | 0 <= n < |Frames()| ensures Frames()[n] {
        OnesBit(WORD, n % WORD);
        assert bitmap.words[n / WORD] == Pow2(WORD) - 1;
        assert bitmap.Used(n);
      }
    }

    /** The last loop of init: every usable entry's frames are freed. */
    method FreeAll(memmap: array<Entry>, ghost es: seq<Entry>, ghost c: nat)
      requires Valid() && memmap as object != bitmap.words && MapOK(es) && HoldsBitmap(es, c, bitmap.bsize)
      requires memmap[..] == Carved(es, c, bitmap.bsize) && MemEnd(es) / PAGE <= |Frames()|
      requires forall n :: 0 <= n < |Frames()| ==> Frames()[n]
      modifies bitmap, bitmap.words
      ensures Valid() && FreeExactly(Frames(), es, c, bitmap.bsize)
    {
      CarvedBounds(es, c, bitmap.bsize);
      for i := 0 to memmap.Length
        invariant Valid() && memmap[..] == Carved(es, c, bitmap.bsize)
        invariant FreedBefore(Frames(), memmap[..], i)
      {
        ghost var before := Frames();
        if memmap[i].usable {
          NotYetFreed(es, c, bitmap.bsize, memmap[..], Frames(), i);
          FreeRegion(memmap[i]);
        }
        FreedOneMore(before, Frames(), memmap[..], i);
      }
      FreedSummary(es, c, bitmap.bsize, memmap[..], Frames());
    }

    /** free_region */
    method FreeRegion(e: Entry)
      requires Valid() && e.base + PAGE < W64 && e.length < W64 && e.usable
      requires forall n :: e.Frees(n) ==> 0 <= n < |Frames()| && Frames()[n]
      modifies bitmap, bitmap.words
      ensures Valid() && forall n :: 0 <= n < |Frames()| ==> Frames()[n] == (old(Frames())[n] && !e.Frees(n))
    {
      EntryBounds(e);
      var count := RoundDown(e.length, PAGE) / PAGE;
      var start := RoundUp(e.base, PAGE) / PAGE;
      for i := 0 to count
        invariant Valid()
        invariant forall n :: 0 <= n < |Frames()| ==> Frames()[n] == (old(Frames())[n] && !(start <= n < start + i))
      {
        assert e.Frees(start + i);
        bitmap.Clear(start + i, true);
      }
    }

    /** allocate_frame: the address of the lowest free frame, or null. */
    method AllocateFrame() returns (frame: int)
      requires Valid()
      modifies bitmap, bitmap.words
      ensures Valid()
      ensures frame == if Lowest(old(Frames())) < 0 then -1 else Lowest(old(Frames())) * PAGE
      ensures Frames() == Take(old(Frames()), 1)
    {
      var num := bitmap.FindSet();
      TakeOne(old(Frames()), num);
      if num < 0 {
        return -1;
      }
      frame := num * PAGE;
    }

    /** The check that precedes clearing a bit: the frame is within the bitmap and marked used. */
    method IsUsed(address: nat) returns (used: bool)
      requires Valid()
      ensures used <==> address / PAGE < |Frames()| && Frames()[address / PAGE]
    {
      var num := address / PAGE;
      if num < bitmap.bitsize {
        assert num / WORD * WORD + num % WORD == num;
        var bit := bitmap.GetBit(num / WORD, num % WORD);
        return bit == 1;
      }
      used := false;
    }

    /** release_frame; it panics when the address is unaligned, outside the bitmap, or free. */
    method ReleaseFrame(address: nat) returns (ok: bool)
      requires Valid()
      modifies bitmap, bitmap.words
      ensures Valid()
      ensures ok <==> address % PAGE == 0 && address / PAGE < |old(Frames())| && old(Frames())[address / PAGE]
      ensures Frames() == if ok then old(Frames())[address / PAGE := false] else old(Frames())
    {
      if address % PAGE != 0 {
        return false;
      }
      ok := IsUsed(address);
      if ok {
        bitmap.Clear(address / PAGE, true);
      }
    }
  }

  /** memset to 0xFF */
  method FillOnes(words: array<nat>)
    modifies words
    ensures forall i :: 0 <= i < words.Length ==> words[i] == Pow2(WORD) - 1
  {
    EntrySize();
    for i := 0 to words.Length
      invariant forall j :: 0 <= j < i ==> words[j] == Pow2(WORD) - 1
    {
      words[i] := W64 - 1;
    }
  }

  /** The first loop of init. */
  method FindEnd(memmap: array<Entry>) returns (end: nat)
    requires MapOK(memmap[..])
    ensures end == MemEnd(memmap[..]) && end + PAGE < W64
  {
    end := 0;
    for i := 0 to memmap.Length
      invariant end == MemEnd(memmap[..i])
    {
      assert memmap[..i + 1][..i] == memmap[..i];
      if memmap[i].usable && memmap[i].End() > end {
        end := memmap[i].End();
      }
    }
    assert memmap[..memmap.Length] == memmap[..];
  }

  /** find_physical_entry, which panics when there is none. */
  method FindEntry(memmap: array<Entry>, bytes: nat) returns (c: nat)
    requires exists i :: HoldsBitmap(memmap[..], i, bytes)
    ensures HoldsBitmap(memmap[..], c, bytes)
  {
    ghost var found :| HoldsBitmap(memmap[..], found, bytes);
    c := 0;
    while !(memmap[c].usable && memmap[c].length >= bytes)
      invariant c <= found
      invariant forall i :: 0 <= i < c ==> !(memmap[i].usable && memmap[i].length >= bytes)
      decreases found - c
    {
      c := c + 1;
    }
  }

  // ---------- runs ----------

  /** A frame handed out, or released. */
  datatype FrameEvent = Allocated(n: nat) | Released(n: nat)

  ghost predicate FrameStep(before: seq<bool>, e: FrameEvent, after: seq<bool>) {
    match e
    case Allocated(n) =>
      n < |before| && !before[n] && after == before[n := true] && forall m :: 0 <= m < n ==> before[m]
    case Released(n) => n < |before| && before[n] && after == before[n := false]
  }

  ghost predicate FrameRun(states: seq<seq<bool>>, events: seq<FrameEvent>) {
    && |states| == |events| + 1
    && forall t :: 0 <= t < |events| ==> FrameStep(states[t], events[t], states[t + 1])
  }

  /** A frame stays used as long as it is not released. */
  lemma {:induction false} StaysUsed(states: seq<seq<bool>>, events: seq<FrameEvent>, s: nat, t: nat, n: nat)
    requires FrameRun(states, events) && s < t < |states| && events[s] == Allocated(n)
    requires forall u :: s < u < t ==> events[u] != Released(n)
    ensures n < |states[t]| && states[t][n]
  {
    assert FrameStep(states[t - 1], events[t - 1], states[t]);
    if s < t - 1 { StaysUsed(states, events, s, t - 1, n); }
  }

  /** No frame is handed out twice without having been released in between. */
  lemma NoFrameTwice(states: seq<seq<bool>>, events: seq<FrameEvent>, s: nat, t: nat, n: nat)
    requires FrameRun(states, events) && s < t < |events| && events[s] == Allocated(n) && events[t] == Allocated(n)
    ensures exists u :: s < u < t && events[u] == Released(n)
  {
    assert FrameStep(states[t], events[t], states[t + 1]);
    if forall u :: s < u < t ==> events[u] != Released(n) { StaysUsed(states, events, s, t, n); }
  }
}
