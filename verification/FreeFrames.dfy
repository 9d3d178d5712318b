/** Which frames an allocator that hands out the lowest free frame hands out.  A state is the sequence of
    the frames' bits; true is used. */
module FreeFrames {

  /** The lowest free frame, or -1. */
  function Lowest(frames: seq<bool>): (n: int)
    ensures -1 <= n < |frames| && (n >= 0 ==> !frames[n])
    ensures forall m :: 0 <= m < |frames| && (n == -1 || m < n) ==> frames[m]
  {
    if frames == [] then -1
    else if !frames[0] then 0
    else
      var rest := Lowest(frames[1..]);
      assert forall m :: 1 <= m < |frames| ==> frames[m] == frames[1..][m - 1];
      if rest < 0 then -1 else rest + 1
  }

  lemma LowestIs(frames: seq<bool>, n: int)
    requires 0 <= n < |frames| && !frames[n] && forall m :: 0 <= m < n ==> frames[m]
    ensures Lowest(frames) == n
  {
    assert frames[Lowest(frames)] == false;
  }

  function FreeCount(frames: seq<bool>): nat {
    if frames == [] then 0 else (if frames[0] then 0 else 1) + FreeCount(frames[1..])
  }

  lemma {:induction false} CountUpdate(frames: seq<bool>, n: nat, used: bool)
    requires n < |frames|
    ensures FreeCount(frames[n := used]) == FreeCount(frames) - (if frames[n] then 0 else 1) + (if used then 0 else 1)
  {
    var frames' := frames[n := used];
    if n == 0 {
      assert frames'[1..] == frames[1..];
    } else {
      assert frames'[1..] == frames[1..][n - 1 := used];
      CountUpdate(frames[1..], n - 1, used);
    }
  }

  lemma {:induction false} FreeAtMost(frames: seq<bool>)
    ensures FreeCount(frames) <= |frames|
  {
    if frames != [] { FreeAtMost(frames[1..]); }
  }

  lemma {:induction false} CountZero(frames: seq<bool>)
    ensures FreeCount(frames) == 0 <==> Lowest(frames) == -1
  {
    if frames != [] { CountZero(frames[1..]); }
  }

  /** The state once the k lowest free frames, or all of them if there are fewer, are handed out. */
  function Take(frames: seq<bool>, k: nat): (r: seq<bool>)
    ensures |r| == |frames|
  {
    if k == 0 then frames
    else
      var before := Take(frames, k - 1);
      if Lowest(before) < 0 then before else before[Lowest(before) := true]
  }

  /** Marking the lowest free frame. */
  lemma TakeOne(frames: seq<bool>, n: int)
    requires n < |frames| && forall m :: 0 <= m < |frames| && (n < 0 || m < n) ==> frames[m]
    requires n >= 0 ==> !frames[n]
    ensures n >= 0 ==> Lowest(frames) == n && Take(frames, 1) == frames[n := true] && FreeCount(frames) > 0
    ensures n < 0 ==> Lowest(frames) == -1 && Take(frames, 1) == frames && FreeCount(frames) == 0
  {
    CountZero(frames);
    assert Take(frames, 0) == frames;
    assert 0 <= Lowest(frames) ==> !frames[Lowest(frames)];
  }

  /** The frame handed out after k others, or -1. */
  function Nth(frames: seq<bool>, k: nat): int {
    Lowest(Take(frames, k))
  }

  lemma {:induction false} TakeCount(frames: seq<bool>, k: nat)
    ensures FreeCount(Take(frames, k)) == if k <= FreeCount(frames) then FreeCount(frames) - k else 0
    ensures Nth(frames, k) >= 0 <==> k < FreeCount(frames)
  {
    CountZero(Take(frames, k));
    if k > 0 {
      var before := Take(frames, k - 1);
      TakeCount(frames, k - 1);
      if Lowest(before) >= 0 { CountUpdate(before, Lowest(before), true); }
    }
  }

  lemma {:induction false} TakeTake(frames: seq<bool>, a: nat, b: nat)
    ensures Take(Take(frames, a), b) == Take(frames, a + b)
  {
    if b > 0 { TakeTake(frames, a, b - 1); }
  }

  lemma {:induction false} NoMoreToTake(frames: seq<bool>, a: nat, b: nat)
    requires FreeCount(Take(frames, a)) == 0
    ensures Take(frames, a + b) == Take(frames, a)
  {
    CountZero(Take(frames, a));
    if b > 0 { NoMoreToTake(frames, a, b - 1); }
  }

  /** Frames are handed out in increasing order, each of them free at the start. */
  lemma {:induction false} NthGrows(frames: seq<bool>, i: nat, k: nat)
    requires i < k && Nth(frames, k) >= 0
    ensures 0 <= Nth(frames, i) < Nth(frames, k)
    decreases k
  {
    var before := Take(frames, k - 1);
    assert Take(frames, k)[Nth(frames, k)] == false;
    assert Lowest(before) >= 0;
    if i < k - 1 { NthGrows(frames, i, k - 1); }
  }

  /** What has been handed out. */
  lemma {:induction false} TakeBit(frames: seq<bool>, k: nat, n: nat)
    requires n < |frames|
    ensures Take(frames, k)[n] <==> frames[n] || exists i :: 0 <= i < k && Nth(frames, i) == n
  {
    if k > 0 {
      TakeBit(frames, k - 1, n);
      if Nth(frames, k - 1) == n { assert Take(frames, k)[n]; }
    }
  }

  lemma NthWasFree(frames: seq<bool>, k: nat)
    requires Nth(frames, k) >= 0
    ensures !frames[Nth(frames, k)]
  {
    TakeBit(frames, k, Nth(frames, k));
  }

  /** From a run of free frames that starts at the lowest one, the frames come in sequence. */
  lemma {:induction false} NthOfRun(frames: seq<bool>, n: nat, k: nat)
    requires k < n && 0 <= Lowest(frames) && Lowest(frames) + n <= |frames|
    requires forall m :: Lowest(frames) <= m < Lowest(frames) + n ==> !frames[m]
    ensures Nth(frames, k) == Lowest(frames) + k
  {
    var f := Lowest(frames) + k;
    if k > 0 {
      NthOfRun(frames, n, k - 1);
      TakeBit(frames, k, f);
      forall i | 0 <= i < k && Nth(frames, i) == f ensures false {
        NthOfRun(frames, n, i);
      }
      var g := Nth(frames, k);
      assert g >= 0 && g <= f;
      NthGrows(frames, k - 1, k);
    }
  }

  function Total(counts: seq<nat>): nat {
    if counts == [] then 0 else Total(counts[..|counts| - 1]) + counts[|counts| - 1]
  }

  /** Each state comes from the one before by handing out as many frames as the count says. */
  ghost predicate TakenInTurn(states: seq<seq<bool>>, counts: seq<nat>) {
    |states| == |counts| + 1 && forall k :: 0 <= k < |counts| ==> states[k + 1] == Take(states[k], counts[k])
  }

  /** There are frames enough at every turn. */
  ghost predicate EnoughInTurn(states: seq<seq<bool>>, counts: seq<nat>, n: nat)
    requires n <= |counts| <= |states|
  {
    forall k :: 0 <= k < n ==> counts[k] <= FreeCount(states[k])
  }

  lemma EnoughOnceMore(states: seq<seq<bool>>, counts: seq<nat>, n: nat)
    requires n < |counts| <= |states|
    ensures EnoughInTurn(states, counts, n + 1)
            <==> EnoughInTurn(states, counts, n) && counts[n] <= FreeCount(states[n])
  {}

  /** Frames enough at every turn are frames enough for all. */
  lemma {:induction false} TakenTotal(states: seq<seq<bool>>, counts: seq<nat>, n: nat)
    requires TakenInTurn(states, counts) && n <= |counts|
    ensures states[n] == Take(states[0], Total(counts[..n]))
    ensures EnoughInTurn(states, counts, n) <==> Total(counts[..n]) <= FreeCount(states[0])
    decreases n
  {
    if n == 0 {
      assert Take(states[0], 0) == states[0];
    } else {
      var total := Total(counts[..n - 1]);
      TakenTotal(states, counts, n - 1);
      EnoughOnceMore(states, counts, n - 1);
      assert counts[..n][..n - 1] == counts[..n - 1];
      TakeTake(states[0], total, counts[n - 1]);
      TakeCount(states[0], total);
    }
  }
}
