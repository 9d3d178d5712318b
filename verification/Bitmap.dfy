/** The bitmap of 64-bit words behind the frame allocator, as the sequence of its bits. */
module Bitmaps {
  import opened Units
  import opened Words

  lemma EntrySize()
    ensures Pow2(WORD) == W64
  {
    Pow2Values();
  }

  // ---------- single bits ----------

  /** A word is the largest one exactly when all its bits are set. */
  lemma AllOnes(w: nat, n: nat)
    requires w < Pow2(n)
    ensures w == Pow2(n) - 1 <==> forall k :: 0 <= k < n ==> Bit(w, k)
  {
    var ones := Pow2(n) - 1;
    forall k | 0 <= k < n ensures Bit(ones, k) {
      OnesBit(n, k);
    }
    if forall k :: 0 <= k < n ==> Bit(w, k) { BitsDetermine(w, ones, n); }
  }

  /** 1 << j has bit j set, and no other. */
  lemma ShiftedOne(j: nat, n: nat, k: nat)
    requires j < n
    ensures Shl(1, j, n) < Pow2(n) && Bit(Shl(1, j, n), k) == (k == j)
  {
    Pow2Add(0, j);
    Pow2AtMost(j + 1, n);
    LowSmall(Up(1, j), n);
    UpBit(1, j, k);
    if k >= j { OneBit(k - j); }
  }

  /** m_addr[i] |= 1 << j */
  lemma SetBit(w: nat, j: nat, n: nat, k: nat)
    requires w < Pow2(n) && j < n
    ensures Or(w, Shl(1, j, n)) < Pow2(n) && Bit(Or(w, Shl(1, j, n)), k) == (k == j || Bit(w, k))
  {
    ShiftedOne(j, n, k);
    OrBit(w, Shl(1, j, n), k);
    OrBound(w, Shl(1, j, n), n);
  }

  /** m_addr[i] &= ~(1 << j) */
  lemma ClearBit(w: nat, j: nat, n: nat, k: nat)
    requires w < Pow2(n) && j < n && k < n
    ensures And(w, Not(Shl(1, j, n), n)) < Pow2(n)
    ensures Bit(And(w, Not(Shl(1, j, n), n)), k) == (k != j && Bit(w, k))
  {
    ShiftedOne(j, n, k);
    NotBit(Shl(1, j, n), n, k);
    AndBit(w, Not(Shl(1, j, n), n), k);
    AndBound(w, Not(Shl(1, j, n), n));
  }

  lemma LowBit(x: nat)
    ensures And(x, 1) == x % 2
  {
    AndLowMask(x, 1);
    assert Low(x, 1) == x % 2 + 2 * Low(x / 2, 0);
  }

  // ---------- the bitmap ----------

  class Bitmap {
    const words: array<nat>         // m_addr
    const maxValue: nat             // m_max_value
    const bsize: nat                // m_bsize
    const bitsize: nat              // m_bitsize
    const entries: nat              // m_entries

    /** What the words represent: number n is marked used when bits[n] is true. */
    ghost var bits: seq<bool>

    ghost predicate Valid()
      reads this, words
    {
      && maxValue == Pow2(WORD) - 1
      && words.Length == entries && bsize == 8 * entries && bitsize == WORD * entries
      && (forall i :: 0 <= i < entries ==> words[i] < Pow2(WORD))
      && |bits| == bitsize && forall n {:trigger Used(n)} :: 0 <= n < bitsize ==> bits[n] == Used(n)
    }

    /** Whether the words mark number n used. */
    ghost predicate Used(n: int)
      requires 0 <= n < WORD * words.Length
      reads words
    {
      Bit(words[n / WORD], n % WORD)
    }

    /** init, over storage of `size` bytes that starts out as `storage`. */
    constructor (storage: array<nat>, size: nat)
      requires size == 8 * storage.Length && forall i :: 0 <= i < storage.Length ==> storage[i] < Pow2(WORD)
      ensures Valid() && words == storage && bsize == size
    {
      EntrySize();
      words := storage;
      maxValue := W64 - 1;
      bsize := size;
      bitsize := size * 8;
      entries := size / 8;
      new;
      bits := seq(bitsize, n requires 0 <= n < WORD * words.Length reads words => Used(n));
    }

    method GetBit(i: nat, j: nat) returns (bit: nat)
      requires Valid() && i < entries && j < WORD
      ensures bit == if Used(i * WORD + j) then 1 else 0
    {
      LowBit(Shr(words[i], j));
      bit := And(Shr(words[i], j), 1);
    }

    /** One word is replaced by one that differs in bit j only. */
    method Store(i: nat, j: nat, w: nat, ghost v: bool)
      requires Valid() && i < entries && j < WORD && w < Pow2(WORD)
      requires forall k :: 0 <= k < WORD ==> Bit(w, k) == if k == j then v else Bit(words[i], k)
      modifies this, words
      ensures Valid() && bits == old(bits)[i * WORD + j := v]
    {
      assert forall n :: 0 <= n < bitsize ==> bits[n] == Used(n);
      words[i] := w;
      bits := bits[i * WORD + j := v];
      forall n | 0 <= n < bitsize ensures Used(n) == bits[n] {
        if n / WORD == i { assert n % WORD == j <==> n == i * WORD + j; }
      }
    }

    method SetBitAt(i: nat, j: nat)
      requires Valid() && i < entries && j < WORD
      modifies this, words
      ensures Valid() && bits == old(bits)[i * WORD + j := true]
    {
      forall k | 0 <= k < WORD ensures Bit(Or(words[i], Shl(1, j, WORD)), k) == (k == j || Bit(words[i], k)) {
        SetBit(words[i], j, WORD, k);
      }
      SetBit(words[i], j, WORD, 0);
      Store(i, j, Or(words[i], Shl(1, j, WORD)), true);
    }

    /** find_set: the least unused number is marked used and returned; -1 says that there is none. */
    method FindSet() returns (num: int)
      requires Valid()
      modifies this, words
      ensures Valid()
      ensures num == -1 <==> forall n :: 0 <= n < bitsize ==> old(bits)[n]
      ensures num == -1 ==> bits == old(bits)
      ensures num != -1 ==>
                && 0 <= num < bitsize && !old(bits)[num] && bits == old(bits)[num := true]
                && forall n :: 0 <= n < num ==> old(bits)[n]
    {
      ghost var was := bits;
      for i := 0 to entries
        invariant Valid() && bits == was
        invariant forall n :: 0 <= n < i * WORD ==> was[n]
      {
        AllOnes(words[i], WORD);
        if words[i] == maxValue {
          WordOfOnes(i);
          continue;
        }
        for j := 0 to WORD
          invariant Valid() && bits == was && words[i] != maxValue
          invariant forall k :: 0 <= k < j ==> Bit(words[i], k)
        {
          var bit := GetBit(i, j);
          if bit == 0 {
            LeastUnused(i, j);
            SetBitAt(i, j);
            return i * WORD + j;
          }
        }
        AllOnes(words[i], WORD);
        assert false;
      }
      num := -1;
    }

    lemma WordOfOnes(i: nat)
      requires Valid() && i < entries && forall k :: 0 <= k < WORD ==> Bit(words[i], k)
      ensures forall n :: i * WORD <= n < (i + 1) * WORD ==> bits[n]
    {
      forall n | i * WORD <= n < (i + 1) * WORD ensures bits[n] {
        assert Used(n) by { assert n / WORD == i && 0 <= n % WORD < WORD; }
      }
    }

    lemma LeastUnused(i: nat, j: nat)
      requires Valid() && i < entries && j < WORD && !Used(i * WORD + j)
      requires forall k :: 0 <= k < j ==> Bit(words[i], k)
      requires forall n :: 0 <= n < i * WORD ==> bits[n]
      ensures forall n :: 0 <= n < i * WORD + j ==> bits[n]
    {
      forall n | i * WORD <= n < i * WORD + j ensures bits[n] {
        assert Used(n) by { assert n / WORD == i && n % WORD == n - i * WORD; }
      }
    }

    /** set; the assertions of the source are the preconditions. */
    method Set(num: nat, check: bool)
      requires Valid() && num < bitsize && (check ==> !Used(num))
      modifies this, words
      ensures Valid() && bits == old(bits)[num := true]
    {
      var i, j := num / WORD, num % WORD;
      SetBitAt(i, j);
    }

    /** clear; the assertions of the source are the preconditions. */
    method Clear(num: nat, check: bool)
      requires Valid() && num < bitsize && (check ==> Used(num))
      modifies this, words
      ensures Valid() && bits == old(bits)[num := false]
    {
      EntrySize();
      var i, j := num / WORD, num % WORD;
      ShiftedOne(j, WORD, j);
      var w := And(words[i], Not(Shl(1, j, WORD), WORD));
      forall k | 0 <= k < WORD ensures Bit(w, k) == (k != j && Bit(words[i], k)) {
        ClearBit(words[i], j, WORD, k);
      }
      ClearBit(words[i], j, WORD, 0);
      Store(i, j, w, false);
    }
  }
}
