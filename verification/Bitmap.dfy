/** The page bitmap and its word-at-a-time search for the next set or clear bit. */
module Bitmap {

  const WORD := 64

  function Pow2(n: nat): (p: nat)
    ensures p > 0
  {
    if n == 0 then 1 else 2 * Pow2(n - 1)
  }

  /** An unsigned long. */
  predicate IsWord(x: nat) {
    x < Pow2(WORD)
  }

  /** Bit `k` of a word. */
  predicate Bit(x: nat, k: nat) {
    if k == 0 then x % 2 == 1 else Bit(x / 2, k - 1)
  }

  /** x & (~0UL << s). */
  function ClearLow(x: nat, s: nat): (y: nat) {
    if s == 0 then x else 2 * ClearLow(x / 2, s - 1)
  }

  /** x ^ ~0UL. */
  function Inverted(x: nat): (y: nat)
    requires IsWord(x)
  {
    Pow2(WORD) - 1 - x
  }

  /** __ffs: the lowest set bit of a nonzero word. */
  function LowestBit(x: nat): (k: nat)
    requires x != 0
  {
    if x % 2 == 1 then 0 else 1 + LowestBit(x / 2)
  }

  lemma {:induction false} LowestBitIsLowest(x: nat, j: nat)
    requires x != 0
    ensures Bit(x, LowestBit(x))
    ensures j < LowestBit(x) ==> !Bit(x, j)
  {
    if x % 2 == 0 {
      LowestBitIsLowest(x / 2, if j > 0 then j - 1 else 0);
    }
  }

  lemma {:induction false} BitZero(k: nat)
    ensures !Bit(0, k)
  {
    if k > 0 {
      BitZero(k - 1);
    }
  }

  lemma {:induction false} BitClearLow(x: nat, s: nat, k: nat)
    ensures Bit(ClearLow(x, s), k) <==> k >= s && Bit(x, k)
  {
    if s > 0 {
      if k > 0 {
        BitClearLow(x / 2, s - 1, k - 1);
        assert 2 * ClearLow(x / 2, s - 1) / 2 == ClearLow(x / 2, s - 1);
      }
    }
  }

  lemma {:induction false} BitInverted(x: nat, n: nat, k: nat)
    requires x < Pow2(n) && k < n
    ensures Bit(Pow2(n) - 1 - x, k) <==> !Bit(x, k)
  {
    if k > 0 {
      assert (Pow2(n) - 1 - x) / 2 == Pow2(n - 1) - 1 - x / 2;
      BitInverted(x / 2, n - 1, k - 1);
    }
  }

  lemma {:induction false} SomeBit(x: nat, n: nat)
    requires 0 < x < Pow2(n)
    ensures LowestBit(x) < n
  {
    if x % 2 == 0 {
      SomeBit(x / 2, n - 1);
    }
  }

  /** Bit `p` of a bitmap. */
  predicate BitAt(words: seq<nat>, p: nat)
    requires p < WORD * |words|
  {
    Bit(words[p / WORD], p % WORD)
  }

  predicate IsBitmap(words: seq<nat>, nbits: nat) {
    nbits <= WORD * |words| && forall i :: 0 <= i < |words| ==> IsWord(words[i])
  }

  /** The word at index `i`, inverted when clear bits are wanted. */
  function Wanted(words: seq<nat>, i: nat, invert: bool): (x: nat)
    requires i < |words| && IsWord(words[i])
  {
    if invert then Inverted(words[i]) else words[i]
  }

  lemma Position(i: nat, k: nat)
    requires k < WORD
    ensures (WORD * i + k) / WORD == i && (WORD * i + k) % WORD == k
  {
  }

  lemma WantedBit(words: seq<nat>, i: nat, invert: bool, k: nat)
    requires i < |words| && IsWord(words[i]) && k < WORD
    ensures IsWord(Wanted(words, i, invert))
    ensures Bit(Wanted(words, i, invert), k) <==> BitAt(words, WORD * i + k) == !invert
  {
    hide Bit, Pow2;
    BitInverted(words[i], WORD, k);
    Position(i, k);
  }

  lemma {:induction false} ClearLowBound(x: nat, s: nat)
    ensures ClearLow(x, s) <= x
  {
    if s > 0 {
      ClearLowBound(x / 2, s - 1);
    }
  }

  /** Bit `k` of `tmp` tells whether position `k` of word `i` is one to stop at. */
  predicate Shows(words: seq<nat>, i: nat, from: nat, invert: bool, tmp: nat, k: nat)
    requires i < |words| && k < WORD
  {
    Bit(tmp, k) <==> WORD * i + k >= from && BitAt(words, WORD * i + k) == !invert
  }

  predicate ShowsAll(words: seq<nat>, i: nat, from: nat, invert: bool, tmp: nat)
    requires i < |words|
  {
    IsWord(tmp) && forall k :: 0 <= k < WORD ==> Shows(words, i, from, invert, tmp, k)
  }

  lemma FirstWord(words: seq<nat>, from: nat, invert: bool)
    requires from < WORD * |words| && IsWord(words[from / WORD])
    ensures ShowsAll(words, from / WORD, from, invert,
                     ClearLow(Wanted(words, from / WORD, invert), from % WORD))
  {
    hide Bit, ClearLow, BitAt, Inverted, Pow2;
    var w := Wanted(words, from / WORD, invert);
    forall k | 0 <= k < WORD
      ensures Shows(words, from / WORD, from, invert, ClearLow(w, from % WORD), k)
    {
      WantedBit(words, from / WORD, invert, k);
      BitClearLow(w, from % WORD, k);
    }
    ClearLowBound(w, from % WORD);
    WantedBit(words, from / WORD, invert, 0);
  }

  lemma LaterWord(words: seq<nat>, i: nat, from: nat, invert: bool)
    requires i < |words| && IsWord(words[i]) && from <= WORD * i
    ensures ShowsAll(words, i, from, invert, Wanted(words, i, invert))
  {
    hide Bit, BitAt, Inverted, Pow2;
    forall k | 0 <= k < WORD
      ensures Shows(words, i, from, invert, Wanted(words, i, invert), k)
    {
      WantedBit(words, i, invert, k);
    }
    WantedBit(words, i, invert, 0);
  }

  lemma NothingShown(words: seq<nat>, i: nat, from: nat, invert: bool, p: nat)
    requires i < |words| && ShowsAll(words, i, from, invert, 0)
    requires from <= p && WORD * i <= p < WORD * (i + 1)
    ensures BitAt(words, p) == invert
  {
    hide Bit, BitAt;
    BitZero(p - WORD * i);
    assert Shows(words, i, from, invert, 0, p - WORD * i);
  }

  lemma FirstShown(words: seq<nat>, i: nat, from: nat, invert: bool, tmp: nat, p: nat)
    requires i < |words| && tmp != 0 && ShowsAll(words, i, from, invert, tmp)
    ensures LowestBit(tmp) < WORD
    ensures from <= WORD * i + LowestBit(tmp)
    ensures BitAt(words, WORD * i + LowestBit(tmp)) == !invert
    ensures WORD * i <= p < WORD * i + LowestBit(tmp) && from <= p ==> BitAt(words, p) == invert
  {
    hide Bit, BitAt, LowestBit, Pow2;
    SomeBit(tmp, WORD);
    LowestBitIsLowest(tmp, 0);
    assert Shows(words, i, from, invert, tmp, LowestBit(tmp));
    if WORD * i <= p < WORD * i + LowestBit(tmp) && from <= p {
      LowestBitIsLowest(tmp, p - WORD * i);
      assert Shows(words, i, from, invert, tmp, p - WORD * i);
    }
  }

  /**
   _find_next_bit: the first position from `from` on whose bit is set (or clear, with `invert`),
   or `nbits` if there is none. It looks at whole words, yet agrees with looking at each bit.
   */
  method FindNext(words: seq<nat>, nbits: nat, from: nat, invert: bool) returns (r: nat)
    requires IsBitmap(words, nbits)
    ensures from >= nbits ==> r == nbits
    ensures from < nbits ==> from <= r <= nbits
    ensures forall p :: from <= p < r ==> BitAt(words, p) == invert
    ensures r < nbits ==> BitAt(words, r) == !invert
  {
    hide Bit, BitAt, ClearLow, Wanted, LowestBit, Pow2, ShowsAll;
    if from >= nbits {
      return nbits;
    }
    var tmp := ClearLow(Wanted(words, from / WORD, invert), from % WORD);
    FirstWord(words, from, invert);
    var start := from - from % WORD;
    ghost var i := from / WORD;
    while tmp == 0
      invariant start == WORD * i && start < nbits
      invariant ShowsAll(words, i, from, invert, tmp)
      invariant forall p :: from <= p < start ==> BitAt(words, p) == invert
      decreases nbits - start
    {
      forall p | from <= p < nbits && start <= p < start + WORD
        ensures BitAt(words, p) == invert
      {
        NothingShown(words, i, from, invert, p);
      }
      start := start + WORD;
      i := i + 1;
      if start >= nbits {
        return nbits;
      }
      tmp := Wanted(words, start / WORD, invert);
      LaterWord(words, i, from, invert);
    }
    r := start + LowestBit(tmp);
    FirstShown(words, i, from, invert, tmp, r);
    forall p | from <= p < r ensures BitAt(words, p) == invert {
      if p >= start {
        FirstShown(words, i, from, invert, tmp, p);
      }
    }
    if r >= nbits {
      r := nbits;
    }
  }
}
