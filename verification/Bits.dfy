/** Bits of 64-bit words: what shifts and masks do to each bit.  A shift by a count that
    varies is written as that many shifts by one. */
module Bits {
  type Word = bv64

  const ONES: Word := 0xffff_ffff_ffff_ffff

  function Half(w: Word): Word { w >> 1 }

  function Twice(w: Word): Word { w << 1 }

  /** `w >> k`. */
  function Shr(w: Word, k: nat): Word
    decreases k
  {
    if k == 0 then w else Half(Shr(w, k - 1))
  }

  /** `w << k`. */
  function Shl(w: Word, k: nat): Word
    decreases k
  {
    if k == 0 then w else Twice(Shl(w, k - 1))
  }

  predicate LowBit(w: Word) { w & 1 == 1 }

  /** Bit r of a word. */
  predicate TestBit(w: Word, r: nat) { LowBit(Shr(w, r)) }

  // ----- One step ---------------------------------------------------------------------------------

  function Or(a: Word, b: Word): Word { a | b }

  function And(a: Word, b: Word): Word { a & b }

  function Xor(a: Word, b: Word): Word { a ^ b }

  lemma HalfOr(a: Word, b: Word)
    ensures Half(Or(a, b)) == Or(Half(a), Half(b))
  {
  }

  lemma HalfAnd(a: Word, b: Word)
    ensures Half(And(a, b)) == And(Half(a), Half(b))
  {
  }

  lemma HalfXor(a: Word, b: Word)
    ensures Half(Xor(a, b)) == Xor(Half(a), Half(b))
  {
  }

  predicate AtMost(x: Word, y: Word) { x <= y }

  lemma LowBitOps(a: Word, b: Word)
    ensures LowBit(Or(a, b)) <==> LowBit(a) || LowBit(b)
    ensures LowBit(And(a, b)) <==> LowBit(a) && LowBit(b)
    ensures LowBit(Xor(a, b)) <==> LowBit(a) != LowBit(b)
    ensures !LowBit(0)
  {
  }

  lemma BackAndForth(x: Word)
    ensures Half(Twice(x)) == And(x, Half(ONES)) && !LowBit(Twice(x))
  {
  }

  lemma ZeroStep(x: Word)
    ensures Half(x) == 0 && !LowBit(x) ==> x == 0
  {
  }

  lemma HalfOrder(x: Word, y: Word)
    requires AtMost(x, y)
    ensures AtMost(Half(x), Half(y))
  {
  }

  lemma LowMaskStep(x: Word)
    requires x & (x + 1) == 0
    ensures Half(x) & (Half(x) + 1) == 0 && (x != 0 ==> LowBit(x))
  {
  }

  // ----- Shifting and combining ---------------------------------------------------------------------

  lemma {:induction false} ShrOps(a: Word, b: Word, r: nat)
    ensures Shr(Or(a, b), r) == Or(Shr(a, r), Shr(b, r))
    ensures Shr(And(a, b), r) == And(Shr(a, r), Shr(b, r))
    ensures Shr(Xor(a, b), r) == Xor(Shr(a, r), Shr(b, r))
    decreases r
  {
    hide Half, Or, And, Xor;
    if r > 0 {
      ShrOps(a, b, r - 1);
      HalfOr(Shr(a, r - 1), Shr(b, r - 1));
      HalfAnd(Shr(a, r - 1), Shr(b, r - 1));
      HalfXor(Shr(a, r - 1), Shr(b, r - 1));
    }
  }

  lemma {:induction false} ShrShr(w: Word, j: nat, k: nat)
    ensures Shr(Shr(w, j), k) == Shr(w, j + k)
    decreases k
  {
    hide Half;
    if k > 0 {
      ShrShr(w, j, k - 1);
    }
  }

  lemma {:induction false} ShrOrder(x: Word, y: Word, k: nat)
    requires AtMost(x, y)
    ensures AtMost(Shr(x, k), Shr(y, k))
    decreases k
  {
    hide Half, AtMost;
    if k > 0 {
      ShrOrder(x, y, k - 1);
      HalfOrder(Shr(x, k - 1), Shr(y, k - 1));
    }
  }

  lemma ShrOnes()
    ensures Shr(ONES, 63) == 1 && Shr(ONES, 64) == 0
  {
    assert Shr(ONES, 8) == 0xff_ffff_ffff_ffff;
    assert Shr(ONES, 16) == 0xffff_ffff_ffff;
    assert Shr(ONES, 24) == 0xff_ffff_ffff;
    assert Shr(ONES, 32) == 0xffff_ffff;
    assert Shr(ONES, 40) == 0xff_ffff;
    assert Shr(ONES, 48) == 0xffff;
    assert Shr(ONES, 56) == 0xff;
  }

  lemma {:induction false} ShrZero(k: nat)
    ensures Shr(0, k) == 0
  {
    if k > 0 { ShrZero(k - 1); }
  }

  /** No word has a bit from 64 on. */
  lemma BeyondTop(w: Word, r: nat)
    requires r >= 64
    ensures Shr(w, r) == 0 && !TestBit(w, r)
  {
    ShrOnes();
    ShrOrder(w, ONES, 64);
    ShrShr(w, 64, r - 64);
    ShrZero(r - 64);
  }

  lemma {:induction false} LowMask(r: nat)
    ensures Shr(ONES, r) & (Shr(ONES, r) + 1) == 0
  {
    hide Half;
    if r > 0 {
      LowMask(r - 1);
      LowMaskStep(Shr(ONES, r - 1));
    }
  }

  lemma OnesBits(r: nat)
    ensures TestBit(ONES, r) <==> r < 64
  {
    if r < 64 {
      LowMask(r);
      LowMaskStep(Shr(ONES, r));
      ShrOnes();
      ShrShr(ONES, r, 63 - r);
      ShrZero(63 - r);
    } else {
      BeyondTop(ONES, r);
    }
  }

  function Not(a: Word): Word { !a }

  lemma NotIsXor(a: Word)
    ensures Not(a) == Xor(a, ONES)
  {
  }

  lemma BitOps(a: Word, b: Word, r: nat)
    ensures TestBit(Or(a, b), r) <==> TestBit(a, r) || TestBit(b, r)
    ensures TestBit(And(a, b), r) <==> TestBit(a, r) && TestBit(b, r)
    ensures TestBit(Xor(a, b), r) <==> TestBit(a, r) != TestBit(b, r)
    ensures !TestBit(0, r)
  {
    hide Shr, LowBit, Or, And, Xor;
    ShrOps(a, b, r);
    LowBitOps(Shr(a, r), Shr(b, r));
    ShrZero(r);
  }

  lemma NotBits(a: Word, r: nat)
    requires r < 64
    ensures TestBit(Not(a), r) <==> !TestBit(a, r)
  {
    hide TestBit, Not, Xor;
    NotIsXor(a);
    BitOps(a, ONES, r);
    OnesBits(r);
  }

  /** Bit r of w shifted right by k. */
  lemma ShrBits(w: Word, k: nat, r: nat)
    ensures TestBit(Shr(w, k), r) <==> TestBit(w, r + k)
  {
    ShrShr(w, k, r);
  }

  lemma LeftByOne(w: Word, r: nat)
    requires r < 64
    ensures TestBit(Twice(w), r) <==> r > 0 && TestBit(w, r - 1)
  {
    BackAndForth(w);
    if r > 0 {
      hide Half, Twice, And, LowBit;
      ShrShr(Twice(w), 1, r - 1);
      assert Shr(Twice(w), 1) == Half(Twice(w));
      MaskedBit(w, r - 1);
    }
  }

  lemma MaskedBit(w: Word, r: nat)
    requires r < 63
    ensures TestBit(And(w, Half(ONES)), r) <==> TestBit(w, r)
  {
    assert Shr(ONES, 1) == Half(ONES);
    hide Shr, TestBit, Half, And;
    BitOps(w, Half(ONES), r);
    ShrBits(ONES, 1, r);
    OnesBits(r + 1);
  }

  /** Bit r of w shifted left by k. */
  lemma {:induction false} ShlBits(w: Word, k: nat, r: nat)
    requires r < 64
    ensures TestBit(Shl(w, k), r) <==> r >= k && TestBit(w, r - k)
    decreases k
  {
    hide TestBit, Twice;
    if k > 0 {
      LeftByOne(Shl(w, k - 1), r);
      if r > 0 { ShlBits(w, k - 1, r - 1); }
    }
  }

  /** A word is 0 exactly if no bit is set, and words with the same bits are equal. */
  lemma {:induction false} NoBitsFrom(w: Word, r: nat)
    requires r <= 64 && forall k :: r <= k < 64 ==> !TestBit(w, k)
    ensures Shr(w, r) == 0
    decreases 64 - r
  {
    hide Half;
    if r < 64 {
      NoBitsFrom(w, r + 1);
      assert !TestBit(w, r);
      ZeroStep(Shr(w, r));
    } else {
      BeyondTop(w, 64);
    }
  }

  lemma ZeroIffNoBits(w: Word)
    ensures w == 0 <==> forall k :: 0 <= k < 64 ==> !TestBit(w, k)
  {
    if w == 0 {
      forall k | 0 <= k < 64 ensures !TestBit(w, k) { ShrZero(k); }
    } else if forall k :: 0 <= k < 64 ==> !TestBit(w, k) {
      NoBitsFrom(w, 0);
    }
  }

  /** Half a word and its lowest bit determine it. */
  lemma HalvesDecide(x: Word, y: Word)
    requires Half(x) == Half(y) && LowBit(x) == LowBit(y)
    ensures x == y
  {
  }

  lemma {:induction false} SameBitsFrom(a: Word, b: Word, r: nat)
    requires r <= 64 && forall k :: r <= k < 64 ==> TestBit(a, k) == TestBit(b, k)
    ensures Shr(a, r) == Shr(b, r)
    decreases 64 - r
  {
    hide Half, LowBit;
    if r < 64 {
      SameBitsFrom(a, b, r + 1);
      assert TestBit(a, r) == TestBit(b, r);
      HalvesDecide(Shr(a, r), Shr(b, r));
    } else {
      BeyondTop(a, 64);
      BeyondTop(b, 64);
    }
  }

  lemma SameBits(a: Word, b: Word)
    requires forall k :: 0 <= k < 64 ==> TestBit(a, k) == TestBit(b, k)
    ensures a == b
  {
    hide TestBit;
    SameBitsFrom(a, b, 0);
  }

  // ----- Counting zeros --------------------------------------------------------------------------------

  /** The least bit number from r on that is set in w, or 64. */
  function LeastFrom(w: Word, r: nat): (k: nat)
    requires r <= 64
    ensures r <= k <= 64 && (k < 64 ==> TestBit(w, k)) && forall j :: r <= j < k ==> !TestBit(w, j)
    decreases 64 - r
  {
    if r == 64 then 64 else if TestBit(w, r) then r else LeastFrom(w, r + 1)
  }

  /** `ctzl`. */
  function Ctz(w: Word): (k: nat)
    ensures k <= 64 && (k < 64 ==> TestBit(w, k)) && forall j :: 0 <= j < k ==> !TestBit(w, j)
    ensures k == 64 <==> w == 0
  {
    ZeroIffNoBits(w);
    LeastFrom(w, 0)
  }

  /** The greatest bit number below r that is set in w, or 64. */
  function GreatestBelow(w: Word, r: nat): (k: nat)
    requires r <= 64
    ensures if k == 64 then forall j :: 0 <= j < r ==> !TestBit(w, j)
            else k < r && TestBit(w, k) && forall j :: k < j < r ==> !TestBit(w, j)
    decreases r
  {
    if r == 0 then 64 else if TestBit(w, r - 1) then r - 1 else GreatestBelow(w, r - 1)
  }

  /** `BITS_PER_LONG - 1 - clzl(w)` on a word that is not 0. */
  function TopBit(w: Word): (k: nat)
    ensures if w == 0 then k == 64
            else k < 64 && TestBit(w, k) && forall j :: k < j < 64 ==> !TestBit(w, j)
  {
    ZeroIffNoBits(w);
    GreatestBelow(w, 64)
  }

  // ----- Masks ----------------------------------------------------------------------------------------

  /** `~0UL << n`. */
  function FromBit(n: nat): Word { Shl(ONES, n) }

  lemma FromBitBits(n: nat, r: nat)
    requires r < 64
    ensures TestBit(FromBit(n), r) <==> r >= n
  {
    hide TestBit;
    ShlBits(ONES, n, r);
    if r >= n { OnesBits(r - n); }
  }

  /** `~0UL >> (BITS_PER_LONG - n)`. */
  function BelowBit(n: nat): Word
    requires n <= 64
  {
    Shr(ONES, 64 - n)
  }

  lemma BelowBitBits(n: nat, r: nat)
    requires n <= 64
    ensures TestBit(BelowBit(n), r) <==> r < n
  {
    hide TestBit;
    ShrBits(ONES, 64 - n, r);
    OnesBits(r + 64 - n);
  }

  /** BITMAP_FIRST_WORD_MASK. */
  function FirstMask(start: nat): Word { FromBit(start % 64) }

  /** BITMAP_LAST_WORD_MASK. */
  function LastMask(nbits: nat): Word { BelowBit(if nbits % 64 == 0 then 64 else nbits % 64) }

  // ----- Bitmaps ----------------------------------------------------------------------------------------

  /** Bit k of a bitmap. */
  predicate Bit(words: seq<Word>, k: nat)
    requires k < 64 * |words|
  {
    TestBit(words[k / 64], k % 64)
  }
}
