/** Setting and clearing stretches of bits word by word (qemu-compat/bitmap.c). */
module Bitmaps {
  import opened Bits

  /** words is was with the bits in [from, to) set to v. */
  ghost predicate Painted(words: seq<Word>, was: seq<Word>, from: nat, to: nat, v: bool) {
    && |words| == |was|
    && forall k: nat :: k < 64 * |was| ==> Bit(words, k) == if from <= k < to then v else Bit(was, k)
  }

  /** The same for the bits of one word. */
  ghost predicate WordPainted(w': Word, w: Word, lo: nat, hi: nat, v: bool) {
    forall r: nat :: r < 64 ==> TestBit(w', r) == if lo <= r < hi then v else TestBit(w, r)
  }

  lemma NothingPainted(words: seq<Word>, from: nat, v: bool)
    ensures Painted(words, words, from, from, v)
  {
  }

  /** Painting bits of the word that holds bit `pos` extends the stretch by n bits. */
  lemma PaintWord(words: seq<Word>, was: seq<Word>, start: nat, pos: nat, n: nat, w': Word, v: bool)
    requires Painted(words, was, start, pos, v) && start <= pos && pos % 64 + n <= 64 && pos / 64 < |words|
    requires WordPainted(w', words[pos / 64], pos % 64, pos % 64 + n, v)
    ensures Painted(words[pos / 64 := w'], was, start, pos + n, v)
  {
    hide TestBit;
    var words' := words[pos / 64 := w'];
    forall k: nat | k < 64 * |was| ensures Bit(words', k) == if start <= k < pos + n then v else Bit(was, k) {
      assert Bit(words, k) == if start <= k < pos then v else Bit(was, k);
      if k / 64 == pos / 64 {
        assert TestBit(w', k % 64) == if pos % 64 <= k % 64 < pos % 64 + n then v else TestBit(words[pos / 64], k % 64);
      }
    }
  }

  // ----- Masks -------------------------------------------------------------------------------------

  /** The mask for the word of bit pos when the stretch ends at size. */
  function EdgeMask(pos: nat, size: nat): Word { And(FirstMask(pos), LastMask(size)) }

  lemma EdgeMaskBits(pos: nat, n: nat, r: nat)
    requires r < 64 && 0 < n && pos % 64 + n <= 64
    ensures TestBit(EdgeMask(pos, pos + n), r) <==> pos % 64 <= r < pos % 64 + n
  {
    hide TestBit, And, FromBit, BelowBit;
    BitOps(FirstMask(pos), LastMask(pos + n), r);
    FromBitBits(pos % 64, r);
    BelowBitBits(if (pos + n) % 64 == 0 then 64 else (pos + n) % 64, r);
  }

  lemma FirstMaskBits(pos: nat, r: nat)
    requires r < 64
    ensures TestBit(FirstMask(pos), r) <==> pos % 64 <= r
  {
    hide TestBit, FromBit;
    FromBitBits(pos % 64, r);
  }

  lemma FirstMaskAligned(pos: nat)
    requires pos % 64 == 0
    ensures FirstMask(pos) == ONES
  {
  }

  lemma SetByMask(w: Word, mask: Word, lo: nat, hi: nat)
    requires forall r: nat :: r < 64 ==> (TestBit(mask, r) <==> lo <= r < hi)
    ensures WordPainted(Or(w, mask), w, lo, hi, true)
  {
    hide TestBit, Or;
    forall r: nat | r < 64 ensures TestBit(Or(w, mask), r) == if lo <= r < hi then true else TestBit(w, r) {
      BitOps(w, mask, r);
    }
  }

  lemma ClearByMask(w: Word, mask: Word, lo: nat, hi: nat)
    requires forall r: nat :: r < 64 ==> (TestBit(mask, r) <==> lo <= r < hi)
    ensures WordPainted(And(w, Not(mask)), w, lo, hi, false)
  {
    hide TestBit, And, Not;
    forall r: nat | r < 64 ensures TestBit(And(w, Not(mask)), r) == if lo <= r < hi then false else TestBit(w, r) {
      BitOps(w, Not(mask), r);
      NotBits(mask, r);
    }
  }

  /** The first-word and edge masks, applied. */
  lemma SetWord(w: Word, pos: nat, n: nat)
    requires pos % 64 + n <= 64
    ensures pos % 64 + n == 64 ==> WordPainted(Or(w, FirstMask(pos)), w, pos % 64, pos % 64 + n, true)
    ensures n > 0 ==> WordPainted(Or(w, EdgeMask(pos, pos + n)), w, pos % 64, pos % 64 + n, true)
  {
    hide TestBit, EdgeMask, FirstMask, WordPainted;
    forall r: nat | r < 64 ensures TestBit(FirstMask(pos), r) <==> pos % 64 <= r < 64 { FirstMaskBits(pos, r); }
    SetByMask(w, FirstMask(pos), pos % 64, 64);
    if n > 0 {
      var mask := EdgeMask(pos, pos + n);
      forall r: nat | r < 64 ensures TestBit(mask, r) <==> pos % 64 <= r < pos % 64 + n { EdgeMaskBits(pos, n, r); }
      SetByMask(w, EdgeMask(pos, pos + n), pos % 64, pos % 64 + n);
    }
  }

  lemma ClearWord(w: Word, pos: nat, n: nat)
    requires pos % 64 + n <= 64
    ensures pos % 64 + n == 64 ==> WordPainted(And(w, Not(FirstMask(pos))), w, pos % 64, pos % 64 + n, false)
    ensures n > 0 ==> WordPainted(And(w, Not(EdgeMask(pos, pos + n))), w, pos % 64, pos % 64 + n, false)
  {
    hide TestBit, EdgeMask, FirstMask, WordPainted;
    forall r: nat | r < 64 ensures TestBit(FirstMask(pos), r) <==> pos % 64 <= r < 64 { FirstMaskBits(pos, r); }
    ClearByMask(w, FirstMask(pos), pos % 64, 64);
    if n > 0 {
      var mask := EdgeMask(pos, pos + n);
      forall r: nat | r < 64 ensures TestBit(mask, r) <==> pos % 64 <= r < pos % 64 + n { EdgeMaskBits(pos, n, r); }
      ClearByMask(w, EdgeMask(pos, pos + n), pos % 64, pos % 64 + n);
    }
  }

  // ----- bitmap_set, bitmap_clear ----------------------------------------------------------------------

  /** `bitmap_set`. */
  method Set(bm: array<Word>, start: nat, nr0: nat)
    requires start + nr0 <= 64 * bm.Length
    modifies bm
    ensures Painted(bm[..], old(bm[..]), start, start + nr0, true)
  {
    hide Painted, WordPainted, FirstMask, LastMask, EdgeMask, Or, And;
    var p, size, nr := start / 64, start + nr0, nr0;
    var bitsToSet, mask := 64 - start % 64, FirstMask(start);
    NothingPainted(bm[..], start, true);
    while nr - bitsToSet >= 0
      invariant 0 <= nr <= nr0 && p == (size - nr) / 64 && bitsToSet == 64 - (size - nr) % 64
      invariant mask == FirstMask(size - nr)
      invariant Painted(bm[..], old(bm[..]), start, size - nr, true)
      decreases nr
    {
      SetWord(bm[p], size - nr, bitsToSet);
      PaintWord(bm[..], old(bm[..]), start, size - nr, bitsToSet, Or(bm[p], mask), true);
      bm[p] := Or(bm[p], mask);
      nr := nr - bitsToSet;
      bitsToSet, mask := 64, ONES;
      FirstMaskAligned(size - nr);
      p := p + 1;
    }
    if nr != 0 {
      mask := And(mask, LastMask(size));
      EdgeMaskIs(size - nr, size);
      SetWord(bm[p], size - nr, nr);
      PaintWord(bm[..], old(bm[..]), start, size - nr, nr, Or(bm[p], mask), true);
      bm[p] := Or(bm[p], mask);
    }
  }

  lemma EdgeMaskIs(pos: nat, size: nat)
    ensures EdgeMask(pos, size) == And(FirstMask(pos), LastMask(size))
  {
  }

  /** `bitmap_clear`. */
  method Clear(bm: array<Word>, start: nat, nr0: nat)
    requires start + nr0 <= 64 * bm.Length
    modifies bm
    ensures Painted(bm[..], old(bm[..]), start, start + nr0, false)
  {
    hide Painted, WordPainted, FirstMask, LastMask, EdgeMask, Not, And;
    var p, size, nr := start / 64, start + nr0, nr0;
    var bitsToClear, mask := 64 - start % 64, FirstMask(start);
    NothingPainted(bm[..], start, false);
    while nr - bitsToClear >= 0
      invariant 0 <= nr <= nr0 && p == (size - nr) / 64 && bitsToClear == 64 - (size - nr) % 64
      invariant mask == FirstMask(size - nr)
      invariant Painted(bm[..], old(bm[..]), start, size - nr, false)
      decreases nr
    {
      ClearWord(bm[p], size - nr, bitsToClear);
      PaintWord(bm[..], old(bm[..]), start, size - nr, bitsToClear, And(bm[p], Not(mask)), false);
      bm[p] := And(bm[p], Not(mask));
      nr := nr - bitsToClear;
      bitsToClear, mask := 64, ONES;
      FirstMaskAligned(size - nr);
      p := p + 1;
    }
    if nr != 0 {
      mask := And(mask, LastMask(size));
      EdgeMaskIs(size - nr, size);
      ClearWord(bm[p], size - nr, nr);
      PaintWord(bm[..], old(bm[..]), start, size - nr, nr, And(bm[p], Not(mask)), false);
      bm[p] := And(bm[p], Not(mask));
    }
  }

  // ----- The atomic forms --------------------------------------------------------------------------------

  lemma FullWord(w: Word)
    ensures WordPainted(ONES, w, 0, 64, true) && WordPainted(0, w, 0, 64, false)
  {
    hide TestBit;
    forall r: nat | r < 64 ensures TestBit(ONES, r) && !TestBit(0, r) {
      OnesBits(r);
      BitOps(0, 0, r);
    }
  }

  /** The loop of the atomic form over full words; nr bits are left. */
  method SetFullWords(bm: array<Word>, ghost was: seq<Word>, ghost start: nat, size: nat, nr0: nat) returns (nr: nat)
    requires start + nr0 <= size <= 64 * bm.Length && (size - nr0) % 64 == 0
    requires Painted(bm[..], was, start, size - nr0, true)
    modifies bm
    ensures nr <= nr0 && nr < 64 && (size - nr) % 64 == 0 && Painted(bm[..], was, start, size - nr, true)
  {
    hide Painted, WordPainted;
    nr := nr0;
    var p := (size - nr) / 64;
    while nr >= 64
      invariant 0 <= nr <= nr0 && p == (size - nr) / 64 && (size - nr) % 64 == 0
      invariant Painted(bm[..], was, start, size - nr, true)
    {
      FullWord(bm[p]);
      PaintWord(bm[..], was, start, size - nr, 64, ONES, true);
      bm[p] := ONES;
      nr := nr - 64;
      p := p + 1;
    }
  }

  /** `bitmap_set_atomic`, which leaves a stretch ending with its first word to the last step. */
  method SetAtomic(bm: array<Word>, start: nat, nr0: nat)
    requires start + nr0 <= 64 * bm.Length
    modifies bm
    ensures Painted(bm[..], old(bm[..]), start, start + nr0, true)
  {
    hide Painted, WordPainted, FirstMask, LastMask, EdgeMask, Or, And;
    var p, size, nr := start / 64, start + nr0, nr0;
    var bitsToSet, mask := 64 - start % 64, FirstMask(start);
    NothingPainted(bm[..], start, true);
    if nr - bitsToSet > 0 {
      SetWord(bm[p], start, bitsToSet);
      PaintWord(bm[..], old(bm[..]), start, start, bitsToSet, Or(bm[p], mask), true);
      bm[p] := Or(bm[p], mask);
      nr := nr - bitsToSet;
      bitsToSet, mask := 64, ONES;
      FirstMaskAligned(size - nr);
      p := p + 1;
    }
    if bitsToSet == 64 {
      nr := SetFullWords(bm, old(bm[..]), start, size, nr);
      FirstMaskAligned(size - nr);
      p := (size - nr) / 64;
    }
    if nr != 0 {
      mask := And(mask, LastMask(size));
      EdgeMaskIs(size - nr, size);
      SetWord(bm[p], size - nr, nr);
      PaintWord(bm[..], old(bm[..]), start, size - nr, nr, Or(bm[p], mask), true);
      bm[p] := Or(bm[p], mask);
    }
  }

  /** Some bit in [from, to) is set. */
  ghost predicate AnySet(words: seq<Word>, from: nat, to: nat) {
    exists k: nat :: from <= k < to && k < 64 * |words| && Bit(words, k)
  }

  lemma AnySetSplits(words: seq<Word>, from: nat, mid: nat, to: nat)
    requires from <= mid <= to
    ensures AnySet(words, from, to) <==> AnySet(words, from, mid) || AnySet(words, mid, to)
  {
    hide Bit;
  }

  /** The bits of one word in terms of bit numbers of the bitmap. */
  lemma WordOf(words: seq<Word>, pos: nat, lo: nat, hi: nat)
    requires pos / 64 < |words| && pos % 64 == lo <= hi <= 64
    ensures AnySet(words, pos, pos + hi - lo) <==> exists r: nat :: lo <= r < hi && TestBit(words[pos / 64], r)
  {
    hide TestBit;
    var p := pos / 64;
    if r: nat :| lo <= r < hi && TestBit(words[p], r) {
      assert Bit(words, p * 64 + r);
    }
  }

  /** The next word of a partly cleared bitmap, masked, tells whether one of n bits was set. */
  lemma DirtyWord(words: seq<Word>, was: seq<Word>, start: nat, pos: nat, n: nat, mask: Word, dirty: Word)
    requires Painted(words, was, start, pos, false) && start <= pos && pos % 64 + n <= 64 && pos / 64 < |words|
    requires forall r: nat :: r < 64 ==> (TestBit(mask, r) <==> pos % 64 <= r < pos % 64 + n)
    requires dirty != 0 <==> AnySet(was, start, pos)
    ensures Or(dirty, And(words[pos / 64], mask)) != 0 <==> AnySet(was, start, pos + n)
  {
    hide TestBit, Or, And, AnySet;
    AnySetSplits(was, start, pos, pos + n);
    RestUntouched(words, was, start, pos, n);
    WordOf(words, pos, pos % 64, pos % 64 + n);
    MaskedWord(words[pos / 64], mask, pos % 64, pos % 64 + n);
    OrIsZero(dirty, And(words[pos / 64], mask));
  }

  lemma RestUntouched(words: seq<Word>, was: seq<Word>, start: nat, pos: nat, n: nat)
    requires Painted(words, was, start, pos, false)
    ensures AnySet(words, pos, pos + n) <==> AnySet(was, pos, pos + n)
  {
    hide Bit;
  }

  lemma MaskedWord(w: Word, mask: Word, lo: nat, hi: nat)
    requires hi <= 64 && forall r: nat :: r < 64 ==> (TestBit(mask, r) <==> lo <= r < hi)
    ensures And(w, mask) != 0 <==> exists r: nat :: lo <= r < hi && TestBit(w, r)
  {
    hide TestBit, And;
    ZeroIffNoBits(And(w, mask));
    forall r: nat | r < 64 ensures TestBit(And(w, mask), r) <==> lo <= r < hi && TestBit(w, r) {
      BitOps(w, mask, r);
    }
  }

  lemma OrIsZero(a: Word, b: Word)
    ensures Or(a, b) == 0 <==> a == 0 && b == 0
  {
  }

  lemma NothingDirty(words: seq<Word>, from: nat)
    ensures !AnySet(words, from, from)
  {
  }

  /** The masks of a full first word and of an edge word. */
  lemma MasksAreStretches(pos: nat, n: nat)
    requires pos % 64 + n <= 64
    ensures pos % 64 + n == 64 ==>
              forall r: nat :: r < 64 ==> (TestBit(FirstMask(pos), r) <==> pos % 64 <= r < pos % 64 + n)
    ensures n > 0 ==>
              var mask := EdgeMask(pos, pos + n);
              forall r: nat :: r < 64 ==> (TestBit(mask, r) <==> pos % 64 <= r < pos % 64 + n)
  {
    hide TestBit, EdgeMask, FirstMask;
    forall r: nat | r < 64 ensures TestBit(FirstMask(pos), r) <==> pos % 64 <= r { FirstMaskBits(pos, r); }
    if n > 0 {
      var mask := EdgeMask(pos, pos + n);
      forall r: nat | r < 64 ensures TestBit(mask, r) <==> pos % 64 <= r < pos % 64 + n { EdgeMaskBits(pos, n, r); }
    }
  }

  lemma MaskedByOnes(w: Word)
    ensures And(w, ONES) == w && And(w, Not(w)) == 0 && Or(w, 0) == w
  {
  }

  /** One whole word is exchanged for 0. */
  lemma ExchangeWord(words: seq<Word>, was: seq<Word>, start: nat, pos: nat, dirty: Word)
    requires Painted(words, was, start, pos, false) && start <= pos && pos % 64 == 0 && pos / 64 < |words|
    requires dirty != 0 <==> AnySet(was, start, pos)
    ensures Painted(words[pos / 64 := 0], was, start, pos + 64, false)
    ensures (if words[pos / 64] != 0 then Or(dirty, words[pos / 64]) else dirty) != 0 <==> AnySet(was, start, pos + 64)
  {
    hide Painted, TestBit, WordPainted, AnySet, Or, And, FirstMask;
    FullWord(words[pos / 64]);
    PaintWord(words, was, start, pos, 64, 0, false);
    MasksAreStretches(pos, 64);
    FirstMaskAligned(pos);
    DirtyWord(words, was, start, pos, 64, ONES, dirty);
    MaskedByOnes(words[pos / 64]);
    MaskedByOnes(dirty);
  }

  /** One word is cleared by a mask. */
  lemma ClearDirty(words: seq<Word>, was: seq<Word>, start: nat, pos: nat, n: nat, mask: Word, dirty: Word)
    requires Painted(words, was, start, pos, false) && start <= pos && pos % 64 + n <= 64 && pos / 64 < |words|
    requires (pos % 64 + n == 64 && mask == FirstMask(pos)) || (n > 0 && mask == EdgeMask(pos, pos + n))
    requires dirty != 0 <==> AnySet(was, start, pos)
    ensures Painted(words[pos / 64 := And(words[pos / 64], Not(mask))], was, start, pos + n, false)
    ensures Or(dirty, And(words[pos / 64], mask)) != 0 <==> AnySet(was, start, pos + n)
  {
    hide Painted, TestBit, WordPainted, AnySet, Or, And, Not, FirstMask, EdgeMask;
    ClearWord(words[pos / 64], pos, n);
    PaintWord(words, was, start, pos, n, And(words[pos / 64], Not(mask)), false);
    MasksAreStretches(pos, n);
    DirtyWord(words, was, start, pos, n, mask, dirty);
  }

  /** The loop over full words, which are exchanged for 0 unless they are 0 already. */
  method ClearFullWords(bm: array<Word>, ghost was: seq<Word>, ghost start: nat, size: nat, nr0: nat, dirty0: Word)
    returns (nr: nat, dirty: Word)
    requires start + nr0 <= size <= 64 * bm.Length && (size - nr0) % 64 == 0
    requires Painted(bm[..], was, start, size - nr0, false) && (dirty0 != 0 <==> AnySet(was, start, size - nr0))
    modifies bm
    ensures nr <= nr0 && nr < 64 && (size - nr) % 64 == 0 && Painted(bm[..], was, start, size - nr, false)
    ensures dirty != 0 <==> AnySet(was, start, size - nr)
  {
    hide Painted, AnySet, Or;
    nr, dirty := nr0, dirty0;
    var p := (size - nr) / 64;
    while nr >= 64
      invariant 0 <= nr <= nr0 && p == (size - nr) / 64 && (size - nr) % 64 == 0
      invariant Painted(bm[..], was, start, size - nr, false)
      invariant dirty != 0 <==> AnySet(was, start, size - nr)
    {
      ExchangeWord(bm[..], was, start, size - nr, dirty);
      if bm[p] != 0 {
        dirty := Or(dirty, bm[p]);
        bm[p] := 0;
      } else {
        assert bm[..][p := 0] == bm[..];
      }
      nr := nr - 64;
      p := p + 1;
    }
  }

  /** `bitmap_test_and_clear_atomic`: clears the stretch and tells whether a bit in it was set. */
  method TestAndClear(bm: array<Word>, start: nat, nr0: nat) returns (wasDirty: bool)
    requires start + nr0 <= 64 * bm.Length
    modifies bm
    ensures Painted(bm[..], old(bm[..]), start, start + nr0, false)
    ensures wasDirty <==> AnySet(old(bm[..]), start, start + nr0)
  {
    hide Painted, AnySet, FirstMask, LastMask, EdgeMask, Or, And, Not;
    var p, size, nr := start / 64, start + nr0, nr0;
    var bitsToClear, mask := 64 - start % 64, FirstMask(start);
    var dirty: Word := 0;
    NothingPainted(bm[..], start, false);
    NothingDirty(bm[..], start);
    if nr - bitsToClear > 0 {
      ClearDirty(bm[..], old(bm[..]), start, start, bitsToClear, mask, dirty);
      var oldBits := bm[p];
      bm[p] := And(oldBits, Not(mask));
      dirty := Or(dirty, And(oldBits, mask));
      nr := nr - bitsToClear;
      bitsToClear, mask := 64, ONES;
      FirstMaskAligned(size - nr);
      p := p + 1;
    }
    if bitsToClear == 64 {
      nr, dirty := ClearFullWords(bm, old(bm[..]), start, size, nr, dirty);
      FirstMaskAligned(size - nr);
      p := (size - nr) / 64;
    }
    if nr != 0 {
      mask := And(mask, LastMask(size));
      EdgeMaskIs(size - nr, size);
      ClearDirty(bm[..], old(bm[..]), start, size - nr, nr, mask, dirty);
      var oldBits := bm[p];
      bm[p] := And(oldBits, Not(mask));
      dirty := Or(dirty, And(oldBits, mask));
    }
    wasDirty := dirty != 0;
  }
}
