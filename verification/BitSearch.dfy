/** Searching bitmaps word by word (qemu-compat/bitops.c, `bitmap_find_next_zero_area`). */
module BitSearch {
  import NatBits
  import opened Arithmetic
  import opened Bits

  /** No bit in [from, to) has value v. */
  ghost predicate NoneIn(words: seq<Word>, v: bool, from: nat, to: nat) {
    forall k: nat :: from <= k < to && k < 64 * |words| ==> Bit(words, k) != v
  }

  /** r is the least number from `offset` on whose bit has value v, or `size` if there is none
      below `size`. */
  ghost predicate IsNext(words: seq<Word>, v: bool, size: nat, offset: nat, r: nat)
    requires size <= 64 * |words|
  {
    if offset >= size then r == size
    else offset <= r <= size && NoneIn(words, v, offset, r) && (r < size ==> Bit(words, r) == v)
  }

  /** What remains to be looked at: `tmp` holds, as set bits, the bits of value v of the word
      at `result` from `offset` on; everything before has been ruled out. */
  ghost predicate Pending(words: seq<Word>, v: bool, offset: nat, result: nat, tmp: Word) {
    && result % 64 == 0 && result / 64 < |words| && NoneIn(words, v, offset, result)
    && forall r: nat :: r < 64 ==> (TestBit(tmp, r) <==> result + r >= offset && TestBit(words[result / 64], r) == v)
  }

  /** `found_middle`. */
  lemma FoundMiddle(words: seq<Word>, v: bool, offset: nat, result: nat, tmp: Word, size: nat)
    requires Pending(words, v, offset, result, tmp) && tmp != 0 && offset < size <= 64 * |words|
    requires result + Ctz(tmp) < size
    ensures IsNext(words, v, size, offset, result + Ctz(tmp))
  {
    hide TestBit;
    var c := Ctz(tmp);
    forall k: nat | offset <= k < result + c ensures Bit(words, k) != v {
      if k >= result {
        assert !TestBit(tmp, k - result);
        BitInWord(words, result, k);
      }
    }
    BitInWord(words, result, result + c);
  }

  lemma BitInWord(words: seq<Word>, result: nat, k: nat)
    requires result % 64 == 0 && result / 64 < |words| && result <= k < result + 64
    ensures k < 64 * |words| && Bit(words, k) == TestBit(words[result / 64], k - result)
  {
    hide TestBit;
    assert k / 64 == result / 64 && k % 64 == k - result;
  }

  /** A word without a match is ruled out. */
  lemma RuledOut(words: seq<Word>, v: bool, offset: nat, result: nat, tmp: Word, n: nat)
    requires Pending(words, v, offset, result, tmp) && n <= 64
    requires forall r: nat :: r < n ==> !TestBit(tmp, r)
    ensures NoneIn(words, v, offset, result + n)
  {
    hide TestBit;
    forall k: nat | offset <= k < result + n && k < 64 * |words| ensures Bit(words, k) != v {
      if k >= result {
        assert k / 64 == result / 64 && !TestBit(tmp, k - result);
      }
    }
  }

  lemma MaskedBits(tmp: Word, size: nat)
    requires size < 64
    ensures forall r: nat :: r < 64 ==> (TestBit(And(tmp, BelowBit(size)), r) <==> r < size && TestBit(tmp, r))
  {
    hide TestBit, And, BelowBit;
    forall r: nat | r < 64 ensures TestBit(And(tmp, BelowBit(size)), r) <==> r < size && TestBit(tmp, r) {
      BitOps(tmp, BelowBit(size), r);
      BelowBitBits(size, r);
    }
  }

  /** `found_first`: the last, partial word. */
  lemma FoundFirst(words: seq<Word>, v: bool, offset: nat, result: nat, tmp: Word, size: nat)
    requires Pending(words, v, offset, result, tmp) && 0 < size < 64 && offset < result + size <= 64 * |words|
    ensures var masked := And(tmp, BelowBit(size));
            IsNext(words, v, result + size, offset, if masked == 0 then result + size else result + Ctz(masked))
  {
    hide TestBit, And, BelowBit;
    var masked := And(tmp, BelowBit(size));
    MaskedBits(tmp, size);
    if masked == 0 {
      ZeroIffNoBits(masked);
      RuledOut(words, v, offset, result, tmp, size);
    } else {
      var c := Ctz(masked);
      forall r: nat | r < c ensures !TestBit(tmp, r) { assert !TestBit(masked, r); }
      RuledOut(words, v, offset, result, tmp, c);
    }
  }

  /** The word at a boundary, before any masking. */
  lemma FreshWord(words: seq<Word>, v: bool, offset: nat, result: nat)
    requires result % 64 == 0 && result / 64 < |words| && offset <= result && NoneIn(words, v, offset, result)
    ensures Pending(words, v, offset, result, if v then words[result / 64] else Not(words[result / 64]))
  {
    hide TestBit, Not, NoneIn;
    forall r: nat | r < 64 { NotBits(words[result / 64], r); }
  }

  /** The first word, with the bits below the offset masked out. */
  lemma FirstWord(words: seq<Word>, offset: nat)
    requires offset / 64 < |words| && offset % 64 != 0
    ensures var w, result := words[offset / 64], offset - offset % 64;
            && Pending(words, true, offset, result, And(w, FromBit(offset % 64)))
            && Pending(words, false, offset, result, Not(Or(w, BelowBit(offset % 64))))
  {
    hide TestBit, And, Or, Not, FromBit, BelowBit;
    var w, result := words[offset / 64], offset - offset % 64;
    forall r: nat | r < 64
      ensures TestBit(And(w, FromBit(offset % 64)), r) <==> result + r >= offset && TestBit(w, r)
      ensures TestBit(Not(Or(w, BelowBit(offset % 64))), r) <==> result + r >= offset && !TestBit(w, r)
    {
      BitOps(w, FromBit(offset % 64), r);
      FromBitBits(offset % 64, r);
      BitOps(w, BelowBit(offset % 64), r);
      BelowBitBits(offset % 64, r);
      NotBits(Or(w, BelowBit(offset % 64)), r);
    }
  }

  /** A word without a match is passed over. */
  lemma Passed(words: seq<Word>, v: bool, offset: nat, result: nat, tmp: Word)
    requires Pending(words, v, offset, result, tmp) && tmp == 0
    ensures NoneIn(words, v, offset, result + 64)
  {
    hide TestBit;
    ZeroIffNoBits(tmp);
    RuledOut(words, v, offset, result, tmp, 64);
  }

  /** The step of the unrolled loop: four words of zeros. */
  lemma FourPassed(words: seq<Word>, offset: nat, result: nat)
    requires result % 64 == 0 && result / 64 + 3 < |words| && offset <= result && NoneIn(words, true, offset, result)
    requires words[result / 64] == 0
    requires Or(Or(words[result / 64 + 1], words[result / 64 + 2]), words[result / 64 + 3]) == 0
    ensures NoneIn(words, true, offset, result + 4 * 64)
  {
    hide Or, NoneIn;
    ThreeZeros(words[result / 64 + 1], words[result / 64 + 2], words[result / 64 + 3]);
    ZeroPassed(words, offset, result);
    ZeroPassed(words, offset, result + 64);
    ZeroPassed(words, offset, result + 128);
    ZeroPassed(words, offset, result + 192);
  }

  lemma ZeroPassed(words: seq<Word>, offset: nat, result: nat)
    requires result % 64 == 0 && result / 64 < |words| && offset <= result && NoneIn(words, true, offset, result)
    requires words[result / 64] == 0
    ensures NoneIn(words, true, offset, result + 64)
  {
    hide Pending, NoneIn;
    FreshWord(words, true, offset, result);
    Passed(words, true, offset, result, 0);
  }

  /** The unrolled loop of `find_next_bit`: passes over groups of four zero words.  If it
      stops at a word that is not zero, tmp is that word (and the C code jumps). */
  method SkipFours(bm: array<Word>, ghost offset0: nat, result0: nat, size0: nat) returns (result: nat, size: nat, tmp: Word)
    requires result0 + size0 <= 64 * bm.Length && result0 % 64 == 0 && offset0 <= result0
    requires NoneIn(bm[..], true, offset0, result0)
    ensures result0 <= result && result + size == result0 + size0 && result % 64 == 0
    ensures NoneIn(bm[..], true, offset0, result)
    ensures tmp != 0 ==> size >= 64 && tmp == bm[result / 64]
  {
    hide NoneIn, Or;
    result, size, tmp := result0, size0, 0;
    var p := result / 64;
    while size >= 4 * 64
      invariant result0 <= result && result + size == result0 + size0 && result % 64 == 0 && p == result / 64
      invariant NoneIn(bm[..], true, offset0, result) && tmp == 0
      decreases size
    {
      tmp := bm[p];
      var d1, d2, d3 := bm[p + 1], bm[p + 2], bm[p + 3];
      if tmp != 0 {
        return;
      }
      if Or(Or(d1, d2), d3) != 0 {
        return;
      }
      FourPassed(bm[..], offset0, result);
      p, result, size := p + 4, result + 4 * 64, size - 4 * 64;
    }
  }

  /** `find_next_bit`. */
  method FindNextBit(bm: array<Word>, size0: nat, offset0: nat) returns (r: nat)
    requires size0 <= 64 * bm.Length
    ensures IsNext(bm[..], true, size0, offset0, r)
  {
    hide TestBit, Pending, NoneIn, And, FromBit, BelowBit, IsNext;
    var result: nat := offset0 - offset0 % 64;
    if offset0 >= size0 {
      PastTheEnd(bm[..], true, size0, offset0);
      return size0;
    }
    var size: nat, offset := size0 - result, offset0 % 64;
    NothingRuledOut(bm[..], true, offset0, result);
    if offset != 0 {
      var tmp := And(bm[offset0 / 64], FromBit(offset));
      FirstWord(bm[..], offset0);
      if size < 64 {
        r := LastWord(bm, true, size0, offset0, result, size, tmp);
        return;
      }
      if tmp != 0 {
        FoundMiddle(bm[..], true, offset0, result, tmp, size0);
        return result + Ctz(tmp);
      }
      Passed(bm[..], true, offset0, result, tmp);
      size, result := size - 64, result + 64;
    }
    r := ScanWords(bm, size0, offset0, result, size);
  }

  /** `find_next_bit` from a word boundary on. */
  method ScanWords(bm: array<Word>, ghost size0: nat, ghost offset0: nat, result0: nat, remaining: nat) returns (r: nat)
    requires size0 <= 64 * bm.Length && result0 + remaining == size0 && result0 % 64 == 0
    requires offset0 <= result0 && offset0 < size0 && NoneIn(bm[..], true, offset0, result0)
    ensures IsNext(bm[..], true, size0, offset0, r)
  {
    hide TestBit, Pending, NoneIn, IsNext;
    var result, size, tmp := SkipFours(bm, offset0, result0, remaining);
    if tmp != 0 {
      FreshWord(bm[..], true, offset0, result);
      FoundMiddle(bm[..], true, offset0, result, tmp, size0);
      return result + Ctz(tmp);
    }
    var p := result / 64;
    while size >= 64
      invariant result + size == size0 && result % 64 == 0 && p == result / 64 && offset0 <= result
      invariant NoneIn(bm[..], true, offset0, result)
      decreases size
    {
      tmp := bm[p];
      p := p + 1;
      FreshWord(bm[..], true, offset0, result);
      if tmp != 0 {
        FoundMiddle(bm[..], true, offset0, result, tmp, size0);
        return result + Ctz(tmp);
      }
      Passed(bm[..], true, offset0, result, tmp);
      result, size := result + 64, size - 64;
    }
    if size == 0 {
      NoneLeft(bm[..], true, size0, offset0);
      return result;
    }
    tmp := bm[p];
    FreshWord(bm[..], true, offset0, result);
    r := LastWord(bm, true, size0, offset0, result, size, tmp);
  }

  lemma ThreeZeros(a: Word, b: Word, c: Word)
    ensures Or(Or(a, b), c) == 0 <==> a == 0 && b == 0 && c == 0
  {
  }

  lemma PastTheEnd(words: seq<Word>, v: bool, size: nat, offset: nat)
    requires size <= 64 * |words| && offset >= size
    ensures IsNext(words, v, size, offset, size)
  {
  }

  lemma NoneLeft(words: seq<Word>, v: bool, size: nat, offset: nat)
    requires size <= 64 * |words| && offset < size && NoneIn(words, v, offset, size)
    ensures IsNext(words, v, size, offset, size)
  {
  }

  lemma NothingRuledOut(words: seq<Word>, v: bool, offset: nat, result: nat)
    requires result <= offset
    ensures NoneIn(words, v, offset, result)
  {
  }

  /** `found_first` and what follows; tmp has a set bit for each candidate. */
  method LastWord(bm: array<Word>, ghost v: bool, ghost size0: nat, ghost offset0: nat, result: nat, size: nat, tmp0: Word)
    returns (r: nat)
    requires size0 <= 64 * bm.Length && result + size == size0 && 0 < size < 64 && offset0 < size0
    requires Pending(bm[..], v, offset0, result, tmp0)
    ensures IsNext(bm[..], v, size0, offset0, r)
  {
    hide Pending, And, BelowBit, IsNext;
    FoundFirst(bm[..], v, offset0, result, tmp0, size);
    var tmp := And(tmp0, BelowBit(size));
    if tmp == 0 {
      return result + size;
    }
    r := result + Ctz(tmp);
  }

  /** `found_first` of `find_next_zero_bit`: the bits from size on are set. */
  method LastZeroWord(bm: array<Word>, ghost size0: nat, ghost offset0: nat, result: nat, size: nat, tmp0: Word)
    returns (r: nat)
    requires size0 <= 64 * bm.Length && result + size == size0 && 0 < size < 64 && offset0 < size0
    requires Pending(bm[..], false, offset0, result, Not(tmp0))
    ensures IsNext(bm[..], false, size0, offset0, r)
  {
    hide Pending, Not, Or, And, FromBit, BelowBit, IsNext;
    FoundFirst(bm[..], false, offset0, result, Not(tmp0), size);
    var tmp := Or(tmp0, FromBit(size));
    NotMasked(tmp0, size);
    NotOnes(tmp);
    if tmp == ONES {
      return result + size;
    }
    r := result + Ctz(Not(tmp));
  }

  lemma NotOnes(w: Word)
    ensures Not(w) == 0 <==> w == ONES
  {
  }

  lemma NotMasked(w: Word, n: nat)
    requires 0 < n < 64
    ensures Not(Or(w, FromBit(n))) == And(Not(w), BelowBit(n))
  {
    hide TestBit, Not, Or, And, FromBit, BelowBit;
    var x, y := Not(Or(w, FromBit(n))), And(Not(w), BelowBit(n));
    forall r: nat | r < 64 ensures TestBit(x, r) == TestBit(y, r) {
      NotBits(Or(w, FromBit(n)), r);
      BitOps(w, FromBit(n), r);
      FromBitBits(n, r);
      NotBits(w, r);
      BitOps(Not(w), BelowBit(n), r);
      BelowBitBits(n, r);
    }
    SameBits(x, y);
  }

  /** `find_next_zero_bit`. */
  method FindNextZeroBit(bm: array<Word>, size0: nat, offset0: nat) returns (r: nat)
    requires size0 <= 64 * bm.Length
    ensures IsNext(bm[..], false, size0, offset0, r)
  {
    hide TestBit, Pending, NoneIn, Not, Or, BelowBit, IsNext;
    var p: nat, result: nat := offset0 / 64, offset0 - offset0 % 64;
    if offset0 >= size0 {
      PastTheEnd(bm[..], false, size0, offset0);
      return size0;
    }
    var size: nat, offset := size0 - result, offset0 % 64;
    var tmp: Word;
    NothingRuledOut(bm[..], false, offset0, result);
    if offset != 0 {
      tmp := Or(bm[p], BelowBit(offset));
      p := p + 1;
      FirstWord(bm[..], offset0);
      if size < 64 {
        r := LastZeroWord(bm, size0, offset0, result, size, tmp);
        return;
      }
      if Not(tmp) != 0 {
        FoundMiddle(bm[..], false, offset0, result, Not(tmp), size0);
        return result + Ctz(Not(tmp));
      }
      Passed(bm[..], false, offset0, result, Not(tmp));
      size, result := size - 64, result + 64;
    }
    r := ScanZeroWords(bm, size0, offset0, result, size);
  }

  /** `find_next_zero_bit` from a word boundary on. */
  method ScanZeroWords(bm: array<Word>, ghost size0: nat, ghost offset0: nat, result0: nat, remaining: nat)
    returns (r: nat)
    requires size0 <= 64 * bm.Length && result0 + remaining == size0 && result0 % 64 == 0
    requires offset0 <= result0 && offset0 < size0 && NoneIn(bm[..], false, offset0, result0)
    ensures IsNext(bm[..], false, size0, offset0, r)
  {
    hide TestBit, Pending, NoneIn, Not, IsNext;
    var p, result: nat, size: nat := result0 / 64, result0, remaining;
    var tmp: Word;
    while size >= 64
      invariant result + size == size0 && result % 64 == 0 && p == result / 64 && offset0 <= result
      invariant NoneIn(bm[..], false, offset0, result)
      decreases size
    {
      tmp := bm[p];
      p := p + 1;
      FreshWord(bm[..], false, offset0, result);
      if Not(tmp) != 0 {
        FoundMiddle(bm[..], false, offset0, result, Not(tmp), size0);
        return result + Ctz(Not(tmp));
      }
      Passed(bm[..], false, offset0, result, Not(tmp));
      result, size := result + 64, size - 64;
    }
    if size == 0 {
      NoneLeft(bm[..], false, size0, offset0);
      return result;
    }
    tmp := bm[p];
    FreshWord(bm[..], false, offset0, result);
    r := LastZeroWord(bm, size0, offset0, result, size, tmp);
  }

  // ----- find_last_bit -----------------------------------------------------------------------------------

  /** r is the greatest number below `size` whose bit is set, or `size` if there is none. */
  ghost predicate IsLast(words: seq<Word>, size: nat, r: nat)
    requires size <= 64 * |words|
  {
    if r == size then NoneIn(words, true, 0, size)
    else r < size && Bit(words, r) && NoneIn(words, true, r + 1, size)
  }

  /** The bits of tmp are the set bits of the word at `words * 64`, below `size`. */
  ghost predicate TopWord(words: seq<Word>, size: nat, w: nat, tmp: Word) {
    && w < |words| && NoneIn(words, true, 64 * w + 64, size)
    && forall r: nat :: r < 64 ==> (TestBit(tmp, r) <==> 64 * w + r < size && TestBit(words[w], r))
  }

  lemma FoundLast(words: seq<Word>, size: nat, w: nat, tmp: Word)
    requires size <= 64 * |words| && TopWord(words, size, w, tmp)
    ensures tmp != 0 ==> IsLast(words, size, w * 64 + TopBit(tmp))
    ensures tmp == 0 ==> NoneIn(words, true, 64 * w, size)
  {
    hide TestBit;
    ZeroIffNoBits(tmp);
    var c := TopBit(tmp);
    forall k: nat | 64 * w <= k < size && k < 64 * |words| && (tmp == 0 || k > 64 * w + c) ensures !Bit(words, k) {
      if k < 64 * w + 64 {
        assert k / 64 == w && !TestBit(tmp, k - 64 * w);
      }
    }
    if tmp != 0 {
      assert (w * 64 + c) / 64 == w;
    }
  }

  lemma WholeWord(words: seq<Word>, size: nat, w: nat)
    requires w < |words| && 64 * w + 64 <= size && NoneIn(words, true, 64 * w + 64, size)
    ensures TopWord(words, size, w, words[w])
  {
  }

  lemma PartWord(words: seq<Word>, size: nat)
    requires size % 64 != 0 && size < 64 * |words|
    ensures TopWord(words, size, size / 64, And(words[size / 64], BelowBit(size % 64)))
  {
    hide TestBit, And, BelowBit;
    var w := size / 64;
    forall r: nat | r < 64
      ensures TestBit(And(words[w], BelowBit(size % 64)), r) <==> 64 * w + r < size && TestBit(words[w], r)
    {
      BitOps(words[w], BelowBit(size % 64), r);
      BelowBitBits(size % 64, r);
    }
  }

  /** `find_last_bit`. */
  method FindLastBit(bm: array<Word>, size: nat) returns (r: nat)
    requires size <= 64 * bm.Length
    ensures IsLast(bm[..], size, r)
  {
    hide TestBit, And, BelowBit, NoneIn, TopWord, IsLast;
    var words: nat := size / 64;
    NothingAbove(bm[..], size);
    if size % 64 != 0 {
      var tmp := And(bm[words], BelowBit(size % 64));
      PartWord(bm[..], size);
      FoundLast(bm[..], size, words, tmp);
      if tmp != 0 {
        return words * 64 + TopBit(tmp);
      }
    }
    while words > 0
      invariant words <= size / 64 && NoneIn(bm[..], true, 64 * words, size)
    {
      words := words - 1;
      var tmp := bm[words];
      WholeWord(bm[..], size, words);
      FoundLast(bm[..], size, words, tmp);
      if tmp != 0 {
        return words * 64 + TopBit(tmp);
      }
    }
    r := size;
    NoLast(bm[..], size);
  }

  lemma NothingAbove(words: seq<Word>, size: nat)
    ensures NoneIn(words, true, size, size)
  {
  }

  lemma NoLast(words: seq<Word>, size: nat)
    requires size <= 64 * |words| && NoneIn(words, true, 0, size)
    ensures IsLast(words, size, size)
  {
  }

  // ----- bitmap_find_next_zero_area ---------------------------------------------------------------------

  /** a is the start of nr zero bits below `size`, at a multiple of `align` not below `start`. */
  ghost predicate IsArea(words: seq<Word>, size: nat, start: nat, nr: nat, align: nat, a: nat)
    requires align > 0
  {
    a >= start && a % align == 0 && a + nr <= size && NoneIn(words, true, a, a + nr)
  }

  /** The least multiple of `align` that is not below x. */
  function AlignUp(x: nat, align: nat): (y: nat)
    requires align > 0
    ensures x <= y < x + align && y % align == 0
    ensures forall a: nat :: a >= x && a % align == 0 ==> a >= y
  {
    var q := (x + align - 1) / align;
    AlignedUp(x, align);
    q * align
  }

  lemma AlignedUp(x: nat, align: nat)
    requires align > 0
    ensures var y := (x + align - 1) / align * align;
            && x <= y < x + align && y % align == 0
            && forall a: nat :: a >= x && a % align == 0 ==> a >= y
  {
    var q := (x + align - 1) / align;
    DivModUnique(q, 0, align);
    forall a: nat | a >= x && a % align == 0 ensures a >= q * align {
      var m := a / align;
      assert a == m * align;
      DivModUnique(m, align - 1, align);
      DivMonotone(x + align - 1, m * align + align - 1, align);
      MulMonotone(q, m, align);
    }
  }

  /** `ALIGN_MASK` rounds up to a multiple of `mask + 1`, a power of two. */
  lemma AlignMaskRounds(x: nat, mask: nat)
    requires NatBits.IsPow2(mask + 1)
    ensures NatBits.AndNot(x + mask, mask) == AlignUp(x, mask + 1)
  {
    NatBits.AndNotMask(x + mask, mask + 1);
  }

  /** An area starts at or after the next zero bit, aligned. */
  lemma AreaAfterZero(words: seq<Word>, size: nat, start: nat, nr: nat, align: nat, z: nat, a: nat)
    requires size <= 64 * |words| && align > 0 && nr > 0 && IsNext(words, false, size, start, z)
    requires IsArea(words, size, start, nr, align, a)
    ensures a >= AlignUp(z, align)
  {
    hide Bit, AlignUp;
    assert !Bit(words, a);
  }

  /** An area does not contain a set bit. */
  lemma AreaAfterSet(words: seq<Word>, size: nat, start: nat, nr: nat, align: nat, index: nat, i: nat, a: nat)
    requires size <= 64 * |words| && align > 0 && index + nr <= size
    requires IsNext(words, true, index + nr, index, i) && i < index + nr
    requires IsArea(words, size, start, nr, align, a) && a >= index
    ensures a > i
  {
    hide Bit;
    assert Bit(words, i);
  }

  /** `bitmap_find_next_zero_area`, whose documentation asks for an alignment mask that is one
      less than a power of two.  It terminates; for nr > 0 it returns the least aligned start of
      nr zero bits that fits, or a number above `size` exactly if there is none. */
  method FindNextZeroArea(bm: array<Word>, size: nat, start0: nat, nr: nat, alignMask: nat) returns (index: nat)
    requires size <= 64 * bm.Length && NatBits.IsPow2(alignMask + 1)
    ensures nr > 0 ==>
              var align, words := alignMask + 1, bm[..];
              if index <= size then
                IsArea(words, size, start0, nr, align, index)
                && forall a: nat :: IsArea(words, size, start0, nr, align, a) ==> a >= index
              else forall a: nat :: !IsArea(words, size, start0, nr, align, a)
  {
    hide IsNext, AlignUp, NatBits.IsPow2, NatBits.AndNot;
    ghost var align := alignMask + 1;
    var start := start0;
    ghost var words := bm[..];
    while true
      invariant start >= start0 && (start == start0 || start <= size)
      invariant nr > 0 ==> forall a: nat :: IsArea(words, size, start0, nr, align, a) ==> a >= start
      decreases if start <= size then size - start + 1 else 0
    {
      index := FindNextZeroBit(bm, size, start);
      if nr > 0 {
        forall a: nat | IsArea(words, size, start0, nr, align, a) ensures a >= AlignUp(index, align) {
          AreaAfterZero(words, size, start, nr, align, index, a);
        }
      }
      ZeroBitFrom(words, size, start, index);
      AlignMaskRounds(index, alignMask);
      index := NatBits.AndNot(index + alignMask, alignMask);
      var end := index + nr;
      if end > size {
        index := end;
        return;
      }
      var i := FindNextBit(bm, end, index);
      SetBitIn(words, end, index, i);
      if i >= end {
        return;
      }
      if nr > 0 {
        forall a: nat | IsArea(words, size, start0, nr, align, a) ensures a >= i + 1 {
          AreaAfterSet(words, size, start0, nr, align, index, i, a);
        }
      }
      start := i + 1;
    }
  }

  lemma ZeroBitFrom(words: seq<Word>, size: nat, start: nat, z: nat)
    requires size <= 64 * |words| && IsNext(words, false, size, start, z)
    ensures z <= size && (if start <= size then z >= start else z == size)
  {
  }

  lemma SetBitIn(words: seq<Word>, end: nat, index: nat, i: nat)
    requires end <= 64 * |words| && index <= end && IsNext(words, true, end, index, i)
    ensures index <= i <= end && (i == end ==> NoneIn(words, true, index, end))
  {
  }
}
