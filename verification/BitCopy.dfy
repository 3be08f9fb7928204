/** Copying bitmaps with an offset that need not fall on a word boundary
    (qemu-compat/bitmap.c). */
module BitCopy {
  import opened Bits

  /** `(1ul << n) - 1`. */
  function LowBits(n: nat): Word { Minus1(Shl(1, n)) }

  function Minus1(w: Word): Word { w - 1 }

  lemma {:induction false} LowBitsBits(n: nat, r: nat)
    requires n < 64 && r < 64
    ensures TestBit(LowBits(n), r) <==> r < n
    decreases n
  {
    hide Twice, Minus1, Or, TestBit;
    if n == 0 {
      OneMinusOne();
      BitOps(0, 0, r);
    } else {
      DoubleMinusOne(Shl(1, n - 1));
      BitOps(Twice(LowBits(n - 1)), 1, r);
      LeftByOne(LowBits(n - 1), r);
      OneBit(r);
      if r > 0 { LowBitsBits(n - 1, r - 1); }
    }
  }

  lemma OneMinusOne()
    ensures Minus1(Shl(1, 0)) == 0
  {
  }

  lemma DoubleMinusOne(x: Word)
    ensures Minus1(Twice(x)) == Or(Twice(Minus1(x)), 1)
  {
  }

  lemma OneBit(r: nat)
    ensures TestBit(1, r) <==> r == 0
  {
    if r > 0 {
      assert Shr(1, 1) == 0;
      ShrShr(1, 1, r - 1);
      ShrZero(r - 1);
    }
  }

  // ----- Words of the result ---------------------------------------------------------------------

  /** Bits s to s + 64 of the two words lo and hi. */
  function Across(lo: Word, hi: Word, s: nat): Word
    requires s < 64
  {
    Or(Shr(And(lo, Not(LowBits(s))), s), Shl(And(hi, LowBits(s)), 64 - s))
  }

  lemma AcrossBits(lo: Word, hi: Word, s: nat, r: nat)
    requires 0 < s < 64 && r < 64
    ensures TestBit(Across(lo, hi, s), r) <==> if r + s < 64 then TestBit(lo, r + s) else TestBit(hi, r + s - 64)
  {
    hide TestBit, Or, And, Not, Shr, Shl, LowBits;
    BitOps(Shr(And(lo, Not(LowBits(s))), s), Shl(And(hi, LowBits(s)), 64 - s), r);
    MaskedDown(lo, s, r);
    MaskedUp(hi, LowBits(s), 64 - s, r);
    if r >= 64 - s { LowBitsBits(s, r - (64 - s)); }
  }

  /** `(w & ~((1 << s) - 1)) >> s`. */
  lemma MaskedDown(w: Word, s: nat, r: nat)
    requires s < 64 && r < 64
    ensures TestBit(Shr(And(w, Not(LowBits(s))), s), r) <==> r + s < 64 && TestBit(w, r + s)
  {
    hide TestBit, And, Not, Shr, LowBits;
    ShrBits(And(w, Not(LowBits(s))), s, r);
    BitOps(w, Not(LowBits(s)), r + s);
    if r + s < 64 {
      NotBits(LowBits(s), r + s);
      LowBitsBits(s, r + s);
    } else {
      NoBitBeyond(w, r + s);
    }
  }

  lemma NoBitBeyond(w: Word, r: nat)
    requires r >= 64
    ensures !TestBit(w, r)
  {
    BeyondTop(w, r);
  }

  /** `(w & mask) << s`. */
  lemma MaskedUp(w: Word, mask: Word, s: nat, r: nat)
    requires r < 64
    ensures TestBit(Shl(And(w, mask), s), r) <==> r >= s && TestBit(w, r - s) && TestBit(mask, r - s)
  {
    hide TestBit, And, Shl;
    ShlBits(And(w, mask), s, r);
    if r >= s { BitOps(w, mask, r - s); }
  }

  // ----- bitmap_copy ---------------------------------------------------------------------------------

  function Words(nbits: nat): nat { (nbits + 63) / 64 }

  /** `bitmap_copy` from word `from` of src to word `to` of dst, for at least one word. */
  method CopyWords(dst: array<Word>, to: nat, src: array<Word>, from: nat, nbits: nat)
    requires dst != src
    requires var n := if nbits <= 64 then 1 else Words(nbits); to + n <= dst.Length && from + n <= src.Length
    modifies dst
    ensures var n := if nbits <= 64 then 1 else Words(nbits);
            dst[..] == old(dst[..to]) + src[from..from + n] + old(dst[to + n..])
  {
    if nbits <= 64 {
      dst[to] := src[from];
      assert src[from..from + 1] == [src[from]];
      return;
    }
    for i := 0 to Words(nbits)
      invariant forall j :: 0 <= j < dst.Length ==> dst[j] == if to <= j < to + i then src[from + j - to] else old(dst[j])
    {
      dst[to + i] := src[from + i];
    }
    Pasted(old(dst[..]), to, src[from..from + Words(nbits)], dst[..]);
  }

  lemma Pasted(was: seq<Word>, to: nat, x: seq<Word>, now: seq<Word>)
    requires to + |x| <= |was| == |now|
    requires forall j :: 0 <= j < |was| ==> now[j] == if to <= j < to + |x| then x[j - to] else was[j]
    ensures now == was[..to] + x + was[to + |x|..]
  {
  }

  // ----- Copying out of the middle --------------------------------------------------------------------

  /** The first n bits of d are the bits of s from `shift` on. */
  ghost predicate TakenFrom(d: seq<Word>, s: seq<Word>, shift: nat, n: nat) {
    n <= 64 * |d| && shift + n <= 64 * |s| && forall k: nat :: k < n ==> Bit(d, k) == Bit(s, shift + k)
  }

  /** The first n bits of w are the bits of s from pos on. */
  ghost predicate IsStretch(w: Word, s: seq<Word>, pos: nat, n: nat) {
    n <= 64 && pos + n <= 64 * |s| && forall r: nat :: r < n ==> TestBit(w, r) == Bit(s, pos + r)
  }

  lemma TakeWord(d: seq<Word>, s: seq<Word>, shift: nat, p: nat, n: nat, w: Word)
    requires TakenFrom(d, s, shift, 64 * p) && p < |d| && IsStretch(w, s, shift + 64 * p, n)
    ensures TakenFrom(d[p := w], s, shift, 64 * p + n)
  {
    hide TestBit;
    var d' := d[p := w];
    forall k: nat | k < 64 * p + n ensures Bit(d', k) == Bit(s, shift + k) {
      if k >= 64 * p {
        assert TestBit(w, k - 64 * p) == Bit(s, shift + 64 * p + (k - 64 * p));
      } else {
        assert Bit(d, k) == Bit(s, shift + k);
      }
    }
  }

  lemma AcrossIsStretch(s: seq<Word>, pos: nat)
    requires pos % 64 != 0 && pos / 64 + 1 < |s|
    ensures IsStretch(Across(s[pos / 64], s[pos / 64 + 1], pos % 64), s, pos, 64)
  {
    hide TestBit, Across;
    var w := Across(s[pos / 64], s[pos / 64 + 1], pos % 64);
    forall r: nat | r < 64 ensures TestBit(w, r) == Bit(s, pos + r) {
      AcrossBits(s[pos / 64], s[pos / 64 + 1], pos % 64, r);
      BitIs(s, pos + r);
    }
  }

  lemma BitIs(s: seq<Word>, k: nat)
    requires k < 64 * |s|
    ensures Bit(s, k) == TestBit(s[k / 64], k % 64)
  {
  }

  /** The last word, reaching into a second word of the source ... */
  function LastAcross(lo: Word, hi: Word, s: nat, n: nat): Word
    requires s < 64 && 64 - s <= n < 64
  {
    Or(Shr(And(lo, Not(LowBits(s))), s), Shl(And(hi, LowBits(n - (64 - s))), 64 - s))
  }

  lemma LastAcrossBits(s: seq<Word>, pos: nat, n: nat)
    requires pos % 64 != 0 && 64 - pos % 64 < n < 64 && pos / 64 + 1 < |s|
    ensures IsStretch(LastAcross(s[pos / 64], s[pos / 64 + 1], pos % 64, n), s, pos, n)
  {
    hide TestBit, Or, And, Not, Shr, Shl, LowBits;
    var lo, hi, t, m := s[pos / 64], s[pos / 64 + 1], pos % 64, n - (64 - pos % 64);
    forall r: nat | r < n ensures TestBit(LastAcross(lo, hi, t, n), r) == Bit(s, pos + r) {
      BitOps(Shr(And(lo, Not(LowBits(t))), t), Shl(And(hi, LowBits(m)), 64 - t), r);
      MaskedDown(lo, t, r);
      MaskedUp(hi, LowBits(m), 64 - t, r);
      if r >= 64 - t { LowBitsBits(m, r - (64 - t)); }
      BitIs(s, pos + r);
    }
  }

  /** ... or not. */
  lemma LastWithinBits(s: seq<Word>, pos: nat, n: nat)
    requires 0 < n < 64 && pos % 64 + n <= 64 && pos / 64 < |s|
    ensures IsStretch(And(Shr(s[pos / 64], pos % 64), LowBits(n)), s, pos, n)
  {
    hide TestBit, And, Shr, LowBits;
    var lo, t := s[pos / 64], pos % 64;
    var w := And(Shr(lo, t), LowBits(n));
    forall r: nat | r < n ensures TestBit(w, r) == Bit(s, pos + r) {
      BitOps(Shr(lo, t), LowBits(n), r);
      LowBitsBits(n, r);
      ShrBits(lo, t, r);
      BitIs(s, pos + r);
      assert (pos + r) / 64 == pos / 64 && (pos + r) % 64 == t + r;
    }
  }

  lemma AlignedIsTaken(d: seq<Word>, s: seq<Word>, shift: nat, nbits: nat, n: nat)
    requires shift % 64 == 0 && nbits <= 64 * n && n <= |d| && shift / 64 + n <= |s|
    requires d[..n] == s[shift / 64..shift / 64 + n]
    ensures TakenFrom(d, s, shift, nbits)
  {
    hide TestBit;
    forall k: nat | k < nbits ensures Bit(d, k) == Bit(s, shift + k) {
      assert d[..n][k / 64] == s[shift / 64..shift / 64 + n][k / 64];
    }
  }

  lemma NothingTaken(d: seq<Word>, s: seq<Word>, shift: nat)
    requires shift <= 64 * |s|
    ensures TakenFrom(d, s, shift, 0)
  {
  }

  /** The fast path of `bitmap_copy_with_src_offset`. */
  method TakeAligned(dst: array<Word>, src: array<Word>, shift: nat, nbits: nat)
    requires dst != src && shift + nbits < 64 * src.Length && nbits <= 64 * dst.Length && dst.Length > 0
    requires shift % 64 == 0
    modifies dst
    ensures TakenFrom(dst[..], src[..], shift, nbits)
  {
    hide TakenFrom;
    CopyWords(dst, 0, src, shift / 64, nbits);
    AlignedIsTaken(dst[..], src[..], shift, nbits, if nbits <= 64 then 1 else Words(nbits));
  }

  /** `bitmap_copy_with_src_offset`; as its comment asks, src is longer than shift + nbits. */
  method CopyWithSrcOffset(dst: array<Word>, src: array<Word>, shift: nat, nbits0: nat)
    requires dst != src && shift + nbits0 < 64 * src.Length && nbits0 <= 64 * dst.Length && dst.Length > 0
    modifies dst
    ensures TakenFrom(dst[..], src[..], shift, nbits0)
  {
    hide TakenFrom, IsStretch, TestBit, Or, And, Not, Shr, Shl, LowBits;
    var q, s, nbits: nat := shift / 64, shift % 64, nbits0;
    if s == 0 {
      TakeAligned(dst, src, shift, nbits);
      return;
    }
    var rightMask := LowBits(s);
    var leftMask := Not(rightMask);
    var p := 0;
    NothingTaken(dst[..], src[..], shift);
    while nbits >= 64
      invariant nbits + 64 * p == nbits0 && TakenFrom(dst[..], src[..], shift, 64 * p)
    {
      SourceWord(shift, p, nbits, src.Length);
      var w := Or(Shr(And(src[q + p], leftMask), s), Shl(And(src[q + p + 1], rightMask), 64 - s));
      AcrossIsStretch(src[..], shift + 64 * p);
      TakeWord(dst[..], src[..], shift, p, 64, w);
      dst[p] := w;
      p, nbits := p + 1, nbits - 64;
    }
    if nbits > 0 {
      TakeLast(dst, src, shift, p, nbits);
    }
    assert 64 * p + nbits == nbits0;
  }

  /** Where the bits of the p-th word of the target come from. */
  lemma SourceWord(shift: nat, p: nat, nbits: nat, length: nat)
    requires shift + 64 * p + nbits < 64 * length
    ensures (shift + 64 * p) / 64 == shift / 64 + p && (shift + 64 * p) % 64 == shift % 64
    ensures shift / 64 + p < length && (nbits > 64 - shift % 64 ==> shift / 64 + p + 1 < length)
  {
  }

  /** The end of `bitmap_copy_with_src_offset`: fewer than 64 bits are left. */
  method TakeLast(dst: array<Word>, src: array<Word>, shift: nat, p: nat, nbits0: nat)
    requires dst != src && shift + 64 * p + nbits0 < 64 * src.Length && p < dst.Length
    requires 0 < nbits0 < 64 && shift % 64 != 0 && TakenFrom(dst[..], src[..], shift, 64 * p)
    modifies dst
    ensures TakenFrom(dst[..], src[..], shift, 64 * p + nbits0)
  {
    hide TakenFrom, IsStretch, TestBit, Or, And, Not, Shr, Shl, LowBits;
    var q, s, nbits := shift / 64, shift % 64, nbits0;
    var w;
    SourceWord(shift, p, nbits, src.Length);
    if nbits > 64 - s {
      LastAcrossBits(src[..], shift + 64 * p, nbits);
      w := Shr(And(src[q + p], Not(LowBits(s))), s);
      nbits := nbits - (64 - s);
      w := Or(w, Shl(And(src[q + p + 1], LowBits(nbits)), 64 - s));
    } else {
      LastWithinBits(src[..], shift + 64 * p, nbits);
      w := And(Shr(src[q + p], s), LowBits(nbits));
    }
    TakeWord(dst[..], src[..], shift, p, nbits0, w);
    dst[p] := w;
  }

  // ----- Copying into the middle --------------------------------------------------------------------------

  /** Bits [shift, shift + n) of d are the first n bits of s; bits below shift are those of was. */
  ghost predicate PutInto(d: seq<Word>, was: seq<Word>, s: seq<Word>, shift: nat, n: nat) {
    && |d| == |was| && shift + n <= 64 * |d| && n <= 64 * |s|
    && (forall k: nat :: k < shift ==> Bit(d, k) == Bit(was, k))
    && forall k: nat :: k < n ==> Bit(d, shift + k) == Bit(s, k)
  }

  /** The copy so far ends in the middle of word p, whose higher bits are clear; later words
      are unchanged. */
  ghost predicate Filling(d: seq<Word>, was: seq<Word>, s: seq<Word>, shift: nat, n: nat, p: nat) {
    && PutInto(d, was, s, shift, n) && p == (shift + n) / 64 < |d|
    && (forall r: nat :: (shift + n) % 64 <= r < 64 ==> !TestBit(d[p], r))
    && d[p + 1..] == was[p + 1..]
  }

  lemma StartFilling(was: seq<Word>, s: seq<Word>, shift: nat)
    requires shift / 64 < |was|
    ensures var p := shift / 64; Filling(was[p := And(was[p], LowBits(shift % 64))], was, s, shift, 0, p)
  {
    hide TestBit, And, LowBits;
    var p := shift / 64;
    var w := And(was[p], LowBits(shift % 64));
    forall r: nat | r < 64 ensures TestBit(w, r) == (r < shift % 64 && TestBit(was[p], r)) {
      BitOps(was[p], LowBits(shift % 64), r);
      LowBitsBits(shift % 64, r);
    }
    forall k: nat | k < shift ensures Bit(was[p := w], k) == Bit(was, k) {
    }
  }

  /** The first m bits of x are put into word w at bit t, over bits that are clear. */
  ghost predicate Inserted(w': Word, w: Word, x: Word, t: nat, m: nat) {
    && t + m <= 64
    && (forall r: nat :: r < t ==> TestBit(w', r) == TestBit(w, r))
    && (forall r: nat :: t <= r < t + m ==> TestBit(w', r) == TestBit(x, r - t))
    && forall r: nat :: t + m <= r < 64 ==> !TestBit(w', r)
  }

  /** The low bits of a source word go into word p ... */
  lemma FillWord(d: seq<Word>, was: seq<Word>, s: seq<Word>, shift: nat, n: nat, p: nat, m: nat, w: Word)
    requires Filling(d, was, s, shift, n, p) && n % 64 == 0 && n + m <= 64 * |s|
    requires n / 64 < |s| && Inserted(w, d[p], s[n / 64], shift % 64, m)
    ensures PutInto(d[p := w], was, s, shift, n + m) && d[p := w][p + 1..] == was[p + 1..]
  {
    hide TestBit, Bit, Inserted;
    var d' := d[p := w];
    SameBelow(d, s, shift, n, p, m, w);
    forall k: nat | k < shift ensures Bit(d', k) == Bit(was, k) {
      assert Bit(d, k) == Bit(was, k);
    }
    forall k: nat | k < n + m ensures Bit(d', shift + k) == Bit(s, k) {
      if k < n {
        assert Bit(d, shift + k) == Bit(s, k);
      } else {
        InsertedBit(d, s, shift, n, p, m, w, k);
      }
    }
  }

  /** The bits below the inserted ones are as before. */
  lemma SameBelow(d: seq<Word>, s: seq<Word>, shift: nat, n: nat, p: nat, m: nat, w: Word)
    requires n % 64 == 0 && n / 64 < |s| && p == (shift + n) / 64 < |d|
    requires Inserted(w, d[p], s[n / 64], shift % 64, m)
    ensures shift + n + m <= 64 * |d| && forall k: nat :: k < shift + n ==> Bit(d[p := w], k) == Bit(d, k)
  {
    hide TestBit;
    InWord(shift, n, n, p);
    forall k: nat | k < shift + n ensures Bit(d[p := w], k) == Bit(d, k) {
      BitIs(d, k);
      BitIs(d[p := w], k);
    }
  }

  lemma InsertedBit(d: seq<Word>, s: seq<Word>, shift: nat, n: nat, p: nat, m: nat, w: Word, k: nat)
    requires n % 64 == 0 && n / 64 < |s| && p == (shift + n) / 64 < |d| && n <= k < n + m && k < 64 * |s|
    requires Inserted(w, d[p], s[n / 64], shift % 64, m)
    ensures shift + k < 64 * |d| && Bit(d[p := w], shift + k) == Bit(s, k)
  {
    hide TestBit;
    InWord(shift, n, k, p);
    BitIs(d[p := w], shift + k);
    BitIs(s, k);
    assert TestBit(w, shift % 64 + (k - n)) == TestBit(s[n / 64], k - n);
  }

  lemma InWord(shift: nat, n: nat, k: nat, p: nat)
    requires n % 64 == 0 && p == (shift + n) / 64 && n <= k < n + 64 - shift % 64
    ensures (shift + k) / 64 == p && (shift + k) % 64 == shift % 64 + (k - n)
    ensures k / 64 == n / 64 && k % 64 == k - n
    ensures (shift + n) % 64 == shift % 64
  {
  }

  /** ... and the high bits into the cleared word after it. */
  lemma SpillWord(d: seq<Word>, was: seq<Word>, s: seq<Word>, shift: nat, n: nat, p: nat, m: nat, v: Word)
    requires PutInto(d, was, s, shift, n) && (shift + n) % 64 == 0 && p == (shift + n) / 64 < |d|
    requires m < 64 && n + m <= 64 * |s| && d[p + 1..] == was[p + 1..] && n % 64 + m <= 64 && n / 64 < |s|
    requires Extracted(v, s[n / 64], n % 64, m)
    ensures Filling(d[p := v], was, s, shift, n + m, p)
  {
    hide TestBit;
    var d' := d[p := v];
    forall k: nat | k < shift ensures Bit(d', k) == Bit(was, k) {
      assert Bit(d, k) == Bit(was, k);
    }
    forall k: nat | k < n + m ensures Bit(d', shift + k) == Bit(s, k) {
      if k < n {
        assert Bit(d, shift + k) == Bit(s, k);
      } else {
        assert (shift + k) / 64 == p && (shift + k) % 64 == k - n;
        assert k / 64 == n / 64 && k % 64 == n % 64 + (k - n);
        assert TestBit(v, k - n) == TestBit(s[n / 64], n % 64 + (k - n));
      }
    }
    assert (shift + n + m) / 64 == p && (shift + n + m) % 64 == m;
  }

  lemma InsertLow(d: seq<Word>, was: seq<Word>, s: seq<Word>, shift: nat, n: nat, p: nat, m: nat)
    requires Filling(d, was, s, shift, n, p) && n % 64 == 0 && n / 64 < |s| && shift % 64 + m <= 64 && m < 64
    ensures Inserted(Or(d[p], Shl(And(s[n / 64], LowBits(m)), shift % 64)), d[p], s[n / 64], shift % 64, m)
  {
    hide TestBit, Or, And, Shl, LowBits, Filling;
    ClearAbove(d, was, s, shift, n, p);
    LowPart(d[p], s[n / 64], LowBits(m), shift % 64, m);
  }

  /** In the word that is being filled, the bits still to come are clear. */
  lemma ClearAbove(d: seq<Word>, was: seq<Word>, s: seq<Word>, shift: nat, n: nat, p: nat)
    requires Filling(d, was, s, shift, n, p) && n % 64 == 0
    ensures p < |d| && forall r: nat :: shift % 64 <= r < 64 ==> !TestBit(d[p], r)
  {
    hide TestBit, PutInto;
    InWord(shift, n, n, p);
  }

  /** v holds the m bits of x from bit `from` on, and nothing else. */
  ghost predicate Extracted(v: Word, x: Word, from: nat, m: nat) {
    from + m <= 64 && forall r: nat :: r < 64 ==> TestBit(v, r) == (r < m && TestBit(x, from + r))
  }

  /** The high bits of x, moved down. */
  lemma HighPart(x: Word, t: nat)
    requires 0 < t < 64
    ensures Extracted(Shr(And(x, Not(LowBits(64 - t))), 64 - t), x, 64 - t, t)
  {
    hide TestBit, And, Not, Shr, LowBits;
    var u := 64 - t;
    var v := Shr(And(x, Not(LowBits(u))), u);
    forall r: nat | r < 64 ensures TestBit(v, r) == (r < t && TestBit(x, u + r)) {
      MaskedDown(x, u, r);
    }
  }

  lemma SomeHighBit(x: Word, u: nat, m: nat, r: nat)
    requires u + m < 64 && r < 64
    ensures TestBit(Shr(And(x, Shl(LowBits(m), u)), u), r) == (r < m && TestBit(x, u + r))
  {
    hide TestBit, And, Shr, Shl, LowBits;
    var mask := Shl(LowBits(m), u);
    ShrBits(And(x, mask), u, r);
    BitOps(x, mask, u + r);
    if u + r < 64 {
      ShlBits(LowBits(m), u, u + r);
      LowBitsBits(m, r);
    } else {
      NoBitBeyond(x, u + r);
    }
  }

  lemma BitsExtracted(x: Word, u: nat, m: nat)
    requires u + m < 64
    ensures Extracted(Shr(And(x, Shl(LowBits(m), u)), u), x, u, m)
  {
    hide TestBit, And, Shr, Shl, LowBits;
    forall r: nat | r < 64 ensures TestBit(Shr(And(x, Shl(LowBits(m), u)), u), r) == (r < m && TestBit(x, u + r)) {
      SomeHighBit(x, u, m, r);
    }
  }

  /** The same, but only m bits of them. */
  lemma SomeHighPart(x: Word, t: nat, m: nat)
    requires 0 < t < 64 && m < t
    ensures Extracted(Shr(And(x, Shl(LowBits(m), 64 - t)), 64 - t), x, 64 - t, m)
  {
    hide *;
    BitsExtracted(x, 64 - t, m);
  }

  /** A source word is spread over word p and the one after it. */
  lemma TwoWordsFill(d: seq<Word>, was: seq<Word>, s: seq<Word>, shift: nat, n: nat, p: nat, m: nat, w: Word, v: Word)
    requires Filling(d, was, s, shift, n, p) && n % 64 == 0 && n / 64 < |s| && p + 1 < |d|
    requires shift % 64 != 0 && m <= shift % 64 && n + 64 - shift % 64 + m <= 64 * |s|
    requires Inserted(w, d[p], s[n / 64], shift % 64, 64 - shift % 64)
    requires Extracted(v, s[n / 64], 64 - shift % 64, m)
    ensures Filling(d[p := w][p + 1 := v], was, s, shift, n + 64 - shift % 64 + m, p + 1)
  {
    hide TestBit, Inserted, Extracted, Filling, PutInto;
    FillingAt(d, was, s, shift, n, p);
    Boundary(shift, n, p);
    FillWord(d, was, s, shift, n, p, 64 - shift % 64, w);
    Tails(d[p := w], was, p);
    SpillWord(d[p := w], was, s, shift, n + 64 - shift % 64, p + 1, m, v);
  }

  lemma Boundary(shift: nat, n: nat, p: nat)
    requires n % 64 == 0 && p == (shift + n) / 64 && shift % 64 != 0
    ensures var n1 := n + 64 - shift % 64;
            (shift + n1) % 64 == 0 && (shift + n1) / 64 == p + 1 && n1 % 64 == 64 - shift % 64 && n1 / 64 == n / 64
  {
  }

  lemma FillingAt(d: seq<Word>, was: seq<Word>, s: seq<Word>, shift: nat, n: nat, p: nat)
    requires Filling(d, was, s, shift, n, p)
    ensures p == (shift + n) / 64 && |d| == |was|
  {
  }

  /** One round of the loop of `bitmap_copy_with_dst_offset`: a whole source word. */
  lemma WholeWordFills(d: seq<Word>, was: seq<Word>, s: seq<Word>, shift: nat, n: nat, p: nat)
    requires Filling(d, was, s, shift, n, p) && n % 64 == 0 && n / 64 < |s| && shift % 64 != 0 && p + 1 < |d|
    ensures var x, t := s[n / 64], shift % 64;
            var d1 := d[p := Or(d[p], Shl(And(x, LowBits(64 - t)), t))];
            Filling(d1[p + 1 := Shr(And(x, Not(LowBits(64 - t))), 64 - t)], was, s, shift, n + 64, p + 1)
  {
    hide TestBit, Or, And, Not, Shr, Shl, LowBits, Inserted, Extracted, Filling, PutInto;
    var x, t := s[n / 64], shift % 64;
    InsertLow(d, was, s, shift, n, p, 64 - t);
    HighPart(x, t);
    TwoWordsFill(d, was, s, shift, n, p, t, Or(d[p], Shl(And(x, LowBits(64 - t)), t)),
                 Shr(And(x, Not(LowBits(64 - t))), 64 - t));
    assert n + 64 - t + t == n + 64;
  }

  lemma Tails(d: seq<Word>, was: seq<Word>, p: nat)
    requires p + 1 < |d| == |was| && d[p + 1..] == was[p + 1..]
    ensures d[p + 2..] == was[p + 2..]
  {
    assert d[p + 2..] == d[p + 1..][1..];
  }

  lemma LowPart(w: Word, x: Word, mask: Word, s: nat, m: nat)
    requires s + m <= 64 && m < 64 && mask == LowBits(m)
    ensures forall r: nat :: r < 64 ==>
              TestBit(Or(w, Shl(And(x, mask), s)), r) == (TestBit(w, r) || (s <= r < s + m && TestBit(x, r - s)))
  {
    hide TestBit, Or, And, Shl, LowBits;
    forall r: nat | r < 64
      ensures TestBit(Or(w, Shl(And(x, mask), s)), r) == (TestBit(w, r) || (s <= r < s + m && TestBit(x, r - s)))
    {
      BitOps(w, Shl(And(x, mask), s), r);
      MaskedUp(x, mask, s, r);
      if r >= s { LowBitsBits(m, r - s); }
    }
  }

  /** The last source word when it reaches into a second word. */
  lemma PartWordFills(d: seq<Word>, was: seq<Word>, s: seq<Word>, shift: nat, n: nat, p: nat, m: nat)
    requires Filling(d, was, s, shift, n, p) && n % 64 == 0 && n / 64 < |s| && p + 1 < |d|
    requires shift % 64 != 0 && 0 < m < shift % 64
    ensures var x, t := s[n / 64], shift % 64;
            var d1 := d[p := Or(d[p], Shl(And(x, LowBits(64 - t)), t))];
            Filling(d1[p + 1 := Shr(And(x, Shl(LowBits(m), 64 - t)), 64 - t)], was, s, shift, n + 64 - t + m, p + 1)
  {
    hide TestBit, Or, And, Not, Shr, Shl, LowBits, Inserted, Extracted, Filling, PutInto;
    var x, t := s[n / 64], shift % 64;
    InsertLow(d, was, s, shift, n, p, 64 - t);
    SomeHighPart(x, t, m);
    TwoWordsFill(d, was, s, shift, n, p, m, Or(d[p], Shl(And(x, LowBits(64 - t)), t)),
                 Shr(And(x, Shl(LowBits(m), 64 - t)), 64 - t));
  }

  /** The last source word when it fits into word p. */
  lemma LastWordFits(d: seq<Word>, was: seq<Word>, s: seq<Word>, shift: nat, n: nat, p: nat, m: nat)
    requires Filling(d, was, s, shift, n, p) && n % 64 == 0 && n / 64 < |s| && shift % 64 + m <= 64 && m < 64
    ensures var d1 := d[p := Or(d[p], Shl(And(s[n / 64], LowBits(m)), shift % 64))];
            PutInto(d1, was, s, shift, n + m) && d1[p + 1..] == was[p + 1..]
  {
    FillingAt(d, was, s, shift, n, p);
    hide TestBit, Or, And, Shl, LowBits, Inserted, Filling, PutInto;
    InsertLow(d, was, s, shift, n, p, m);
    FillWord(d, was, s, shift, n, p, m, Or(d[p], Shl(And(s[n / 64], LowBits(m)), shift % 64)));
  }

  /** Words that lie beyond the copy are unchanged. */
  ghost predicate RestKept(d: seq<Word>, was: seq<Word>, end: nat) {
    |d| == |was| && forall j :: end / 64 < j < |d| ==> d[j] == was[j]
  }

  lemma KeptFromTail(d: seq<Word>, was: seq<Word>, end: nat, p: nat)
    requires |d| == |was| && p < |d| && d[p + 1..] == was[p + 1..] && p <= end / 64
    ensures RestKept(d, was, end)
  {
    forall j | end / 64 < j < |d| ensures d[j] == was[j] {
      assert d[p + 1..][j - p - 1] == was[p + 1..][j - p - 1];
    }
  }

  lemma AlignedIsPut(d: seq<Word>, was: seq<Word>, s: seq<Word>, shift: nat, nbits: nat, n: nat)
    requires shift % 64 == 0 && nbits <= 64 * n && shift / 64 + n <= |was| && n <= |s|
    requires d == was[..shift / 64] + s[0..n] + was[shift / 64 + n..] && n <= nbits / 64 + 1
    ensures PutInto(d, was, s, shift, nbits) && RestKept(d, was, shift + nbits)
  {
    hide TestBit;
    forall k: nat | k < shift ensures Bit(d, k) == Bit(was, k) {
      assert d[k / 64] == was[k / 64];
    }
    forall k: nat | k < nbits ensures Bit(d, shift + k) == Bit(s, k) {
      assert (shift + k) / 64 == shift / 64 + k / 64 && (shift + k) % 64 == k % 64;
      assert d[shift / 64 + k / 64] == s[k / 64];
    }
  }

  /** The fast path of `bitmap_copy_with_dst_offset`. */
  method PutAligned(dst: array<Word>, src: array<Word>, shift: nat, nbits: nat)
    requires dst != src && shift + nbits < 64 * dst.Length && nbits <= 64 * src.Length && src.Length > 0
    requires shift % 64 == 0
    modifies dst
    ensures PutInto(dst[..], old(dst[..]), src[..], shift, nbits)
    ensures RestKept(dst[..], old(dst[..]), shift + nbits)
  {
    hide PutInto, RestKept;
    ghost var was := dst[..];
    CopyWords(dst, shift / 64, src, 0, nbits);
    AlignedIsPut(dst[..], was, src[..], shift, nbits, if nbits <= 64 then 1 else Words(nbits));
  }

  /** Where the q-th word of the source goes. */
  lemma WordRoom(shift: nat, q: nat, nbits: nat, dstLength: nat, srcLength: nat)
    requires 64 <= nbits && shift + 64 * q + nbits < 64 * dstLength && 64 * q + nbits <= 64 * srcLength
    ensures (64 * q) % 64 == 0 && 64 * q / 64 == q < srcLength
    ensures (shift + 64 * q) / 64 + 1 == (shift + 64 * (q + 1)) / 64 < dstLength
  {
  }

  /** `bitmap_copy_with_dst_offset`; as its comment asks, dst is longer than shift + nbits. */
  method CopyWithDstOffset(dst: array<Word>, src: array<Word>, shift: nat, nbits0: nat)
    requires dst != src && shift + nbits0 < 64 * dst.Length && nbits0 <= 64 * src.Length && src.Length > 0
    modifies dst
    ensures PutInto(dst[..], old(dst[..]), src[..], shift, nbits0)
    ensures RestKept(dst[..], old(dst[..]), shift + nbits0)
  {
    hide TestBit, Or, And, Not, Shr, Shl, LowBits, Filling, PutInto, RestKept;
    var p, t, nbits := shift / 64, shift % 64, nbits0;
    ghost var was := dst[..];
    if t == 0 {
      PutAligned(dst, src, shift, nbits);
      return;
    }
    var rightMask := LowBits(64 - t);
    var leftMask := Not(rightMask);
    var q := 0;
    StartFilling(was, src[..], shift);
    dst[p] := And(dst[p], LowBits(t));
    while nbits >= 64
      invariant nbits + 64 * q == nbits0 && p == (shift + 64 * q) / 64
      invariant Filling(dst[..], was, src[..], shift, 64 * q, p)
    {
      WordRoom(shift, q, nbits, dst.Length, src.Length);
      WholeWordFills(dst[..], was, src[..], shift, 64 * q, p);
      dst[p] := Or(dst[p], Shl(And(src[q], rightMask), t));
      dst[p + 1] := Shr(And(src[q], leftMask), 64 - t);
      p, q, nbits := p + 1, q + 1, nbits - 64;
    }
    PutLast(dst, src, shift, q, nbits, was);
    assert 64 * q + nbits == nbits0;
  }

  /** Where the last bits go if they reach into a further word. */
  lemma LastRoom(shift: nat, q: nat, nbits: nat, dstLength: nat, srcLength: nat)
    requires 64 - shift % 64 < nbits < 64 && shift + 64 * q + nbits < 64 * dstLength && 64 * q + nbits <= 64 * srcLength
    ensures (64 * q) % 64 == 0 && 64 * q / 64 == q < srcLength && (shift + 64 * q) / 64 + 1 < dstLength
    ensures shift % 64 != 0 && 0 < nbits - (64 - shift % 64) < shift % 64
  {
  }

  /** The end of `bitmap_copy_with_dst_offset`: fewer than 64 bits are left. */
  method PutLast(dst: array<Word>, src: array<Word>, shift: nat, q: nat, nbits0: nat, ghost was: seq<Word>)
    requires dst != src && shift + 64 * q + nbits0 < 64 * dst.Length && 64 * q + nbits0 <= 64 * src.Length
    requires nbits0 < 64 && shift % 64 != 0 && Filling(dst[..], was, src[..], shift, 64 * q, (shift + 64 * q) / 64)
    modifies dst
    ensures PutInto(dst[..], was, src[..], shift, 64 * q + nbits0)
    ensures RestKept(dst[..], was, shift + 64 * q + nbits0)
  {
    hide TestBit, Or, And, Not, Shr, Shl, LowBits, Filling, PutInto, RestKept;
    var p, t, nbits := (shift + 64 * q) / 64, shift % 64, nbits0;
    if nbits > 64 - t {
      LastRoom(shift, q, nbits, dst.Length, src.Length);
      PartWordFills(dst[..], was, src[..], shift, 64 * q, p, nbits - (64 - t));
      dst[p] := Or(dst[p], Shl(And(src[q], LowBits(64 - t)), t));
      nbits := nbits - (64 - t);
      var lastMask := Shl(LowBits(nbits), 64 - t);
      dst[p + 1] := Shr(And(src[q], lastMask), 64 - t);
      FillingIsPut(dst[..], was, src[..], shift, 64 * q + nbits0, p + 1);
    } else {
      PutWithin(dst, src, shift, q, p, nbits, was);
    }
  }

  /** The last bits end in the word the copy has come to. */
  method PutWithin(dst: array<Word>, src: array<Word>, shift: nat, q: nat, p: nat, nbits: nat, ghost was: seq<Word>)
    requires dst != src && shift + 64 * q + nbits < 64 * dst.Length && 64 * q + nbits <= 64 * src.Length
    requires nbits <= 64 - shift % 64 < 64 && p == (shift + 64 * q) / 64
    requires Filling(dst[..], was, src[..], shift, 64 * q, p)
    modifies dst
    ensures PutInto(dst[..], was, src[..], shift, 64 * q + nbits)
    ensures RestKept(dst[..], was, shift + 64 * q + nbits)
  {
    hide TestBit, Or, And, Not, Shr, Shl, LowBits, Filling, PutInto, RestKept;
    if nbits > 0 {
      LastWordFits(dst[..], was, src[..], shift, 64 * q, p, nbits);
      dst[p] := Or(dst[p], Shl(And(src[q], LowBits(nbits)), shift % 64));
      SameLength(dst[..], was, src[..], shift, 64 * q + nbits);
      KeptFromTail(dst[..], was, shift + 64 * q + nbits, p);
    } else {
      FillingIsPut(dst[..], was, src[..], shift, 64 * q, p);
    }
  }

  lemma SameLength(d: seq<Word>, was: seq<Word>, s: seq<Word>, shift: nat, n: nat)
    requires PutInto(d, was, s, shift, n)
    ensures |d| == |was|
  {
  }

  lemma FillingIsPut(d: seq<Word>, was: seq<Word>, s: seq<Word>, shift: nat, n: nat, p: nat)
    requires Filling(d, was, s, shift, n, p)
    ensures PutInto(d, was, s, shift, n) && RestKept(d, was, shift + n)
  {
    hide PutInto, RestKept;
    SameLength(d, was, s, shift, n);
    KeptFromTail(d, was, shift + n, p);
  }

  /** Moving bits up and back down again with the same shift returns them, for every shift
      and length. */
  method ThereAndBack(mid: array<Word>, src: array<Word>, dst: array<Word>, shift: nat, nbits: nat)
    requires mid != src && mid != dst && shift + nbits < 64 * mid.Length
    requires nbits <= 64 * src.Length && src.Length > 0 && nbits <= 64 * dst.Length && dst.Length > 0
    modifies mid, dst
    ensures forall k: nat :: k < nbits ==> Bit(dst[..], k) == old(Bit(src[..], k))
    ensures forall k: nat :: k < shift ==> Bit(mid[..], k) == old(Bit(mid[..], k))
  {
    hide TestBit;
    ghost var s := src[..];
    CopyWithDstOffset(mid, src, shift, nbits);
    forall k: nat | k < nbits ensures Bit(mid[..], shift + k) == Bit(s, k) {
    }
    CopyWithSrcOffset(dst, mid, shift, nbits);
  }
}
