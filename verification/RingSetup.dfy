/** `rte_ring_create` and `rte_ring_init`: sizes of rings. */
module RingSetup {
  import opened Arithmetic
  import opened NatBits
  import opened Wrappers
  import opened RingModel
  import opened RingProofs
  import opened RingRuns

  /** `POWEROF2`. */
  predicate PowerOf2(x: Word) {
    And(W(x - 1), x) == 0
  }

  lemma {:induction false} AndSelf(a: nat)
    ensures And(a, a) == a
  {
    if a > 0 { AndSelf(a / 2); }
  }

  lemma {:induction false} LowestBitAlone(x: nat)
    requires x > 0
    ensures And(x - 1, x) == 0 <==> IsPow2(x)
  {
    if x % 2 == 0 {
      LowestBitAlone(x / 2);
      assert (x - 1) / 2 == x / 2 - 1;
    } else if x > 1 {
      AndSelf(x / 2);
      assert (x - 1) / 2 == x / 2 && (x - 1) % 2 == 0;
    }
  }

  /** The test passes for powers of two, and for 0. */
  lemma PowerOf2Accepts(x: Word)
    ensures PowerOf2(x) <==> x == 0 || IsPow2(x)
  {
    hide W, And, IsPow2;
    if x == 0 {
      WordMaxAnd();
    } else {
      SmallWord(x - 1);
      LowestBitAlone(x);
    }
  }

  lemma WordMaxAnd()
    ensures And(W(-1), 0) == 0
  {
    AndZero(WORD - 1);
  }

  /** `rte_align32pow2`. */
  function Align32Pow2(x: Word): Word {
    W(Smeared(W(x - 1)) + 1)
  }

  /** `x |= x >> 1` and so on: every bit below the highest one is set. */
  function Smeared(x: nat): nat {
    var x := Or(x, Shr(x, 1));
    var x := Or(x, Shr(x, 2));
    var x := Or(x, Shr(x, 4));
    var x := Or(x, Shr(x, 8));
    Or(x, Shr(x, 16))
  }

  /** Of n bits the top m are ones. */
  ghost predicate TopOnes(a: nat, n: nat, m: nat) {
    forall i: nat :: (i >= n ==> !Bit(a, i)) && (n <= i + m && i < n ==> Bit(a, i))
  }

  lemma Doubled(a: nat, n: nat, m: nat)
    requires TopOnes(a, n, m)
    ensures TopOnes(Or(a, Shr(a, m)), n, 2 * m)
  {
    hide Or, Shr, Bit;
    var a' := Or(a, Shr(a, m));
    forall i: nat ensures (i >= n ==> !Bit(a', i)) && (n <= i + 2 * m && i < n ==> Bit(a', i)) {
      OrBit(a, Shr(a, m), i);
      ShrBit(a, m, i);
      assert m + i >= n ==> !Bit(a, m + i);
      assert n <= m + i + m && m + i < n ==> Bit(a, m + i);
    }
  }

  lemma SmearedIsOnes(x: nat)
    requires Length(x) <= 32
    ensures Smeared(x) == Ones(Length(x))
  {
    hide Or, Shr, Bit, Length, Ones, TopOnes;
    var n := Length(x);
    HighestBit(x);
    Doubled(x, n, 1);
    var x1 := Or(x, Shr(x, 1));
    Doubled(x1, n, 2);
    var x2 := Or(x1, Shr(x1, 2));
    Doubled(x2, n, 4);
    var x3 := Or(x2, Shr(x2, 4));
    Doubled(x3, n, 8);
    var x4 := Or(x3, Shr(x3, 8));
    Doubled(x4, n, 16);
    TopIsAll(Smeared(x), n, 32);
  }

  lemma HighestBit(x: nat)
    ensures TopOnes(x, Length(x), 1)
  {
    forall i: nat ensures (i >= Length(x) ==> !Bit(x, i)) && (i + 1 == Length(x) ==> Bit(x, i)) {
      LengthBits(x, i);
    }
  }

  lemma TopIsAll(a: nat, n: nat, m: nat)
    requires TopOnes(a, n, m) && n <= m
    ensures a == Ones(n)
  {
    assert forall i: nat :: Bit(a, i) <==> i < n;
    AllOnes(a, n);
  }

  lemma {:induction false} LengthInWord(x: nat, n: nat)
    requires x <= Ones(n)
    ensures Length(x) <= n
  {
    if x > 0 {
      LengthInWord(x / 2, n - 1);
    }
  }

  lemma FourMoreOnes(n: nat)
    ensures Ones(n + 4) == 16 * Ones(n) + 15
  {
    assert Ones(n + 1) == 2 * Ones(n) + 1;
    assert Ones(n + 2) == 2 * Ones(n + 1) + 1;
    assert Ones(n + 3) == 2 * Ones(n + 2) + 1;
  }

  lemma WordOfOnes()
    ensures Ones(31) == WORD / 2 - 1 && Ones(32) == WORD - 1
  {
    hide Ones;
    ThreeOnes();
    FourMoreOnes(3);
    FourMoreOnes(7);
    FourMoreOnes(11);
    FourMoreOnes(15);
    FourMoreOnes(19);
    FourMoreOnes(23);
    FourMoreOnes(27);
  }

  lemma ThreeOnes()
    ensures Ones(3) == 7 && Ones(32) == 2 * Ones(31) + 1
  {
    assert Ones(1) == 1;
    assert Ones(2) == 3;
  }

  lemma WordIsPow2()
    ensures IsPow2(WORD) && IsPow2(WORD / 2) && Ones(32) == WORD - 1
  {
    hide Ones, IsPow2;
    WordOfOnes();
    OnesArePow2(31);
    OnesArePow2(32);
  }

  /** `rte_align32pow2` returns the least power of two that is not below its argument, or 0
      where there is none in 32 bits, and for 0. */
  lemma AlignIsLeast(x: Word)
    ensures Align32Pow2(x) == 0 <==> x == 0 || x > WORD / 2
    ensures Align32Pow2(x) != 0 ==> IsPow2(Align32Pow2(x)) && x <= Align32Pow2(x)
    ensures Align32Pow2(x) != 0 ==> forall p: nat :: IsPow2(p) && x <= p ==> Align32Pow2(x) <= p
  {
    hide IsPow2, Smeared, Ones, Length;
    var y := W(x - 1);
    WordIsPow2();
    LengthInWord(y, 32);
    SmearedIsOnes(y);
    OnesBound(y);
    OnesArePow2(Length(y));
    var r := Smeared(y) + 1;
    NextPow2(r, y);
    assert r <= WORD;
    if x == 0 {
      assert r >= WORD;
    } else if x > WORD / 2 {
      Pow2Above(r, WORD / 2);
    } else {
      assert r <= WORD / 2;
    }
  }

  /** r is the least power of two above y. */
  lemma NextPow2(r: nat, y: nat)
    requires IsPow2(r) && y < r <= 2 * y + 1
    ensures forall p: nat :: IsPow2(p) && y < p ==> r <= p
  {
    hide IsPow2;
    forall p: nat | IsPow2(p) && y < p ensures r <= p {
      if p < r { Pow2Above(r, p); }
    }
  }

  // ----- Creating rings --------------------------------------------------------------------------

  const SIZE_MASK: nat := 0x0fff_ffff

  /** `rte_ring_create` followed by `rte_ring_init`; None is a NULL ring.  m threads use it. */
  function Create(count: Word, exact: bool, sp: bool, sc: bool, m: nat): Option<Ring> {
    var size := if exact then Align32Pow2(W(count + 1)) else count;
    if !PowerOf2(size) || size > SIZE_MASK then None
    else Some(Start(size, if exact then count else W(size - 1), sp, sc, m))
  }

  /** Rings are created as documented except that a size of 0 passes for a power of two:
      that happens exactly when no object is asked for, or, with an exact size, when the
      size would not fit in 31 bits.  Every other ring that is created is usable. */
  lemma CreateIsUsable(count: Word, exact: bool, sp: bool, sc: bool, m: nat)
    requires Create(count, exact, sp, sc, m).Some?
    ensures var r := Create(count, exact, sp, sc, m).value;
            && (Inv(r) <==> if exact then count < WORD / 2 else count != 0)
            && (Inv(r) ==> r.capacity == if exact then count else count - 1)
  {
    hide IsPow2, Align32Pow2, PowerOf2, Inv, W;
    var r := Create(count, exact, sp, sc, m).value;
    WordIsPow2();
    PowerOf2Accepts(r.size);
    if exact {
      NextWord(count);
      AlignIsLeast(W(count + 1));
    }
    if r.size != 0 {
      SmallWord(r.size - 1);
      Pow2Divides(r.size, WORD);
      StartHolds(r.size, r.capacity, sp, sc, m);
    } else {
      NoSlots(r);
    }
  }

  lemma NextWord(x: Word)
    ensures W(x + 1) == if x == WORD - 1 then 0 else x + 1
  {
  }

  lemma NoSlots(r: Ring)
    requires r.size == 0
    ensures !Inv(r)
  {
    hide Ordered, Tiled, Words, OneAtATime;
  }

  /** The slot of an index is found by `index & mask`. */
  lemma MaskFindsSlot(count: Word, exact: bool, sp: bool, sc: bool, m: nat, head: Word)
    requires Create(count, exact, sp, sc, m).Some? && Create(count, exact, sp, sc, m).value.size > 0
    ensures var size := Create(count, exact, sp, sc, m).value.size; And(head, size - 1) == First(size, head)
  {
    hide IsPow2, Align32Pow2, PowerOf2, And;
    var size := Create(count, exact, sp, sc, m).value.size;
    PowerOf2Accepts(size);
    AndMask(head, size);
  }

  /** Exactly which rings are created: without an exact size, those of size 0 or a power of two
      up to 2^27; with one, those for fewer than 2^27 objects, and those for so many that their
      size comes out as 0. */
  lemma CreatedExactly(count: Word, exact: bool, sp: bool, sc: bool, m: nat)
    ensures Create(count, exact, sp, sc, m).Some?
            <==> if exact then count < 0x800_0000 || count >= 0x8000_0000
                 else count == 0 || (IsPow2(count) && count <= 0x800_0000)
  {
    hide IsPow2, Align32Pow2, PowerOf2, W;
    MaskIsBelowPow2();
    if exact {
      NextWord(count);
      var size := Align32Pow2(W(count + 1));
      AlignIsLeast(W(count + 1));
      PowerOf2Accepts(size);
      if size != 0 {
        if count + 1 <= 0x800_0000 { assert size <= 0x800_0000; } else { Pow2Above(size, 0x800_0000); }
      }
    } else {
      PowerOf2Accepts(count);
      if IsPow2(count) && count > 0x800_0000 { Pow2Above(count, 0x800_0000); }
    }
  }

  /** The limit on sizes is just below a power of two. */
  lemma MaskIsBelowPow2()
    ensures IsPow2(0x800_0000) && SIZE_MASK == 2 * 0x800_0000 - 1
  {
    hide Ones;
    ThreeOnes();
    FourMoreOnes(3);
    FourMoreOnes(7);
    FourMoreOnes(11);
    FourMoreOnes(15);
    FourMoreOnes(19);
    FourMoreOnes(23);
    OnesArePow2(27);
  }

  // ----- Single and multiple producers and consumers --------------------------------------------

  lemma SameFlags(s: Ring, step: Step)
    requires Enabled(s, step)
    ensures Next(s, step).prod.single == s.prod.single && Next(s, step).cons.single == s.cons.single
  {
    hide W, Slot, Available, Amount;
  }

  lemma {:induction false} FlagsKept(s: Ring, steps: seq<Step>)
    requires IsRun(s, steps)
    ensures RunAll(s, steps).prod.single == s.prod.single && RunAll(s, steps).cons.single == s.cons.single
    decreases |steps|
  {
    hide Enabled, Next;
    if steps != [] {
      SameFlags(s, steps[0]);
      FlagsKept(Next(s, steps[0]), steps[1..]);
    }
  }

  /** Thread t has no call under way and makes a call that its table allows. */
  predicate MayCall(s: Ring, t: nat, req: Request) {
    && t < |s.threads| && (s.threads[t].Idle? || s.threads[t].Done?)
    && (req.side.Prod? ==> |req.objs| == req.max)
  }

  /** A call of enqueue (for Prod) or dequeue of some thread other than t is under way. */
  predicate OtherCall(s: Ring, t: nat, side: Side) {
    exists u :: 0 <= u < |s.threads| && u != t && !s.threads[u].Idle? && !s.threads[u].Done? && s.threads[u].req.side == side
  }

  /** After any run of a created ring: if it was made for one producer, a call of enqueue may
      begin unless another is under way, and moves the head at once.  If it was made for many,
      a call may always begin, and moves the head if and only if it is still the one loaded.
      The same holds of consumers. */
  lemma FlagsAreObeyed(count: Word, exact: bool, sp: bool, sc: bool, m: nat, steps: seq<Step>, t: nat, req: Request)
    requires Create(count, exact, sp, sc, m).Some? && IsRun(Create(count, exact, sp, sc, m).value, steps)
    ensures var s := RunAll(Create(count, exact, sp, sc, m).value, steps);
            && (MayCall(s, t, req) && req.side.Prod? ==> (Enabled(s, Begin(t, req)) <==> !sp || !OtherCall(s, t, Prod)))
            && (MayCall(s, t, req) && req.side.Cons? ==> (Enabled(s, Begin(t, req)) <==> !sc || !OtherCall(s, t, Cons)))
            && (Enabled(s, MoveHead(t)) ==>
                  var th, s' := s.threads[t], Next(s, MoveHead(t));
                  && (th.req.side.Prod? ==> s'.cons == s.cons && s'.prod.tail == s.prod.tail)
                  && (th.req.side.Cons? ==> s'.prod == s.prod && s'.cons.tail == s.cons.tail)
                  && (th.req.side.Prod? ==>
                        s'.prod.head == if sp || s.prod.head == th.oldHead then W(th.oldHead + th.n) else s.prod.head)
                  && (th.req.side.Cons? ==>
                        s'.cons.head == if sc || s.cons.head == th.oldHead then W(th.oldHead + th.n) else s.cons.head))
  {
    hide IsRun, RunAll, W, Align32Pow2, PowerOf2;
    var r := Create(count, exact, sp, sc, m).value;
    FlagsKept(r, steps);
    if MayCall(RunAll(r, steps), t, req) {
      BeginsUnless(RunAll(r, steps), t, req);
    }
  }

  lemma BeginsUnless(s: Ring, t: nat, req: Request)
    requires MayCall(s, t, req)
    ensures Enabled(s, Begin(t, req)) <==> !s.Ends(req.side).single || !OtherCall(s, t, req.side)
  {
  }

  // ----- The rings of FEMU ---------------------------------------------------------------------------

  datatype RingType = SpSc | MpSc | MpMc

  /** `femu_ring_create`. */
  function CreateOfType(ty: RingType, count: Word, m: nat): Option<Ring> {
    Create(count, false, ty.SpSc?, ty.SpSc? || ty.MpSc?, m)
  }

  /** The rings between the pollers and the FTL thread hold 2^16 - 1 requests, and any number of
      producers may use them but one consumer. */
  lemma PollerRing(m: nat)
    ensures var r := CreateOfType(MpSc, 0x1_0000, m);
            r.Some? && Inv(r.value) && r.value.capacity == 0xffff && !r.value.prod.single && r.value.cons.single
  {
    hide Inv, IsPow2, PowerOf2;
    PollerSize();
    CreatedExactly(0x1_0000, false, false, true, m);
    CreateIsUsable(0x1_0000, false, false, true, m);
  }

  lemma PollerSize()
    ensures IsPow2(0x1_0000)
  {
    hide Ones;
    ThreeOnes();
    FourMoreOnes(3);
    FourMoreOnes(7);
    FourMoreOnes(11);
    OneMoreOne(15);
    OnesArePow2(16);
  }

  lemma OneMoreOne(n: nat)
    ensures Ones(n + 1) == 2 * Ones(n) + 1
  {
  }
}
