/** Bit operations on unbounded numbers, as the C code uses them on unsigned integers, and
    what they come to when one operand is a power of two less one. */
module NatBits {
  import opened Arithmetic

  function Or(a: nat, b: nat): nat {
    if a == 0 && b == 0 then 0 else 2 * Or(a / 2, b / 2) + if a % 2 == 1 || b % 2 == 1 then 1 else 0
  }

  function And(a: nat, b: nat): nat {
    if a == 0 then 0 else 2 * And(a / 2, b / 2) + if a % 2 == 1 && b % 2 == 1 then 1 else 0
  }

  /** `a & ~b`. */
  function AndNot(a: nat, b: nat): nat {
    if a == 0 then 0 else 2 * AndNot(a / 2, b / 2) + if a % 2 == 1 && b % 2 == 0 then 1 else 0
  }

  /** `a >> k`. */
  function Shr(a: nat, k: nat): nat {
    if k == 0 then a else Shr(a / 2, k - 1)
  }

  predicate Bit(a: nat, i: nat) {
    if i == 0 then a % 2 == 1 else Bit(a / 2, i - 1)
  }

  predicate IsPow2(n: nat) {
    n == 1 || (n > 1 && n % 2 == 0 && IsPow2(n / 2))
  }

  // ----- Masks ------------------------------------------------------------------------------------

  lemma HalfMask(m: nat)
    requires m > 1 && m % 2 == 0
    ensures (m - 1) / 2 == m / 2 - 1 && (m - 1) % 2 == 1
  {
  }

  lemma AndHalves(a: nat, b: nat)
    requires b % 2 == 1
    ensures And(a, b) == 2 * And(a / 2, b / 2) + a % 2
    ensures AndNot(a, b) == 2 * AndNot(a / 2, b / 2)
  {
  }

  /** `a & (m - 1)` for a power of two m. */
  lemma {:induction false} AndMask(a: nat, m: nat)
    requires IsPow2(m)
    ensures And(a, m - 1) == a % m
    decreases m
  {
    hide And;
    if m == 1 {
      AndZero(a);
    } else {
      HalfMask(m);
      AndHalves(a, m - 1);
      AndMask(a / 2, m / 2);
      HalfMod(a, m);
    }
  }

  lemma {:induction false} AndZero(a: nat)
    ensures And(a, 0) == 0 == a % 1
  {
    if a > 0 { AndZero(a / 2); }
  }

  lemma HalfMod(a: nat, m: nat)
    requires m > 1 && m % 2 == 0
    ensures a % m == 2 * (a / 2 % (m / 2)) + a % 2
    ensures a / m * m == 2 * (a / 2 / (m / 2) * (m / 2))
  {
    var h := m / 2;
    var q, r := a / 2 / h, a / 2 % h;
    assert a / 2 == q * h + r;
    assert q * m == 2 * (q * h);
    DivModUnique(q, 2 * r + a % 2, m);
  }

  /** `a & ~(m - 1)` for a power of two m. */
  lemma {:induction false} AndNotMask(a: nat, m: nat)
    requires IsPow2(m)
    ensures AndNot(a, m - 1) == a / m * m
    decreases m
  {
    hide AndNot;
    if m == 1 {
      AndNotZero(a);
    } else {
      HalfMask(m);
      AndHalves(a, m - 1);
      AndNotMask(a / 2, m / 2);
      HalfMod(a, m);
    }
  }

  lemma {:induction false} AndNotZero(a: nat)
    ensures AndNot(a, 0) == a == a / 1 * 1
  {
    if a > 0 { AndNotZero(a / 2); }
  }

  // ----- Bits ---------------------------------------------------------------------------------------

  lemma {:induction false} OrBit(a: nat, b: nat, i: nat)
    ensures Bit(Or(a, b), i) == (Bit(a, i) || Bit(b, i))
  {
    if a == 0 && b == 0 {
      NoBits(i);
    } else if i > 0 {
      OrBit(a / 2, b / 2, i - 1);
    }
  }

  lemma {:induction false} NoBits(i: nat)
    ensures !Bit(0, i)
  {
    if i > 0 { NoBits(i - 1); }
  }

  lemma {:induction false} ShrBit(a: nat, k: nat, i: nat)
    ensures Bit(Shr(a, k), i) == Bit(a, k + i)
  {
    if k > 0 { ShrBit(a / 2, k - 1, i); }
  }

  /** The number of bits up to the highest one set. */
  function Length(a: nat): nat {
    if a == 0 then 0 else 1 + Length(a / 2)
  }

  lemma {:induction false} LengthBits(a: nat, i: nat)
    ensures i >= Length(a) ==> !Bit(a, i)
    ensures a > 0 && i + 1 == Length(a) ==> Bit(a, i)
  {
    if a == 0 {
      NoBits(i);
    } else if i > 0 {
      LengthBits(a / 2, i - 1);
    }
  }

  /** n ones. */
  function Ones(n: nat): nat {
    if n == 0 then 0 else 2 * Ones(n - 1) + 1
  }

  lemma {:induction false} AllOnes(a: nat, n: nat)
    requires forall i: nat :: Bit(a, i) <==> i < n
    ensures a == Ones(n)
    decreases a + n
  {
    if n > 0 {
      assert Bit(a, 0);
      forall i: nat ensures Bit(a / 2, i) <==> i < n - 1 {
        assert Bit(a, i + 1) <==> Bit(a / 2, i);
      }
      AllOnes(a / 2, n - 1);
    } else if a > 0 {
      LengthBits(a, Length(a) - 1);
    }
  }

  /** One more than n ones is a power of two. */
  lemma {:induction false} OnesArePow2(n: nat)
    ensures IsPow2(Ones(n) + 1)
  {
    if n > 0 {
      OnesArePow2(n - 1);
      assert (Ones(n) + 1) / 2 == Ones(n - 1) + 1;
    }
  }

  lemma {:induction false} OnesBound(a: nat)
    ensures a <= Ones(Length(a)) <= 2 * a
  {
    if a > 0 {
      OnesBound(a / 2);
    }
  }

  // ----- Powers of two ------------------------------------------------------------------------------

  lemma {:induction false} Pow2Divides(n: nat, m: nat)
    requires IsPow2(n) && IsPow2(m) && n <= m
    ensures m % n == 0
  {
    if n > 1 {
      Pow2Divides(n / 2, m / 2);
      HalfMod(m, n);
    }
  }

  /** There is no power of two strictly between m and 2m. */
  lemma {:induction false} Pow2Above(n: nat, m: nat)
    requires IsPow2(n) && IsPow2(m) && m < n
    ensures 2 * m <= n
  {
    if m > 1 {
      Pow2Above(n / 2, m / 2);
    }
  }
}
