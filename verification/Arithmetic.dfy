/** Facts about products, quotients and remainders of variables. */
module Arithmetic {

  lemma SmallMultipleIsZero(k: int, n: int)
    requires -n < k * n < n
    ensures k == 0
  {
    if k >= 1 {
      MulAtLeast(k, n);
    } else if k <= -1 {
      MulAtLeast(-k, n);
    }
  }

  /** Division by n is determined by quotient and remainder. */
  function Quotient(x: nat, n: nat): nat
    requires n > 0
  {
    x / n
  }

  function Remainder(x: nat, n: nat): nat
    requires n > 0
  {
    x % n
  }

  lemma DivModUnique(q: int, r: int, n: int)
    requires 0 <= r < n
    ensures (q * n + r) / n == q && (q * n + r) % n == r
  {
    var x := q * n + r;
    var k := x / n - q;
    assert k * n == (x / n) * n - q * n;
    SmallMultipleIsZero(k, n);
  }

  lemma MulAtLeast(k: int, n: int)
    requires k >= 1 && n >= 0
    ensures k * n >= n
  {
  }

  lemma ScaledGap(x: int, y: int, n: nat)
    requires x < y
    ensures x * n + n <= y * n
  {
    MulAtLeast(y - x, n);
    assert (y - x) * n == y * n - x * n;
  }

  lemma TwoDigits(q: int, r: int, m: int, n: int)
    requires 0 <= q < m && 0 <= r < n
    ensures 0 <= q * n + r < m * n
  {
    assert (m - q) * n >= n by { MulAtLeast(m - q, n); }
    assert (m - q) * n == m * n - q * n;
    assert q * n >= 0;
  }

  lemma DivBelow(x: int, m: int, n: int)
    requires 0 <= x < m * n && 0 < n
    ensures 0 <= x / n < m && 0 <= x % n < n
  {
    var k := x / n - m;
    assert k * n == (x / n) * n - m * n;
    if k >= 0 {
      MulAtLeast(k + 1, n);
    }
  }

  lemma DivMonotone(x: nat, y: nat, n: nat)
    requires x <= y && n > 0
    ensures x / n <= y / n
  {
    var k := x / n - y / n;
    assert k * n == x / n * n - y / n * n;
    if k >= 1 {
      MulAtLeast(k, n);
    }
  }

  lemma MulMonotone(x: int, y: int, p: nat)
    requires x <= y
    ensures x * p <= y * p
  {
    assert (y - x) * p >= 0;
    assert (y - x) * p == y * p - x * p;
  }

  lemma MulLess(x: int, y: int, p: nat)
    requires x * p < y * p
    ensures x < y
  {
    if x >= y {
      MulMonotone(y, x, p);
    }
  }

  /** Adding a multiple of m does not change the remainder. */
  lemma ModMultiple(r: nat, q: nat, m: nat)
    requires m > 0
    ensures (r + q * m) % m == r % m
  {
    assert r + q * m == (r / m + q) * m + r % m;
    DivModUnique(r / m + q, r % m, m);
  }

  lemma ModAdds(x: nat, k: nat, m: nat)
    requires m > 0
    ensures (x % m + k) % m == (x + k) % m
  {
    assert x + k == (x % m + k) + (x / m) * m;
    ModMultiple(x % m + k, x / m, m);
  }

  /** Numbers less than m apart with the same remainder are equal. */
  lemma SameRemainder(x: int, y: int, m: int)
    requires m > 0 && -m < y - x < m && x % m == y % m
    ensures x == y
  {
    var k := y / m - x / m;
    assert k * m == (y / m) * m - (x / m) * m;
    SmallMultipleIsZero(k, m);
  }
}
