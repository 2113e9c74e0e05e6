// Elementary facts on quotients, remainders and powers.
module Arithmetic {

  lemma SmallMultiple(n: int, d: int)
    requires 0 < n && -n < n * d < n
    ensures d == 0
  {
  }

  /** Quotient and remainder are determined by a == q * n + r with 0 <= r < n. */
  lemma DivModUnique(a: int, n: int, q: int, r: int)
    requires 0 < n && 0 <= r < n && a == q * n + r
    ensures a / n == q && a % n == r
  {
    assert n * (a / n) + a % n == a;
    assert n * (a / n - q) == r - a % n;
    SmallMultiple(n, a / n - q);
  }

  lemma DivModSplit(a: int, n: int, q: int, r: int)
    requires 0 <= r < n && a == r + n * q
    ensures a / n == q && a % n == r
  {
    DivModUnique(a, n, q, r);
  }

  lemma ModBounds(a: nat, n: nat)
    requires 0 < n
    ensures 0 <= a % n < n && a % n <= a
  {
    assert n * (a / n) + a % n == a;
    assert n * (a / n) >= 0;
  }

  lemma MulMonotone(b: int, x: int, y: int)
    requires 0 <= b && x <= y
    ensures b * x <= b * y
  {
    assert b * (y - x) >= 0;
  }

  lemma DivMod(x: int, b: int)
    requires 0 < b
    ensures x % b + b * (x / b) == x
  {
  }

  lemma QuotientBound(x: int, b: int, w: int)
    requires 0 < b && x < b * w
    ensures x / b < w
  {
    var q := x / b;
    assert b * q <= x;
    if w <= q { MulMonotone(b, w, q); }
  }

  // ---------------------------------------------------------------- powers of natural numbers

  function Pow(b: nat, k: nat): nat { if k == 0 then 1 else b * Pow(b, k - 1) }

  lemma {:induction false} PowPositive(b: nat, k: nat)
    requires 1 <= b
    ensures 1 <= Pow(b, k)
  {
    if k > 0 { PowPositive(b, k - 1); }
  }

  lemma {:induction false} PowAdd(b: nat, i: nat, j: nat)
    ensures Pow(b, i + j) == Pow(b, i) * Pow(b, j)
  {
    if i > 0 {
      PowAdd(b, i - 1, j);
      PowSucc(b, i + j - 1);
      PowSucc(b, i - 1);
      hide *;
      Associate(b, Pow(b, i - 1), Pow(b, j));
    }
  }

  lemma Associate(b: int, x: int, y: int)
    ensures b * (x * y) == b * x * y
  {
  }

  lemma PowSucc(b: nat, k: nat)
    ensures Pow(b, k + 1) == b * Pow(b, k)
  {
  }

  function TwoTo(k: nat): (r: nat)
    ensures 1 <= r
  {
    PowPositive(2, k);
    Pow(2, k)
  }

  // ---------------------------------------------------------------- powers of integers

  function Power(x: int, k: nat): int { if k == 0 then 1 else x * Power(x, k - 1) }

  lemma {:induction false} PowerAdd(x: int, i: nat, j: nat)
    ensures Power(x, i + j) == Power(x, i) * Power(x, j)
  {
    if i > 0 {
      PowerAdd(x, i - 1, j);
      assert x * (Power(x, i - 1) * Power(x, j)) == Power(x, i) * Power(x, j);
    }
  }

  lemma {:induction false} PowerPower(x: int, i: nat, j: nat)
    ensures Power(Power(x, i), j) == Power(x, i * j)
  {
    if j > 0 {
      PowerPower(x, i, j - 1);
      assert i * j == i + i * (j - 1);
      PowerAdd(x, i, i * (j - 1));
    } else {
      assert i * j == 0;
    }
  }
}
