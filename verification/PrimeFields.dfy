// Congruences, and the integers modulo a prime.
module PrimeFields {
  import opened Arithmetic

  predicate Cong(a: int, b: int, n: int)
    requires 0 < n
  {
    a % n == b % n
  }

  /** A difference that is a multiple of `n` makes a congruence. */
  lemma CongFrom(a: int, b: int, n: int, k: int)
    requires 0 < n && a == b + k * n
    ensures Cong(a, b, n)
  {
    var q, r := b / n, b % n;
    assert b == q * n + r;
    SumOfMultiples(q, k, n);
    DivModUnique(a, n, q + k, r);
  }

  lemma SumOfMultiples(q: int, k: int, n: int)
    ensures (q + k) * n == q * n + k * n
    ensures (q - k) * n == q * n - k * n
  {
  }

  /** And back: the quotient of the difference. */
  lemma CongGap(a: int, b: int, n: int) returns (k: int)
    requires 0 < n && Cong(a, b, n)
    ensures a == b + k * n
  {
    k := a / n - b / n;
    assert a == (a / n) * n + a % n;
    assert b == (b / n) * n + b % n;
    SumOfMultiples(a / n, b / n, n);
  }

  lemma CongAdd(a: int, b: int, c: int, d: int, n: int)
    requires 0 < n && Cong(a, b, n) && Cong(c, d, n)
    ensures Cong(a + c, b + d, n) && Cong(a - c, b - d, n)
  {
    var k := CongGap(a, b, n);
    var l := CongGap(c, d, n);
    SumOfMultiples(k, l, n);
    CongFrom(a + c, b + d, n, k + l);
    CongFrom(a - c, b - d, n, k - l);
  }

  lemma CongMul(a: int, b: int, c: int, d: int, n: int)
    requires 0 < n && Cong(a, b, n) && Cong(c, d, n)
    ensures Cong(a * c, b * d, n)
  {
    var k := CongGap(a, b, n);
    var l := CongGap(c, d, n);
    ProductOfGaps(a, b, k, c, d, l, n);
    CongFrom(a * c, b * d, n, b * l + k * c);
  }

  lemma ProductOfGaps(a: int, b: int, k: int, c: int, d: int, l: int, n: int)
    requires a == b + k * n && c == d + l * n
    ensures a * c == b * d + (b * l + k * c) * n
  {
    calc {
      a * c;
      (b + k * n) * c;
      b * c + (k * n) * c;
      b * (d + l * n) + (k * n) * c;
      b * d + b * (l * n) + (k * n) * c;
      { assert b * (l * n) == (b * l) * n && (k * n) * c == (k * c) * n; }
      b * d + (b * l) * n + (k * c) * n;
      { SumOfMultiples(b * l, k * c, n); }
      b * d + (b * l + k * c) * n;
    }
  }

  lemma CongMod(a: int, n: int)
    requires 0 < n
    ensures Cong(a % n, a, n)
  {
    DivModUnique(a % n, n, 0, a % n);
  }

  /** Residues that are congruent are equal. */
  lemma ResidueUnique(a: int, b: int, n: int)
    requires 0 < n && Cong(a, b, n) && 0 <= a < n && 0 <= b < n
    ensures a == b
  {
    DivModUnique(a, n, 0, a);
    DivModUnique(b, n, 0, b);
  }

  // ---------------------------------------------------------------- primes

  ghost predicate Prime(p: int) { 2 <= p && forall d :: 1 < d < p ==> p % d != 0 }

  /** Extended Euclid: a common divisor and the factors that combine to it. */
  function Bezout(a: nat, b: nat): (r: (nat, int, int))
    requires 0 < a
    ensures 0 < r.0 && a % r.0 == 0 && b % r.0 == 0 && a * r.1 + b * r.2 == r.0
    decreases b
  {
    if b == 0 then
      DivModUnique(a, a, 1, 0);
      (a, 1, 0)
    else
      var (g, x, y) := Bezout(b, a % b);
      assert a == (a / b) * b + a % b;
      BackSubstitute(a, b, a / b, a % b, x, y);
      Multiples(a, b, a / b, a % b, g);
      (g, y, x - (a / b) * y)
  }

  lemma BackSubstitute(a: int, b: int, q: int, r: int, x: int, y: int)
    requires a == q * b + r
    ensures b * x + r * y == a * y + b * (x - q * y)
  {
    assert r * y == a * y - (q * b) * y;
    assert b * (x - q * y) == b * x - b * (q * y);
  }

  lemma Multiples(a: int, b: int, q: int, r: int, g: int)
    requires 0 < g && a == q * b + r && b % g == 0 && r % g == 0
    ensures a % g == 0
  {
    assert Cong(b, 0, g) && Cong(r, 0, g);
    CongMul(q, q, b, 0, g);
    CongAdd(q * b, q * 0, r, 0, g);
  }

  /** The inverse of a non-zero residue. */
  function Inverse(a: int, p: int): (x: int)
    requires Prime(p) && a % p != 0
    ensures 0 <= x < p && Cong(a * x, 1, p)
  {
    InverseWorks(a, p);
    Bezout(p, a % p).2 % p
  }

  lemma InverseWorks(a: int, p: int)
    requires Prime(p) && a % p != 0
    ensures var x := Bezout(p, a % p).2 % p;
            0 <= x < p && Cong(a * x, 1, p)
  {
    var r := a % p;
    var (g, s, t) := Bezout(p, r);
    hide Bezout;
    CommonDivisor(p, r, g);
    var x := t % p;
    CongMod(t, p);
    CongMod(a, p);
    CongMul(r, a, t, t, p);
    CongFrom(r * t, 1, p, -s);
    CongMul(a, a, x, t, p);
  }

  lemma CommonDivisor(p: int, r: int, g: int)
    requires Prime(p) && 0 < r < p && 0 < g && p % g == 0 && r % g == 0
    ensures g == 1
  {
    if r < g { DivModUnique(r, g, 0, r); }
  }

  /** Euclid's lemma: no zero divisors. */
  lemma NoZeroDivisors(a: int, b: int, p: int)
    requires Prime(p) && Cong(a * b, 0, p)
    ensures Cong(a, 0, p) || Cong(b, 0, p)
  {
    DivModUnique(0, p, 0, 0);
    if a % p != 0 { CancelUnit(a, Inverse(a, p), b, p); }
  }

  lemma CancelUnit(a: int, x: int, b: int, p: int)
    requires 0 < p && Cong(a * x, 1, p) && Cong(a * b, 0, p)
    ensures Cong(b, 0, p)
  {
    CongMul(a * x, 1, b, b, p);
    CongMul(a * b, 0, x, x, p);
    assert a * x * b == a * b * x;
  }
}
