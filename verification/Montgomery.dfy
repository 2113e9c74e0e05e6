// Word-by-word Montgomery multiplication of pbc-0.5.14/arith/montfp.c, on values.
module Montgomery {
  import opened Arithmetic
  import opened Limbs
  import opened PrimeFields

  /** Per-field data; `base` is 2^32 or 2^64, `primelimbs` the modulus and `negpinv` is -1/p modulo the base. */
  datatype Field = Field(base: nat, primelimbs: seq<nat>, negpinv: nat) {
    function Modulus(): nat { Val(base, primelimbs) }

    /** R, the smallest power of the base above the modulus. */
    function Radix(): nat { Pow(base, |primelimbs|) }

    ghost predicate Valid() {
      && 3 <= base && negpinv < base
      && primelimbs != [] && Digits(base, primelimbs) && primelimbs[|primelimbs| - 1] != 0
      && Cong(negpinv * Modulus() + 1, 0, base)
    }
  }

  /** `field_init_mont_fp` takes the low limb of 1/p modulo R and negates it: that is -1/p modulo the base. */
  lemma NegInverse(base: nat, t: nat, p: int, inverse: int)
    requires 2 <= base && 1 <= t && 0 < Pow(base, t) && Cong(p * inverse, 1, Pow(base, t))
    ensures Cong((-inverse) % base * p + 1, 0, base)
  {
    PowSucc(base, t - 1);
    hide Pow, Cong;
    var k := CongGap(p * inverse, 1, Pow(base, t));
    var n: int := (-inverse) % base;
    CongMod(-inverse, base);
    var l := CongGap(n, -inverse, base);
    NegatedProduct(n, inverse, l, base, p, k, Pow(base, t - 1));
    CongFrom(n * p + 1, 0, base, l * p - k * Pow(base, t - 1));
  }

  lemma NegatedProduct(n: int, v: int, l: int, b: int, p: int, k: int, w: int)
    requires n == -v + l * b && p * v == 1 + k * (b * w)
    ensures n * p + 1 == 0 + (l * p - k * w) * b
  {
    assert n * p == -(p * v) + l * b * p;
    assert (l * p - k * w) * b == l * b * p - k * (b * w);
  }

  // ---------------------------------------------------------------- one row of mont_mul

  /** The multiplier u for the running value `x`. */
  function Clearing(f: Field, x: int): int
    requires 1 <= f.base
  {
    x % f.base * f.negpinv % f.base
  }

  /** The window z[i .. i+t+1] after row i, given its value `s` before the row: limb `ai` times `bv` is added, then
      the multiple of the modulus that clears the low limb, which is dropped. Limb additions wrap at the base. */
  function Row(f: Field, s: int, ai: int, bv: int): int
    requires 1 <= f.base && f.primelimbs != [] && 1 <= f.Radix()
  {
    var x := s % f.Radix() + ai * bv;
    ShiftOut(f, (s / f.Radix() + x / f.Radix()) % f.base, x % f.Radix() + Clearing(f, x) * f.Modulus())
  }

  /** The window for top limb `v` and cleared value `y`: add its carry to `v`, note an overflow, drop the low limb. */
  function ShiftOut(f: Field, v: int, y: int): int
    requires 1 <= f.base && f.primelimbs != [] && 1 <= f.Radix()
  {
    var w := (v + y / f.Radix()) % f.base;
    y % f.Radix() / f.base + w * Pow(f.base, |f.primelimbs| - 1) + (if w < v then f.Radix() else 0)
  }

  /** The carry out of the top limb when `ai * bv` is added; the code does not keep it. */
  function LostCarry(f: Field, s: int, ai: int, bv: int): int
    requires 1 <= f.base && 1 <= f.Radix()
  {
    (s / f.Radix() + (s % f.Radix() + ai * bv) / f.Radix()) / f.base
  }

  /** The window after all rows for the limbs `a`. */
  function Rows(f: Field, a: seq<nat>, bv: int): int
    requires 1 <= f.base && f.primelimbs != [] && 1 <= f.Radix()
  {
    if a == [] then 0 else Row(f, Rows(f, a[..|a| - 1], bv), a[|a| - 1], bv)
  }

  /** Lost carries of all rows, each with the weight of its row. */
  function LostCarries(f: Field, a: seq<nat>, bv: int): int
    requires 1 <= f.base && f.primelimbs != [] && 1 <= f.Radix()
  {
    if a == [] then 0 else
      var k := |a| - 1;
      LostCarries(f, a[..k], bv) + LostCarry(f, Rows(f, a[..k], bv), a[k], bv) * Pow(f.base, k)
  }

  /** The conditional subtraction at the end. */
  function Finish(f: Field, s: int): int
    requires 1 <= f.Radix()
  {
    if s / f.Radix() != 0 || s % f.Radix() >= f.Modulus() then (s % f.Radix() - f.Modulus()) % f.Radix()
    else s % f.Radix()
  }

  /** What mont_mul computes, whatever the operands. */
  function MontMul(f: Field, a: seq<nat>, bv: int): int
    requires 1 <= f.base && f.primelimbs != [] && 1 <= f.Radix()
  {
    Finish(f, Rows(f, a, bv))
  }

  lemma RadixFacts(f: Field)
    requires f.Valid()
    ensures 1 <= f.Radix() && f.Radix() == f.base * Pow(f.base, |f.primelimbs| - 1)
    ensures 1 <= Pow(f.base, |f.primelimbs| - 1) <= f.Modulus() < f.Radix()
  {
    var t, low, top := |f.primelimbs|, f.primelimbs[..|f.primelimbs| - 1], f.primelimbs[|f.primelimbs| - 1];
    PowPositive(f.base, t - 1);
    PowPositive(f.base, t);
    PowSucc(f.base, t - 1);
    ValBound(f.base, f.primelimbs);
    assert low + [top] == f.primelimbs;
    ValSnoc(f.base, low, top);
    TopWeight(Val(f.base, low), top, Pow(f.base, t - 1));
  }

  lemma TopWeight(low: int, top: int, w: int)
    requires 0 <= low && 1 <= top && 0 <= w
    ensures w <= low + top * w
  {
    MulMonotone(w, 1, top);
  }

  /** In integers without wrap: a row adds ai * bv and u * p, divides by the base, and drops the lost carry. */
  lemma RowExact(b: nat, w0: nat, p: nat, neg: nat, s: int, ai: int, bv: int, x: int, u: int, v: int, lost: int,
          y: int, w: int, r: int)
    requires 2 <= b && 1 <= w0 && r == b * w0 && 1 <= p < r && Cong(neg * p + 1, 0, b)
    requires 0 <= ai < b && 0 <= bv < r
    requires x == s % r + ai * bv && u == x % b * neg % b && y == x % r + u * p
    requires v + b * lost == s / r + x / r && 0 <= v < b
    requires w == (v + y / r) % b
    ensures b * (y % r / b + w * w0 + (if w < v then r else 0)) + lost * (b * r) == s + ai * bv + u * p
  {
    assert y % b == 0 by { LowLimbCleared(b, w0, p, neg, x, u, r); }
    RowBounds(b, w0, p, s, ai, bv, x, u, y, r);
    var flag := if w < v then 1 else 0;
    assert v + y / r == w + b * flag by { Wrapped(b, v, y / r); }
    assert y % r % b == 0 by { RemainderOfMultiple(y, b, w0, r); }
    DivMod(y % r, b);
    DivMod(y, r);
    DivMod(x, r);
    DivMod(s, r);
    RowTotal(b, w0, r, s, s / r, s % r, ai * bv, x, x / r, x % r, u * p, v, lost, y, y / r, y % r, y % r / b, w, flag);
  }

  /** The choice of u clears the low limb. */
  lemma Cleared(b: nat, p: nat, neg: nat, x: int, u: int)
    requires 2 <= b && Cong(neg * p + 1, 0, b) && u == x % b * neg % b
    ensures Cong(x + u * p, 0, b)
  {
    CongMod(x, b);
    CongMod(x % b * neg, b);
    CongMul(x % b, x, neg, neg, b);
    CongMul(u, x * neg, p, p, b);
    CongAdd(x, x, u * p, x * neg * p, b);
    CongMul(x, x, neg * p + 1, 0, b);
    assert x + x * neg * p == x * (neg * p + 1);
  }

  lemma LowLimbCleared(b: nat, w0: nat, p: nat, neg: nat, x: int, u: int, r: int)
    requires 2 <= b && 1 <= w0 && r == b * w0 && Cong(neg * p + 1, 0, b) && u == x % b * neg % b
    ensures Cong(x % r + u * p, 0, b)
  {
    DivMod(x, r);
    CongFromMultiple(x % r, x, b, w0, x / r);
    Cleared(b, p, neg, x, u);
    CongAdd(x % r, x, u * p, u * p, b);
  }

  lemma CongFromMultiple(a: int, x: int, b: nat, w: nat, q: int)
    requires 0 < b && a + b * w * q == x
    ensures Cong(a, x, b)
  {
    assert x == a + (w * q) * b;
    CongFrom(x, a, b, w * q);
  }

  lemma RemainderOfMultiple(y: int, b: nat, w0: nat, r: int)
    requires 0 < b && 0 < r && r == b * w0 && Cong(y, 0, b)
    ensures y % r % b == 0
  {
    DivMod(y, r);
    CongFromMultiple(y % r, y, b, w0, y / r);
  }

  /** Adding two digits overflows exactly when the wrapped sum is below the first. */
  lemma Wrapped(b: nat, v: int, c: int)
    requires 0 <= v < b && 0 <= c < b
    ensures v + c == (v + c) % b + b * (if (v + c) % b < v then 1 else 0)
  {
    if v + c < b {
      DivModUnique(v + c, b, 0, v + c);
    } else {
      DivModUnique(v + c, b, 1, v + c - b);
    }
  }

  lemma RowBounds(b: nat, w0: nat, p: nat, s: int, ai: int, bv: int, x: int, u: int, y: int, r: int)
    requires 2 <= b && 1 <= w0 && r == b * w0 && 1 <= p < r && 0 <= ai < b && 0 <= bv < r
    requires x == s % r + ai * bv && 0 <= u < b && y == x % r + u * p
    ensures 0 <= y / r < b && 0 <= x / r < b
  {
    DigitTimes(b, r, ai, bv);
    DigitTimes(b, r, u, p);
    QuotientRange(x, r, b);
    QuotientRange(y, r, b);
  }

  /** A digit times a value below r, plus a value below r, stays below b * r. */
  lemma DigitTimes(b: int, r: int, d: int, x: int)
    requires 0 <= d < b && 0 <= x < r
    ensures 0 <= d * x <= b * r - r
  {
    MulMonotone(d, x, r);
    MulMonotone(r, d, b - 1);
  }

  lemma QuotientRange(x: int, r: int, b: int)
    requires 0 < r && 0 <= x < b * r
    ensures 0 <= x / r < b
  {
    assert b * r == r * b;
    QuotientBound(x, r, b);
  }

  lemma RowTotal(b: int, w0: int, r: int, s: int, sq: int, sr: int, ab: int, x: int, xq: int, xr: int, up: int,
                 v: int, lost: int, y: int, yq: int, yr: int, yh: int, w: int, flag: int)
    requires r == b * w0 && sr + r * sq == s && x == sr + ab && xr + r * xq == x && y == xr + up && yr + r * yq == y
    requires yr == b * yh && v + b * lost == sq + xq && v + yq == w + b * flag
    ensures b * (yh + w * w0 + flag * r) + lost * (b * r) == s + ab + up
  {
    calc {
      b * (yh + w * w0 + flag * r) + lost * (b * r);
      yr + w * r + b * flag * r + lost * (b * r);
      { assert w * r + b * flag * r == (v + yq) * r; }
      yr + (v + yq) * r + lost * (b * r);
      { assert (v + yq) * r + lost * (b * r) == (v + b * lost) * r + yq * r; }
      yr + (sq + xq) * r + yq * r;
      s + ab + up;
    }
  }
}
