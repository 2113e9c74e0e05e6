// Sliding-window powers and the square root of pbc-0.5.14/arith/field.c, in the integers modulo an odd prime q.
module SquareRoots {
  import opened Arithmetic
  import opened PrimeFields
  import opened Polynomials
  import opened Products

  // ---------------------------------------------------------------- bits of an exponent

  /** `mpz_sizeinbase(n, 2)` for n > 0. */
  function BitLength(n: nat): nat { if n == 0 then 0 else 1 + BitLength(n / 2) }

  /** n without its s low bits. */
  function Above(n: nat, s: nat): nat { if s == 0 then n else Above(n / 2, s - 1) }

  /** `mpz_tstbit`. */
  function Bit(n: nat, s: nat): (b: nat)
    ensures b <= 1
  {
    Above(n, s) % 2
  }

  lemma {:induction false} AboveTop(n: nat)
    ensures Above(n, BitLength(n)) == 0
  {
    if n > 0 { AboveTop(n / 2); }
  }

  lemma {:induction false} AboveNext(n: nat, s: nat)
    ensures Above(n, s) == 2 * Above(n, s + 1) + Bit(n, s)
  {
    if s > 0 { AboveNext(n / 2, s - 1); }
  }

  // ---------------------------------------------------------------- windowed powers

  /** `optimal_pow_window_size`. */
  function WindowSize(n: nat): (k: nat)
    ensures 2 <= k <= 8
  {
    var bits := BitLength(n);
    if bits > 9065 then 8 else if bits > 3529 then 7 else if bits > 1324 then 6 else if bits > 474 then 5
    else if bits > 157 then 4 else if bits > 47 then 3 else 2
  }

  /** `value` is the residue of a^n. */
  ghost predicate IsPower(q: int, a: int, n: nat, value: int)
    requires 0 < q
  {
    0 <= value < q && Cong(value, Power(a, n), q)
  }

  lemma PowerMul(q: int, a: int, m: nat, n: nat, x: int, y: int)
    requires 0 < q && IsPower(q, a, m, x) && IsPower(q, a, n, y)
    ensures IsPower(q, a, m + n, x * y % q)
  {
    PowerAdd(a, m, n);
    CongMul(x, Power(a, m), y, Power(a, n), q);
    CongMod(x * y, q);
  }

  /** `build_pow_window`: a^0, ..., a^(2^k - 1). */
  method BuildPowWindow(q: int, a: int, k: nat) returns (lookup: seq<int>)
    requires 2 <= q && 1 <= k
    ensures |lookup| == TwoTo(k) && forall i :: 0 <= i < |lookup| ==> IsPower(q, a, i, lookup[i])
  {
    lookup := [1];
    assert IsPower(q, a, 0, 1);
    assert IsPower(q, a, 1, a % q) by { CongMod(a, q); assert Power(a, 1) == a * Power(a, 0); }
    for s := 1 to TwoTo(k)
      invariant |lookup| == s && forall i :: 0 <= i < s ==> IsPower(q, a, i, lookup[i])
    {
      PowerMul(q, a, s - 1, 1, lookup[s - 1], a % q);
      CongMod(a, q);
      CongMul(lookup[s - 1], lookup[s - 1], a % q, a, q);
      lookup := lookup + [lookup[s - 1] * a % q];
    }
  }

  /** `element_pow_wind`: scanning the exponent from the top, multiplying in one looked-up word of at most k bits at a
      time. */
  method PowWind(q: int, ghost a: int, n: nat, k: nat, lookup: seq<int>) returns (x: int)
    requires 2 <= q && 1 <= k
    requires |lookup| == TwoTo(k) && forall i :: 0 <= i < |lookup| ==> IsPower(q, a, i, lookup[i])
    ensures x == Power(a, n) % q
  {
    if n == 0 { return 1; }
    var result := 1;
    var inword, word, wbits := false, 0, 0;
    var s := BitLength(n);
    AboveTop(n);
    hide Power, IsPower, Above, Bit;
    PowerZero(q, a);
    while 0 < s
      invariant 0 <= s && 0 <= word <= Above(n, s) && (!inword ==> word == 0) && (s == 0 ==> !inword)
      invariant inword ==> 0 < wbits < k && word < TwoTo(wbits)
      invariant IsPower(q, a, Above(n, s) - word, result)
    {
      s := s - 1;
      AboveNext(n, s);
      ghost var done := Above(n, s + 1) - word;
      result := MulPowers(q, a, done, done, result, result);
      var bit := Bit(n, s);
      if !inword && bit == 0 { continue; }
      if !inword {
        inword, word, wbits := true, 1, 1;
      } else {
        word, wbits := 2 * word + bit, wbits + 1;
      }
      assert word < TwoTo(wbits) && Above(n, s) - word == 2 * done;
      if wbits == k || s == 0 {
        TwoToMonotone(wbits, k);
        result := MulPowers(q, a, 2 * done, word, result, lookup[word]);
        inword, word := false, 0;
      }
    }
    x := result;
    PowerResidue(q, a, n, x);
  }

  lemma PowerZero(q: int, a: int)
    requires 2 <= q
    ensures IsPower(q, a, 0, 1)
  {
  }

  lemma PowerResidue(q: int, a: int, n: nat, x: int)
    requires 2 <= q
    ensures IsPower(q, a, n, x) ==> x == Power(a, n) % q
    ensures Above(n, 0) == n
  {
    if IsPower(q, a, n, x) { DivModUnique(x, q, 0, x); }
  }

  /** `element_mul` of two powers. */
  method MulPowers(q: int, ghost a: int, ghost m: nat, ghost n: nat, x: int, y: int) returns (z: int)
    requires 0 < q && IsPower(q, a, m, x) && IsPower(q, a, n, y)
    ensures IsPower(q, a, m + n, z)
  {
    PowerMul(q, a, m, n, x, y);
    z := x * y % q;
  }

  lemma {:induction false} TwoToMonotone(i: nat, j: nat)
    requires i <= j
    ensures TwoTo(i) <= TwoTo(j)
    decreases j
  {
    if i < j { TwoToMonotone(i, j - 1); }
  }

  /** `generic_pow_mpz`. */
  method Pow(q: int, a: int, n: nat) returns (x: int)
    requires 2 <= q
    ensures x == Power(a, n) % q
  {
    if n == 0 { return 1; }
    var k := WindowSize(n);
    var lookup := BuildPowWindow(q, a, k);
    x := PowWind(q, a, n, k, lookup);
  }

  // ---------------------------------------------------------------- square roots

  ghost predicate IsSquare(q: int, a: int)
    requires 0 < q
  {
    exists r :: IsRootOf(q, r, a)
  }

  ghost predicate IsRootOf(q: int, r: int, a: int)
    requires 0 < q
  {
    Cong(r * r, a, q)
  }

  lemma {:induction false} PowerProduct(x: int, y: int, n: nat)
    ensures Power(x * y, n) == Power(x, n) * Power(y, n)
  {
    if n > 0 {
      PowerProduct(x, y, n - 1);
      Interleave(x, y, Power(x, n - 1), Power(y, n - 1));
    }
  }

  lemma Interleave(x: int, y: int, u: int, v: int)
    ensures x * y * (u * v) == (x * u) * (y * v)
  {
  }

  /** Euler: a non-zero square has (q-1)/2-th power 1. */
  lemma SquarePowerOne(q: int, a: int, h: nat)
    requires Prime(q) && q == 2 * h + 1 && IsSquare(q, a) && a % q != 0
    ensures Cong(Power(a, h), 1, q)
  {
    var r :| IsRootOf(q, r, a);
    DivModUnique(0, q, 0, 0);
    if r % q == 0 { CongMul(r, 0, r, 0, q); }
    Fermat(q, r);
    PowerCong(r * r, a, h, q);
    PowerProduct(r, r, h);
    PowerAdd(r, h, h);
  }

  /** The only square roots of 1 are 1 and -1. */
  lemma RootsOfOne(q: int, z: int)
    requires Prime(q) && Cong(z * z, 1, q)
    ensures Cong(z, 1, q) || Cong(z, -1, q)
  {
    CongAdd(z * z, 1, 1, 1, q);
    assert z * z - 1 == (z - 1) * (z + 1);
    NoZeroDivisors(z - 1, z + 1, q);
    if Cong(z - 1, 0, q) { CongAdd(z - 1, 0, 1, 1, q); } else { CongAdd(z + 1, 0, 1, 1, q); }
  }

  /** The inverse of a non-residue has (q-1)/2-th power -1 as well. */
  lemma InverseMinusOne(q: int, nqr: int, ginv: int, h: nat)
    requires 0 < q && Cong(Power(nqr, h), -1, q) && Cong(nqr * ginv, 1, q)
    ensures Cong(Power(ginv, h), -1, q)
  {
    PowersCancel(q, nqr, ginv, h);
    var x := Power(ginv, h);
    CongMul(Power(nqr, h), -1, x, x, q);
    assert -1 * x == -x;
    CongAdd(0, 0, -x, 1, q);
  }

  /** Powers of inverses are inverse. */
  lemma PowersCancel(q: int, x: int, y: int, n: nat)
    requires 0 < q && Cong(x * y, 1, q)
    ensures Cong(Power(x, n) * Power(y, n), 1, q)
  {
    PowerProduct(x, y, n);
    PowerCong(x * y, 1, n, q);
    PowerOfOne(n);
  }

  lemma {:induction false} PowerOfOne(n: nat)
    ensures Power(1, n) == 1
  {
    if n > 0 { PowerOfOne(n - 1); }
  }

  /** (ginv^e a)^m is 1. */
  ghost predicate Rooted(q: int, a: int, ginv: int, e: nat, m: nat)
    requires 0 < q
  {
    Cong(Power(Power(ginv, e) * a, m), 1, q)
  }

  /** One step: halving the power gives 1 or -1, and a new bit of e turns -1 into 1. */
  lemma TonelliStep(q: int, a: int, ginv: int, e: nat, m: nat, bit: nat, e0: int)
    requires Prime(q) && q > 2 && Rooted(q, a, ginv, e, 2 * m) && Cong(Power(ginv, bit * m), -1, q)
    requires 0 <= e0 < q && Cong(e0, Power(Power(ginv, e) * a, m), q)
    ensures Rooted(q, a, ginv, if e0 == 1 then e else e + bit, m)
  {
    var b := Power(ginv, e) * a;
    if e0 != 1 {
      PowerAdd(b, m, m);
      RootsOfOne(q, Power(b, m));
      if Cong(Power(b, m), 1, q) { ResidueUnique(e0, 1, q); }
      PowerAdd(ginv, e, bit);
      assert Power(ginv, e + bit) * a == b * Power(ginv, bit) by { Reordered(Power(ginv, e), Power(ginv, bit), a); }
      PowerProduct(b, Power(ginv, bit), m);
      PowerPower(ginv, bit, m);
      CongMul(Power(b, m), -1, Power(ginv, bit * m), -1, q);
    }
  }

  lemma Reordered(x: int, y: int, a: int)
    ensures x * y * a == x * a * y
  {
  }

  /** Putting the root together. */
  lemma RootSquares(q: int, a: int, nqr: int, ginv: int, half: nat, t: nat, b: int, x0: int, x1: int)
    requires 0 < q && t % 2 == 1 && Cong(nqr * ginv, 1, q) && Cong(b, Power(ginv, 2 * half) * a, q)
    requires Cong(x0, Power(b, (t + 1) / 2), q) && Cong(x1, Power(nqr, half), q)
    requires Cong(a, 0, q) || Cong(Power(b, t), 1, q)
    ensures Cong((x1 * x0) * (x1 * x0), a, q)
  {
    var k, n := (t + 1) / 2, Power(nqr, half);
    PowerAdd(nqr, half, half);
    PowerAdd(b, k, k);
    assert Power(b, t + 1) == b * Power(b, t);
    CongMul(x1, n, x0, Power(b, k), q);
    CongMul(x1 * x0, n * Power(b, k), x1 * x0, n * Power(b, k), q);
    Interleave(n, Power(b, k), n, Power(b, k));
    assert (n * Power(b, k)) * (n * Power(b, k)) == Power(nqr, 2 * half) * (b * Power(b, t));
    PowersCancel(q, nqr, ginv, 2 * half);
    RootValue(q, Power(nqr, 2 * half), Power(ginv, 2 * half), a, b, Power(b, t));
  }

  lemma RootValue(q: int, n: int, g: int, a: int, b: int, bt: int)
    requires 0 < q && Cong(n * g, 1, q) && Cong(b, g * a, q) && (Cong(a, 0, q) || Cong(bt, 1, q))
    ensures Cong(n * (b * bt), a, q)
  {
    CongMul(n, n, b, g * a, q);
    CongMul(n * g, 1, a, a, q);
    assert n * (g * a) == n * g * a;
    CongMul(n * b, a, bt, bt, q);
    assert n * (b * bt) == n * b * bt;
    if Cong(a, 0, q) { CongMul(a, 0, bt, bt, q); } else { CongMul(a, a, bt, 1, q); }
  }

  /** n = 2^s * t with t odd: the position of the lowest set bit, and what is above it. */
  method SplitOdd(n: nat) returns (s: nat, t: nat)
    requires 0 < n
    ensures n == TwoTo(s) * t && t % 2 == 1
  {
    s, t := 0, n;
    while t % 2 == 0
      invariant 0 < t && n == TwoTo(s) * t
      decreases t
    {
      assert TwoTo(s + 1) * (t / 2) == TwoTo(s) * t by { assert t == 2 * (t / 2); Doubling(TwoTo(s), t / 2); }
      s, t := s + 1, t / 2;
    }
  }

  lemma Doubling(w: int, h: int)
    ensures 2 * w * h == w * (2 * h) == 2 * (w * h)
  {
  }

  lemma TwoToAdd(i: nat, j: nat)
    ensures TwoTo(i + j) == TwoTo(i) * TwoTo(j)
  {
    PowAdd(2, i, j);
  }

  /** Shifting q - 1 right by i <= s bits. */
  lemma ShiftedOrder(n: nat, s: nat, t: nat, i: nat)
    requires n == TwoTo(s) * t && i <= s
    ensures n / TwoTo(i) == TwoTo(s - i) * t && n == TwoTo(i) * (TwoTo(s - i) * t)
  {
    TwoToAdd(i, s - i);
    assert TwoTo(i) * TwoTo(s - i) * t == (TwoTo(s - i) * t) * TwoTo(i);
    DivModUnique(n, TwoTo(i), TwoTo(s - i) * t, 0);
  }

  /** The loop invariant: bits 1 .. i-2 of the even exponent e are decided, and for a non-zero square the power is 1. */
  ghost predicate Progress(q: int, a: int, ginv: int, e: nat, i: nat, s: nat, t: nat)
    requires 0 < q
  {
    && 2 <= i <= s + 1 && e % 2 == 0 && e < TwoTo(i - 1)
    && (IsSquare(q, a) ==> Cong(a, 0, q) || Rooted(q, a, ginv, e, TwoTo(s + 1 - i) * t))
  }

  lemma ProgressStart(q: int, a: int, ginv: int, s: nat, t: nat)
    requires Prime(q) && q - 1 == TwoTo(s) * t && 1 <= s
    ensures Progress(q, a, ginv, 0, 2, s, t)
  {
    assert TwoTo(1) == 2;
    ShiftedOrder(q - 1, s, t, 1);
    DivModUnique(0, q, 0, 0);
    if IsSquare(q, a) && a % q != 0 {
      SquarePowerOne(q, a, TwoTo(s - 1) * t);
      assert Power(ginv, 0) * a == a;
    }
  }

  lemma ProgressStep(q: int, a: int, ginv: int, e: nat, i: nat, s: nat, t: nat, e0: int)
    requires Prime(q) && q > 2 && i <= s && Progress(q, a, ginv, e, i, s, t)
    requires Cong(Power(ginv, TwoTo(s - 1) * t), -1, q)
    requires 0 <= e0 < q && Cong(e0, Power(Power(ginv, e) * a, TwoTo(s - i) * t), q)
    ensures Progress(q, a, ginv, if e0 == 1 then e else e + TwoTo(i - 1), i + 1, s, t)
  {
    hide Prime, Power, TwoTo, IsSquare, Rooted, Cong;
    Exponents(s, t, i);
    var m: nat, bit := TwoTo(s - i) * t, TwoTo(i - 1);
    if IsSquare(q, a) && !Cong(a, 0, q) { TonelliStep(q, a, ginv, e, m, bit, e0); }
  }

  lemma Exponents(s: nat, t: nat, i: nat)
    requires 2 <= i <= s
    ensures TwoTo(i - 1) % 2 == 0 && TwoTo(i) == 2 * TwoTo(i - 1)
    ensures TwoTo(s + 1 - i) * t == 2 * (TwoTo(s - i) * t) && TwoTo(i - 1) * (TwoTo(s - i) * t) == TwoTo(s - 1) * t
  {
    TwoToAdd(i - 1, s - i);
    Doubling(TwoTo(s - i), t);
    Associate(TwoTo(i - 1), TwoTo(s - i), t);
  }

  /** ginv^e * a as the code computes it. */
  method Twisted(q: int, ginv: int, e: nat, a: int) returns (b: int)
    requires 2 <= q
    ensures 0 <= b < q && Cong(b, Power(ginv, e) * a, q)
  {
    var w := Pow(q, ginv, e);
    CongMod(Power(ginv, e), q);
    CongMul(w, Power(ginv, e), a, a, q);
    CongMod(w * a, q);
    b := w * a % q;
  }

  /** `element_tonelli`: the result squares to a exactly when a has a square root. */
  method Tonelli(q: int, a: int, nqr: int) returns (x: int)
    requires Prime(q) && q > 2 && q % 2 == 1 && Cong(Power(nqr, (q - 1) / 2), -1, q)
    ensures 0 <= x < q && (Cong(x * x, a, q) <==> IsSquare(q, a))
  {
    hide Power, Progress, Prime, Inverse, TwoTo, IsSquare;
    NonResidueIsUnit(q, nqr);
    var ginv := Inverse(nqr, q);
    var s, t := SplitOdd(q - 1);
    EvenOrder(q, s, t);
    InverseMinusOne(q, nqr, ginv, TwoTo(s - 1) * t);
    ProgressStart(q, a, ginv, s, t);
    var e: nat := 0;
    for i := 2 to s + 1
      invariant Progress(q, a, ginv, e, i, s, t)
    {
      ShiftedOrder(q - 1, s, t, i);
      var t0 := (q - 1) / TwoTo(i);
      var b := Twisted(q, ginv, e, a);
      var e0 := Pow(q, b, t0);
      PowResidue(q, b, Power(ginv, e) * a, t0);
      ProgressStep(q, a, ginv, e, i, s, t, e0);
      if e0 != 1 { e := e + TwoTo(i - 1); }
    }
    var b := Twisted(q, ginv, e, a);
    var x0 := Pow(q, b, (t + 1) / 2);
    var x1 := Pow(q, nqr, e / 2);
    x := x1 * x0 % q;
    TonelliResult(q, a, nqr, ginv, e, s, t, b, x0, x1);
  }

  lemma EvenOrder(q: int, s: nat, t: nat)
    requires q > 2 && q % 2 == 1 && q - 1 == TwoTo(s) * t && t % 2 == 1
    ensures 1 <= s && (q - 1) / 2 == TwoTo(s - 1) * t
  {
    if s > 0 {
      assert TwoTo(1) == 2;
      ShiftedOrder(q - 1, s, t, 1);
    }
  }

  lemma NonResidueIsUnit(q: int, nqr: int)
    requires Prime(q) && q > 2 && q % 2 == 1 && Cong(Power(nqr, (q - 1) / 2), -1, q)
    ensures nqr % q != 0
  {
    var h := (q - 1) / 2;
    DivModUnique(0, q, 0, 0);
    DivModUnique(-1, q, -1, q - 1);
    assert Power(0, h) == 0 * Power(0, h - 1);
    if nqr % q == 0 { PowerCong(nqr, 0, h, q); }
  }

  lemma PowResidue(q: int, b: int, c: int, n: nat)
    requires 2 <= q && Cong(b, c, q)
    ensures 0 <= Power(b, n) % q < q && Cong(Power(b, n) % q, Power(c, n), q)
  {
    CongMod(Power(b, n), q);
    PowerCong(b, c, n, q);
  }

  lemma TonelliResult(q: int, a: int, nqr: int, ginv: int, e: nat, s: nat, t: nat, b: int, x0: int, x1: int)
    requires 2 <= q && t % 2 == 1 && Cong(nqr * ginv, 1, q) && Progress(q, a, ginv, e, s + 1, s, t)
    requires Cong(b, Power(ginv, e) * a, q) && x0 == Power(b, (t + 1) / 2) % q && x1 == Power(nqr, e / 2) % q
    ensures 0 <= x1 * x0 % q < q
    ensures Cong((x1 * x0 % q) * (x1 * x0 % q), a, q) <==> IsSquare(q, a)
  {
    var x := x1 * x0 % q;
    CongMod(x1 * x0, q);
    CongMul(x, x1 * x0, x, x1 * x0, q);
    CongMod(Power(b, (t + 1) / 2), q);
    CongMod(Power(nqr, e / 2), q);
    if IsSquare(q, a) {
      assert TwoTo(0) * t == t;
      PowerCong(b, Power(ginv, e) * a, t, q);
      RootSquares(q, a, nqr, ginv, e / 2, t, b, x0, x1);
    }
    if Cong(x * x, a, q) { assert IsRootOf(q, x, a); }
  }
}
