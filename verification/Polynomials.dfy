// Polynomials over the integers modulo a prime, lowest coefficient first. A polynomial of degree d has d + 1 entries,
// the last one not zero; the zero polynomial is empty.
module Polynomials {
  import opened Arithmetic
  import opened PrimeFields

  predicate IsPoly(p: int, f: seq<int>) {
    (forall i :: 0 <= i < |f| ==> 0 <= f[i] < p) && (f != [] ==> f[|f| - 1] != 0)
  }

  function Eval(f: seq<int>, x: int): int { if f == [] then 0 else f[0] + x * Eval(f[1..], x) }

  /** `coeff`: zero past the end. */
  function Coeff(f: seq<int>, i: nat): int { if i < |f| then f[i] else 0 }

  function Tail(f: seq<int>): (t: seq<int>) { if f == [] then [] else f[1..] }

  lemma EvalTail(f: seq<int>, x: int)
    ensures Eval(f, x) == Coeff(f, 0) + x * Eval(Tail(f), x)
  {
  }

  // ---------------------------------------------------------------- arithmetic over the integers

  /** f - c * g. */
  function RawSubMul(f: seq<int>, c: int, g: seq<int>): (h: seq<int>)
    ensures |h| == if |f| > |g| then |f| else |g|
  {
    seq(if |f| > |g| then |f| else |g|, i requires 0 <= i => Coeff(f, i) - c * Coeff(g, i))
  }

  lemma {:induction false} EvalSubMul(f: seq<int>, c: int, g: seq<int>, x: int)
    ensures Eval(RawSubMul(f, c, g), x) == Eval(f, x) - c * Eval(g, x)
    decreases |f| + |g|
  {
    var h := RawSubMul(f, c, g);
    if h != [] {
      RawSubMulTail(f, c, g);
      EvalSubMul(Tail(f), c, Tail(g), x);
      EvalTail(f, x);
      EvalTail(g, x);
      SubMulHorner(x, Coeff(f, 0), Eval(Tail(f), x), c, Coeff(g, 0), Eval(Tail(g), x));
    }
  }

  lemma RawSubMulTail(f: seq<int>, c: int, g: seq<int>)
    requires f != [] || g != []
    ensures RawSubMul(f, c, g)[0] == Coeff(f, 0) - c * Coeff(g, 0)
    ensures RawSubMul(f, c, g)[1..] == RawSubMul(Tail(f), c, Tail(g))
  {
  }

  lemma RawSubMulAt(f: seq<int>, c: int, g: seq<int>, i: nat)
    requires i < |f| || i < |g|
    ensures RawSubMul(f, c, g)[i] == Coeff(f, i) - c * Coeff(g, i)
  {
  }

  lemma SubMulHorner(x: int, f0: int, f1: int, c: int, g0: int, g1: int)
    ensures f0 - c * g0 + x * (f1 - c * g1) == f0 + x * f1 - c * (g0 + x * g1)
  {
  }

  /** f * g. */
  function RawMul(f: seq<int>, g: seq<int>): (h: seq<int>)
    ensures f != [] && g != [] ==> |h| == |f| + |g| - 1
    ensures f == [] || g == [] ==> |h| <= |f| + |g|
  {
    if f == [] then [] else RawSubMul(ShiftUp(RawMul(f[1..], g)), -f[0], g)
  }

  /** The leading coefficient of a product. */
  lemma {:induction false} RawMulLead(f: seq<int>, g: seq<int>)
    requires f != [] && g != []
    ensures RawMul(f, g)[|f| + |g| - 2] == f[|f| - 1] * g[|g| - 1]
  {
    var m, top := ShiftUp(RawMul(f[1..], g)), |f| + |g| - 2;
    RawMulUnfold(f, g);
    RawSubMulAt(m, -f[0], g, top);
    if |f| > 1 {
      RawMulLead(f[1..], g);
      LeadTerms(f[0], f[|f| - 1], g[|g| - 1], Coeff(m, top), Coeff(g, top), false);
    } else {
      LeadTerms(f[0], f[0], g[|g| - 1], Coeff(m, top), Coeff(g, top), true);
    }
  }

  lemma LeadTerms(f0: int, fl: int, gl: int, m: int, g: int, constant: bool)
    requires if constant then f0 == fl && m == 0 && g == gl else m == fl * gl && g == 0
    ensures m - (-f0) * g == fl * gl
  {
  }

  lemma {:induction false} EvalMul(f: seq<int>, g: seq<int>, x: int)
    ensures Eval(RawMul(f, g), x) == Eval(f, x) * Eval(g, x)
  {
    if f != [] {
      EvalMul(f[1..], g, x);
      RawMulUnfold(f, g);
      EvalSubMul(ShiftUp(RawMul(f[1..], g)), -f[0], g, x);
      EvalShiftUp(RawMul(f[1..], g), x);
      MulHorner(x, f[0], Eval(f[1..], x), Eval(g, x), Eval(RawMul(f[1..], g), x));
    }
  }

  /** x * f. */
  function ShiftUp(f: seq<int>): seq<int> { if f == [] then [] else [0] + f }

  lemma EvalShiftUp(f: seq<int>, x: int)
    ensures Eval(ShiftUp(f), x) == x * Eval(f, x)
  {
    if f != [] { assert ([0] + f)[1..] == f; }
  }

  lemma RawMulUnfold(f: seq<int>, g: seq<int>)
    requires f != []
    ensures RawMul(f, g) == RawSubMul(ShiftUp(RawMul(f[1..], g)), -f[0], g)
  {
  }

  lemma MulHorner(x: int, f0: int, f1: int, g: int, m: int)
    requires m == f1 * g
    ensures x * m - -f0 * g == (f0 + x * f1) * g
  {
    assert x * (f1 * g) == x * f1 * g;
  }

  /** x^k * f. */
  function Shift(k: nat, f: seq<int>): (h: seq<int>)
    ensures |h| == k + |f| && forall i :: 0 <= i < |h| ==> h[i] == if i < k then 0 else f[i - k]
  {
    seq(k, _ => 0) + f
  }

  lemma {:induction false} PowerCong(x: int, y: int, k: nat, p: int)
    requires 0 < p && Cong(x, y, p)
    ensures Cong(Power(x, k), Power(y, k), p)
  {
    if k > 0 {
      PowerCong(x, y, k - 1, p);
      CongMul(x, y, Power(x, k - 1), Power(y, k - 1), p);
    }
  }

  lemma {:induction false} EvalShift(k: nat, f: seq<int>, x: int)
    ensures Eval(Shift(k, f), x) == Power(x, k) * Eval(f, x)
  {
    if k == 0 {
      assert Shift(0, f) == f;
    } else {
      assert Shift(k, f)[1..] == Shift(k - 1, f);
      EvalShift(k - 1, f, x);
      assert x * (Power(x, k - 1) * Eval(f, x)) == Power(x, k) * Eval(f, x);
    }
  }

  /** Setting one coefficient that was zero. */
  lemma {:induction false} EvalUpdate(f: seq<int>, k: nat, c: int, x: int)
    requires k < |f| && f[k] == 0
    ensures Eval(f[k := c], x) == Eval(f, x) + c * Power(x, k)
  {
    if k == 0 {
      assert f[0 := c][1..] == f[1..];
    } else {
      assert f[k := c][1..] == f[1..][k - 1 := c];
      EvalUpdate(f[1..], k - 1, c, x);
      assert x * (Eval(f[1..], x) + c * Power(x, k - 1)) == x * Eval(f[1..], x) + c * Power(x, k);
    }
  }

  lemma {:induction false} EvalZeros(f: seq<int>, x: int)
    requires forall i :: 0 <= i < |f| ==> f[i] == 0
    ensures Eval(f, x) == 0
  {
    if f != [] { EvalZeros(f[1..], x); }
  }

  // ---------------------------------------------------------------- reduction modulo p

  /** Coefficients reduced, leading zeros dropped. */
  function Norm(p: int, f: seq<int>): (h: seq<int>)
    requires 0 < p
    ensures IsPoly(p, h) && |h| <= |f|
    ensures f != [] && f[|f| - 1] % p != 0 ==> |h| == |f|
    ensures f != [] && f[|f| - 1] % p == 0 ==> |h| < |f|
  {
    if f == [] then []
    else
      var t := Norm(p, f[1..]);
      if t == [] && f[0] % p == 0 then [] else [f[0] % p] + t
  }

  lemma {:induction false} EvalNorm(p: int, f: seq<int>, x: int)
    requires 0 < p
    ensures Cong(Eval(Norm(p, f), x), Eval(f, x), p)
  {
    if f != [] {
      var t := Norm(p, f[1..]);
      EvalNorm(p, f[1..], x);
      CongMul(x, x, Eval(t, x), Eval(f[1..], x), p);
      CongMod(f[0], p);
      CongAdd(f[0] % p, f[0], x * Eval(t, x), x * Eval(f[1..], x), p);
      assert ([f[0] % p] + t)[1..] == t;
    }
  }

  /** Only multiples of p reduce to the zero polynomial. */
  lemma {:induction false} NormEmpty(p: int, f: seq<int>)
    requires 0 < p && Norm(p, f) == []
    ensures forall i :: 0 <= i < |f| ==> f[i] % p == 0
  {
    if f != [] {
      NormEmpty(p, f[1..]);
      forall i | 0 <= i < |f| ensures f[i] % p == 0 {
        if i > 0 { assert f[i] == f[1..][i - 1]; }
      }
    }
  }

  /** Reduction does not change a polynomial. */
  lemma {:induction false} NormId(p: int, f: seq<int>)
    requires 0 < p && IsPoly(p, f)
    ensures Norm(p, f) == f
  {
    if f != [] {
      assert IsPoly(p, f[1..]) by { assert |f| > 1 ==> f[1..][|f| - 2] == f[|f| - 1]; }
      NormId(p, f[1..]);
      DivModUnique(f[0], p, 0, f[0]);
      assert f == [f[0]] + f[1..];
    }
  }

  function Sub(p: int, f: seq<int>, g: seq<int>): (h: seq<int>)
    requires 0 < p && IsPoly(p, f) && IsPoly(p, g)
    ensures IsPoly(p, h) && |h| <= (if |f| > |g| then |f| else |g|)
    ensures |f| < |g| ==> |h| == |g|
    ensures |f| > |g| ==> |h| == |f|
  {
    var h := RawSubMul(f, 1, g);
    SubLead(p, f, g);
    Norm(p, h)
  }

  /** The leading coefficient of a difference of different degrees survives. */
  lemma SubLead(p: int, f: seq<int>, g: seq<int>)
    requires 0 < p && IsPoly(p, f) && IsPoly(p, g)
    ensures |f| != |g| ==> RawSubMul(f, 1, g)[(if |f| > |g| then |f| else |g|) - 1] % p != 0
  {
    if |f| < |g| {
      RawSubMulAt(f, 1, g, |g| - 1);
      NegNonZero(g[|g| - 1], p);
    } else if |f| > |g| {
      RawSubMulAt(f, 1, g, |f| - 1);
      DivModUnique(f[|f| - 1], p, 0, f[|f| - 1]);
    }
  }

  lemma NegNonZero(c: int, p: int)
    requires 0 < c < p
    ensures (0 - 1 * c) % p != 0
  {
    DivModUnique(-c, p, -1, p - c);
  }

  lemma EvalSub(p: int, f: seq<int>, g: seq<int>, x: int)
    requires 0 < p && IsPoly(p, f) && IsPoly(p, g)
    ensures Cong(Eval(Sub(p, f, g), x), Eval(f, x) - Eval(g, x), p)
  {
    EvalSubMul(f, 1, g, x);
    EvalNorm(p, RawSubMul(f, 1, g), x);
  }

  /** Polynomials with zero difference are equal. */
  lemma SubZero(p: int, f: seq<int>, g: seq<int>)
    requires 0 < p && IsPoly(p, f) && IsPoly(p, g) && Sub(p, f, g) == []
    ensures f == g
  {
    assert |f| == |g|;
    NormEmpty(p, RawSubMul(f, 1, g));
    forall i | 0 <= i < |f| ensures f[i] == g[i] {
      RawSubMulAt(f, 1, g, i);
      assert RawSubMul(f, 1, g)[i] % p == 0;
      CongDifference(f[i], g[i], p);
    }
  }

  lemma CongDifference(a: int, b: int, p: int)
    requires 0 <= a < p && 0 <= b < p && (a - 1 * b) % p == 0
    ensures a == b
  {
    DivMod(a - b, p);
    SmallMultiple(p, (a - b) / p);
  }

  function Mul(p: int, f: seq<int>, g: seq<int>): (h: seq<int>)
    requires Prime(p) && IsPoly(p, f) && IsPoly(p, g)
    ensures IsPoly(p, h) && (f == [] || g == [] ==> h == [])
    ensures f != [] && g != [] ==> |h| == |f| + |g| - 1
  {
    if f == [] || g == [] then []
    else
      LeadNonZero(p, f[|f| - 1], g[|g| - 1]);
      RawMulLead(f, g);
      Norm(p, RawMul(f, g))
  }

  lemma LeadNonZero(p: int, a: int, b: int)
    requires Prime(p) && 0 < a < p && 0 < b < p
    ensures (a * b) % p != 0
  {
    DivModUnique(a, p, 0, a);
    DivModUnique(b, p, 0, b);
    DivModUnique(0, p, 0, 0);
    if (a * b) % p == 0 { NoZeroDivisors(a, b, p); }
  }

  lemma EvalMulMod(p: int, f: seq<int>, g: seq<int>, x: int)
    requires Prime(p) && IsPoly(p, f) && IsPoly(p, g)
    ensures Cong(Eval(Mul(p, f, g), x), Eval(f, x) * Eval(g, x), p)
  {
    EvalMul(f, g, x);
    if f != [] && g != [] { EvalNorm(p, RawMul(f, g), x); }
  }

  // ---------------------------------------------------------------- roots

  /** The quotient of f by x - a. */
  function Synthetic(f: seq<int>, a: int): (h: seq<int>)
    ensures f != [] ==> |h| == |f| - 1 && (|f| > 1 ==> h[|h| - 1] == f[|f| - 1])
  {
    if |f| <= 1 then []
    else
      assert |f| == 2 ==> Eval(f[1..], a) == f[1] + a * 0;
      [Eval(f[1..], a)] + Synthetic(f[1..], a)
  }

  lemma {:induction false} EvalSynthetic(f: seq<int>, a: int, x: int)
    ensures Eval(f, x) == (x - a) * Eval(Synthetic(f, a), x) + Eval(f, a)
  {
    if |f| > 1 {
      EvalSynthetic(f[1..], a, x);
      assert Synthetic(f, a)[1..] == Synthetic(f[1..], a);
      SyntheticHorner(x, a, f[0], Eval(f[1..], a), Eval(Synthetic(f[1..], a), x), Eval(f[1..], x));
    } else if |f| == 1 {
      assert Eval(f[1..], x) == 0 && Eval(f[1..], a) == 0;
    }
  }

  lemma SyntheticHorner(x: int, a: int, f0: int, fa: int, h: int, fx: int)
    requires fx == (x - a) * h + fa
    ensures f0 + x * fx == (x - a) * (fa + x * h) + (f0 + a * fa)
  {
    assert x * fx == x * ((x - a) * h) + x * fa;
    assert (x - a) * (fa + x * h) == (x - a) * fa + x * ((x - a) * h);
  }

  ghost predicate Distinct(p: int, xs: seq<int>)
    requires 0 < p
  {
    forall i, j :: 0 <= i < j < |xs| ==> !Cong(xs[i], xs[j], p)
  }

  lemma EvalConstant(f: seq<int>, x: int)
    ensures |f| == 1 ==> Eval(f, x) == f[0]
  {
    if |f| == 1 { assert Eval(f[1..], x) == 0; }
  }

  /** A polynomial has fewer roots than coefficients. */
  lemma {:induction false} RootBound(p: int, f: seq<int>, xs: seq<int>)
    requires Prime(p) && f != [] && f[|f| - 1] % p != 0 && Distinct(p, xs)
    requires forall i :: 0 <= i < |xs| ==> Cong(Eval(f, xs[i]), 0, p)
    ensures |xs| < |f|
    decreases |f|
  {
    if xs != [] {
      var a, rest := xs[0], xs[1..];
      var h := Synthetic(f, a);
      DivModUnique(0, p, 0, 0);
      EvalConstant(f, a);
      assert Cong(Eval(f, xs[0]), 0, p);
      forall i | 0 <= i < |rest| ensures Cong(Eval(h, rest[i]), 0, p) {
        var b := rest[i];
        assert b == xs[i + 1];
        EvalSynthetic(f, a, b);
        CongAdd(Eval(f, b), 0, Eval(f, a), 0, p);
        NoZeroDivisors(b - a, Eval(h, b), p);
        if Cong(b - a, 0, p) { CongAdd(b - a, 0, a, a, p); }
      }
      assert Distinct(p, rest) by {
        forall i, j | 0 <= i < j < |rest| ensures !Cong(rest[i], rest[j], p) {
        assert rest[i] == xs[i + 1] && rest[j] == xs[j + 1];
      }
      }
      RootBound(p, h, rest);
    }
  }

  /** So a polynomial that vanishes at as many points as it has coefficients is zero. */
  lemma ManyRoots(p: int, f: seq<int>, xs: seq<int>)
    requires Prime(p) && IsPoly(p, f) && Distinct(p, xs) && |f| <= |xs|
    requires forall i :: 0 <= i < |xs| ==> Cong(Eval(f, xs[i]), 0, p)
    ensures f == []
  {
    if f != [] {
      DivModUnique(f[|f| - 1], p, 0, f[|f| - 1]);
      RootBound(p, f, xs);
    }
  }

  lemma DifferenceVanishes(p: int, f: seq<int>, g: seq<int>, x: int)
    requires 0 < p && IsPoly(p, f) && IsPoly(p, g) && Cong(Eval(f, x), Eval(g, x), p)
    ensures Cong(Eval(Sub(p, f, g), x), 0, p)
  {
    hide Eval, Sub, IsPoly;
    EvalSub(p, f, g, x);
    CongAdd(Eval(f, x), Eval(g, x), Eval(g, x), Eval(g, x), p);
  }

  /** Polynomials of fewer than n coefficients that agree at n points are equal. */
  lemma AgreeEqual(p: int, f: seq<int>, g: seq<int>, xs: seq<int>)
    requires Prime(p) && IsPoly(p, f) && IsPoly(p, g) && Distinct(p, xs) && |f| <= |xs| && |g| <= |xs|
    requires forall i :: 0 <= i < |xs| ==> Cong(Eval(f, xs[i]), Eval(g, xs[i]), p)
    ensures f == g
  {
    hide Eval, Cong, Sub, Norm;
    forall i | 0 <= i < |xs| ensures Cong(Eval(Sub(p, f, g), xs[i]), 0, p) { DifferenceVanishes(p, f, g, xs[i]); }
    ManyRoots(p, Sub(p, f, g), xs);
    SubZero(p, f, g);
  }

  // ---------------------------------------------------------------- the NTL routines used by the decoder

  /** x - a. */
  function Linear(p: int, a: int): (f: seq<int>)
    requires 2 <= p
    ensures IsPoly(p, f) && |f| == 2
  {
    [(-a) % p, 1]
  }

  lemma EvalLinear(p: int, a: int, x: int)
    requires 2 <= p
    ensures Cong(Eval(Linear(p, a), x), x - a, p)
  {
    assert Linear(p, a)[1..] == [1] && [1][1..] == [];
    assert Eval([1], x) == 1;
    CongMod(-a, p);
    CongAdd((-a) % p, -a, x, x, p);
  }

  /** `BuildFromRoots`. */
  function FromRoots(p: int, xs: seq<int>): (f: seq<int>)
    requires Prime(p)
    ensures IsPoly(p, f) && |f| == |xs| + 1
  {
    if xs == [] then [1] else Mul(p, Linear(p, xs[0]), FromRoots(p, xs[1..]))
  }

  ghost predicate Among(p: int, xs: seq<int>, x: int)
    requires 0 < p
  {
    exists i :: 0 <= i < |xs| && Cong(x, xs[i], p)
  }

  lemma AmongCons(p: int, xs: seq<int>, x: int)
    requires 0 < p && xs != []
    ensures Among(p, xs, x) <==> Cong(x, xs[0], p) || Among(p, xs[1..], x)
  {
    if Among(p, xs[1..], x) {
      var i :| 0 <= i < |xs[1..]| && Cong(x, xs[1..][i], p);
      assert Cong(x, xs[i + 1], p);
    }
    if Among(p, xs, x) {
      var i :| 0 <= i < |xs| && Cong(x, xs[i], p);
      assert i > 0 ==> Cong(x, xs[1..][i - 1], p);
    }
  }

  /** It vanishes exactly at the roots. */
  lemma {:induction false} FromRootsVanishes(p: int, xs: seq<int>, x: int)
    requires Prime(p)
    ensures Cong(Eval(FromRoots(p, xs), x), 0, p) <==> Among(p, xs, x)
  {
    if xs == [] {
      assert [1][1..] == [] && Eval([1], x) == 1;
      DivModUnique(1, p, 0, 1);
      DivModUnique(0, p, 0, 0);
    } else {
      var a, rest := xs[0], FromRoots(p, xs[1..]);
      FromRootsVanishes(p, xs[1..], x);
      AmongCons(p, xs, x);
      EvalMulMod(p, Linear(p, a), rest, x);
      EvalLinear(p, a, x);
      hide *;
      CongMul(Eval(Linear(p, a), x), x - a, Eval(rest, x), Eval(rest, x), p);
      ProductVanishes(x, a, Eval(rest, x), p);
      CongSame(Eval(Mul(p, Linear(p, a), rest), x), Eval(Linear(p, a), x) * Eval(rest, x), (x - a) * Eval(rest, x), p);
      FromRootsCons(p, xs);
    }
  }

  lemma FromRootsCons(p: int, xs: seq<int>)
    requires Prime(p) && xs != []
    ensures FromRoots(p, xs) == Mul(p, Linear(p, xs[0]), FromRoots(p, xs[1..]))
  {
  }

  /** Congruent numbers vanish together. */
  lemma CongSame(x: int, y: int, z: int, p: int)
    requires 0 < p && Cong(x, y, p) && Cong(y, z, p)
    ensures Cong(x, 0, p) <==> Cong(z, 0, p)
  {
  }

  lemma ProductVanishes(x: int, a: int, r: int, p: int)
    requires Prime(p)
    ensures Cong((x - a) * r, 0, p) <==> Cong(x, a, p) || Cong(r, 0, p)
  {
    if Cong((x - a) * r, 0, p) {
      NoZeroDivisors(x - a, r, p);
      if Cong(x - a, 0, p) { CongAdd(x - a, 0, a, a, p); }
    }
    if Cong(x, a, p) {
      CongAdd(x, a, a, a, p);
      CongMul(x - a, 0, r, r, p);
    }
    if Cong(r, 0, p) { CongMul(x - a, x - a, r, 0, p); }
  }

  /** Euclidean division, by cancelling the leading coefficient until the remainder is shorter than the divisor. */
  method DivRem(p: int, a: seq<int>, b: seq<int>) returns (q: seq<int>, r: seq<int>)
    requires Prime(p) && IsPoly(p, a) && IsPoly(p, b) && b != []
    ensures IsPoly(p, q) && IsPoly(p, r) && |r| < |b|
    ensures forall x :: IsQuotient(p, a, b, q, r, x)
    ensures |q| == if |a| < |b| then 0 else |a| - |b| + 1
  {
    q, r := [], a;
    if |a| >= |b| { q := seq(|a| - |b| + 1, _ => 0); }
    forall x ensures IsQuotient(p, a, b, q, r, x) { EvalZeros(q, x); }
    var lead := b[|b| - 1];
    DivModUnique(lead, p, 0, lead);
    while |r| >= |b|
      invariant IsPoly(p, r) && |r| <= |a| && |q| == if |a| < |b| then 0 else |a| - |b| + 1
      invariant forall x :: IsQuotient(p, a, b, q, r, x)
      invariant forall i :: 0 <= i < |q| ==> 0 <= q[i] < p && (i <= |r| - |b| ==> q[i] == 0)
      invariant q != [] && |r| < |a| ==> q[|q| - 1] != 0
      decreases |r|
    {
      var s := |r| - |b|;
      var c := r[|r| - 1] * Inverse(lead, p) % p;
      LeadCancels(p, r[|r| - 1], lead);
      var next := Norm(p, RawSubMul(r, c, Shift(s, b)));
      ghost var q0, r0 := q, r;
      q, r := q[s := c], next;
      forall x ensures IsQuotient(p, a, b, q, r, x) {
        assert IsQuotient(p, a, b, q0, r0, x);
        DivStep(p, a, b, q0, r0, s, c, x);
      }
    }
  }

  /** a == q * b + r at the point x. */
  ghost predicate IsQuotient(p: int, a: seq<int>, b: seq<int>, q: seq<int>, r: seq<int>, x: int)
    requires 0 < p
  {
    Quotient(p, Eval(a, x), Eval(b, x), Eval(q, x), Eval(r, x))
  }

  ghost predicate Quotient(p: int, a: int, b: int, q: int, r: int)
    requires 0 < p
  {
    Cong(q * b + r, a, p)
  }

  lemma LeadCancels(p: int, top: int, lead: int)
    requires Prime(p) && 0 < top < p && 0 < lead < p && lead % p != 0
    ensures var c := top * Inverse(lead, p) % p;
            0 < c < p && (top - c * lead) % p == 0
  {
    hide Prime, Inverse;
    CancelsWith(p, top, lead, Inverse(lead, p));
  }

  lemma CancelsWith(p: int, top: int, lead: int, inv: int)
    requires 0 < top < p && Cong(lead * inv, 1, p)
    ensures var c := top * inv % p;
            0 < c < p && (top - c * lead) % p == 0
  {
    var c := top * inv % p;
    CongMod(top * inv, p);
    CongMul(c, top * inv, lead, lead, p);
    CongMul(top, top, lead * inv, 1, p);
    assert top * inv * lead == top * (lead * inv);
    CongAdd(top, top, c * lead, top, p);
    DivModUnique(0, p, 0, 0);
    DivModUnique(top, p, 0, top);
    if c == 0 { ResidueUnique(top, 0, p); }
  }

  lemma DivStep(p: int, a: seq<int>, b: seq<int>, q: seq<int>, r: seq<int>, s: nat, c: int, x: int)
    requires 0 < p && IsQuotient(p, a, b, q, r, x) && s < |q| && q[s] == 0
    ensures IsQuotient(p, a, b, q[s := c], Norm(p, RawSubMul(r, c, Shift(s, b))), x)
  {
    var t := RawSubMul(r, c, Shift(s, b));
    EvalUpdate(q, s, c, x);
    EvalShift(s, b, x);
    EvalSubMul(r, c, Shift(s, b), x);
    EvalNorm(p, t, x);
    var w, bx, qx, rx := Power(x, s), Eval(b, x), Eval(q, x), Eval(r, x);
    var qx1, tx, rx1 := Eval(q[s := c], x), Eval(t, x), Eval(Norm(p, t), x);
    hide Eval, Norm, RawSubMul, Shift, Power, Cong;
    CongAdd(qx1 * bx, qx1 * bx, rx1, tx, p);
    StepSum(qx, c, w, bx, rx);
    assert qx1 * bx + tx == qx * bx + rx;
    CongTrans(qx1 * bx + rx1, qx * bx + rx, Eval(a, x), p);
  }

  lemma StepSum(q: int, c: int, w: int, b: int, r: int)
    ensures (q + c * w) * b + (r - c * (w * b)) == q * b + r
  {
  }

  lemma CongTrans(x: int, y: int, z: int, p: int)
    requires 0 < p && Cong(x, y, p) && Cong(y, z, p)
    ensures Cong(x, z, p)
  {
  }

  lemma DistinctPrefix(p: int, xs: seq<int>, k: nat)
    requires 0 < p && Distinct(p, xs) && k <= |xs|
    ensures Distinct(p, xs[..k])
  {
  }

  /** The interpolating polynomial, built up one point at a time. */
  function Interpolate(p: int, xs: seq<int>, ys: seq<int>): (f: seq<int>)
    requires Prime(p) && |xs| == |ys| && Distinct(p, xs)
    ensures IsPoly(p, f) && |f| <= |xs|
  {
    if xs == [] then []
    else
      var k := |xs| - 1;
      DistinctPrefix(p, xs, k);
      AddPoint(p, Interpolate(p, xs[..k], ys[..k]), xs, ys[k])
  }

  /** A multiple of the product of the earlier factors makes the last point right. */
  function AddPoint(p: int, f: seq<int>, xs: seq<int>, y: int): (h: seq<int>)
    requires Prime(p) && xs != [] && Distinct(p, xs) && |f| < |xs|
    ensures IsPoly(p, h) && |h| <= |xs|
  {
    NewPoint(p, xs);
    Norm(p, RawSubMul(f, Factor(p, f, xs, y), FromRoots(p, xs[..|xs| - 1])))
  }

  function Factor(p: int, f: seq<int>, xs: seq<int>, y: int): int
    requires Prime(p) && xs != [] && Eval(FromRoots(p, xs[..|xs| - 1]), xs[|xs| - 1]) % p != 0
  {
    var last := xs[|xs| - 1];
    (Eval(f, last) - y) * Inverse(Eval(FromRoots(p, xs[..|xs| - 1]), last), p)
  }

  lemma AddPointLast(p: int, f: seq<int>, xs: seq<int>, y: int)
    requires Prime(p) && xs != [] && Distinct(p, xs) && |f| < |xs|
    ensures Cong(Eval(AddPoint(p, f, xs, y), xs[|xs| - 1]), y, p)
  {
    NewPoint(p, xs);
    var last, w := xs[|xs| - 1], FromRoots(p, xs[..|xs| - 1]);
    var c, inv := Factor(p, f, xs, y), Inverse(Eval(w, last), p);
    assert c == (Eval(f, last) - y) * inv;
    hide Prime, FromRoots, Factor, Eval, Norm, RawSubMul;
    EvalSubMul(f, c, w, last);
    EvalNorm(p, RawSubMul(f, c, w), last);
    Correction(Eval(f, last), y, inv, Eval(w, last), p);
  }

  lemma VanishesEarlier(p: int, xs: seq<int>, i: nat)
    requires Prime(p) && i < |xs| - 1
    ensures Cong(Eval(FromRoots(p, xs[..|xs| - 1]), xs[i]), 0, p)
  {
    assert Cong(xs[i], xs[..|xs| - 1][i], p);
    FromRootsVanishes(p, xs[..|xs| - 1], xs[i]);
  }

  lemma AddPointEarlier(p: int, f: seq<int>, xs: seq<int>, y: int, i: nat)
    requires Prime(p) && xs != [] && Distinct(p, xs) && |f| < |xs| && i < |xs| - 1
    ensures Cong(Eval(AddPoint(p, f, xs, y), xs[i]), Eval(f, xs[i]), p)
  {
    NewPoint(p, xs);
    var c, w := Factor(p, f, xs, y), FromRoots(p, xs[..|xs| - 1]);
    assert AddPoint(p, f, xs, y) == Norm(p, RawSubMul(f, c, w));
    hide *;
    VanishesEarlier(p, xs, i);
    EarlierValue(p, f, c, w, xs[i]);
  }

  lemma EarlierValue(p: int, f: seq<int>, c: int, w: seq<int>, x: int)
    requires 0 < p && Cong(Eval(w, x), 0, p)
    ensures Cong(Eval(Norm(p, RawSubMul(f, c, w)), x), Eval(f, x), p)
  {
    EvalSubMul(f, c, w, x);
    EvalNorm(p, RawSubMul(f, c, w), x);
    NoCorrection(Eval(f, x), c, Eval(w, x), Eval(f, x), p);
  }

  /** A new point is not a root of the earlier factors. */
  lemma NewPoint(p: int, xs: seq<int>)
    requires Prime(p) && xs != [] && Distinct(p, xs)
    ensures var k := |xs| - 1;
            Eval(FromRoots(p, xs[..k]), xs[k]) % p != 0
  {
    var k := |xs| - 1;
    FromRootsVanishes(p, xs[..k], xs[k]);
    DivModUnique(0, p, 0, 0);
    if Among(p, xs[..k], xs[k]) {
      var i :| 0 <= i < k && Cong(xs[k], xs[..k][i], p);
      assert Cong(xs[i], xs[k], p);
    }
  }

  /** `interpolate`: the polynomial takes the given values. */
  lemma {:induction false} InterpolateValues(p: int, xs: seq<int>, ys: seq<int>, i: nat)
    requires Prime(p) && |xs| == |ys| && Distinct(p, xs) && i < |xs|
    ensures Cong(Eval(Interpolate(p, xs, ys), xs[i]), ys[i], p)
    decreases |xs|
  {
    var k := |xs| - 1;
    DistinctPrefix(p, xs, k);
    var f := Interpolate(p, xs[..k], ys[..k]);
    assert Interpolate(p, xs, ys) == AddPoint(p, f, xs, ys[k]);
    if i < k {
      InterpolateValues(p, xs[..k], ys[..k], i);
      AddPointEarlier(p, f, xs, ys[k], i);
    } else {
      AddPointLast(p, f, xs, ys[k]);
    }
  }

  lemma NoCorrection(f: int, c: int, w: int, y: int, p: int)
    requires 0 < p && f % p == y % p && Cong(w, 0, p)
    ensures Cong(f - c * w, y, p)
  {
    CongMul(c, c, w, 0, p);
    CongAdd(f, y, c * w, 0, p);
  }

  lemma Correction(f: int, y: int, inv: int, w: int, p: int)
    requires 0 < p && Cong(w * inv, 1, p)
    ensures Cong(f - (f - y) * inv * w, y, p)
  {
    CongMul(f - y, f - y, w * inv, 1, p);
    assert (f - y) * (w * inv) == (f - y) * inv * w;
    CongAdd(f, f, (f - y) * inv * w, f - y, p);
  }

  /** The first k coefficients, as a vector of length k. */
  function Padded(f: seq<int>, k: nat): (s: seq<int>)
    ensures |s| == k && forall i :: 0 <= i < k ==> s[i] == Coeff(f, i)
  {
    seq(k, i requires 0 <= i => Coeff(f, i))
  }

  lemma {:induction false} EvalPadded(f: seq<int>, k: nat, x: int)
    requires |f| <= k
    ensures Eval(Padded(f, k), x) == Eval(f, x)
  {
    if k > 0 {
      assert Padded(f, k)[1..] == Padded(Tail(f), k - 1);
      EvalPadded(Tail(f), k - 1, x);
      EvalTail(f, x);
    }
  }
}
