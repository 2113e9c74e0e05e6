// Gao decoding of ntl/rsdecode_impl.h: a truncated extended Euclid on the interpolating polynomial.
module ReedSolomon {
  import opened Arithmetic
  import opened PrimeFields
  import opened Polynomials

  ghost predicate Combination(p: int, a: int, b: int, r: int, s: int, t: int)
    requires 0 < p
  {
    Cong(s * a + t * b, r, p)
  }

  /** u * p0 + v * p1 == r at the point x. */
  ghost predicate CombinesAt(p: int, p0: seq<int>, p1: seq<int>, r: seq<int>, u: seq<int>, v: seq<int>, x: int)
    requires 0 < p
  {
    Combination(p, Eval(p0, x), Eval(p1, x), Eval(r, x), Eval(u, x), Eval(v, x))
  }

  ghost predicate Combines(p: int, p0: seq<int>, p1: seq<int>, r: seq<int>, u: seq<int>, v: seq<int>)
    requires 0 < p
  {
    IsPoly(p, r) && IsPoly(p, u) && IsPoly(p, v) && forall x :: CombinesAt(p, p0, p1, r, u, v, x)
  }

  lemma CombinesFirst(p: int, p0: seq<int>, p1: seq<int>)
    requires 2 <= p && IsPoly(p, p0) && IsPoly(p, p1)
    ensures Combines(p, p0, p1, p0, [1], []) && Combines(p, p0, p1, p1, [], [1])
  {
    forall x ensures CombinesAt(p, p0, p1, p0, [1], [], x) && CombinesAt(p, p0, p1, p1, [], [1], x) {
      EvalConstant([1], x);
    }
  }

  /** One division step keeps the combination. */
  lemma CombinesStep(p: int, p0: seq<int>, p1: seq<int>, r0: seq<int>, s0: seq<int>, t0: seq<int>,
                     r1: seq<int>, s1: seq<int>, t1: seq<int>, q: seq<int>, r2: seq<int>)
    requires Prime(p) && Combines(p, p0, p1, r0, s0, t0) && Combines(p, p0, p1, r1, s1, t1)
    requires IsPoly(p, q) && IsPoly(p, r2) && forall x :: IsQuotient(p, r0, r1, q, r2, x)
    ensures Combines(p, p0, p1, r2, Sub(p, s0, Mul(p, q, s1)), Sub(p, t0, Mul(p, q, t1)))
  {
    var s2, t2 := Sub(p, s0, Mul(p, q, s1)), Sub(p, t0, Mul(p, q, t1));
    hide Eval, Sub, Mul, Cong, Combination, Quotient, CombinesAt, IsQuotient;
    forall x ensures CombinesAt(p, p0, p1, r2, s2, t2, x) {
      assert CombinesAt(p, p0, p1, r0, s0, t0, x) && CombinesAt(p, p0, p1, r1, s1, t1, x)
        && IsQuotient(p, r0, r1, q, r2, x);
      CombinesStepAt(p, p0, p1, r0, s0, t0, r1, s1, t1, q, r2, x);
    }
  }

  lemma CombinesStepAt(p: int, p0: seq<int>, p1: seq<int>, r0: seq<int>, s0: seq<int>, t0: seq<int>,
                       r1: seq<int>, s1: seq<int>, t1: seq<int>, q: seq<int>, r2: seq<int>, x: int)
    requires 0 < p && Prime(p) && IsPoly(p, q) && IsPoly(p, s0) && IsPoly(p, t0) && IsPoly(p, s1) && IsPoly(p, t1)
    requires CombinesAt(p, p0, p1, r0, s0, t0, x) && CombinesAt(p, p0, p1, r1, s1, t1, x)
             && IsQuotient(p, r0, r1, q, r2, x)
    ensures CombinesAt(p, p0, p1, r2, Sub(p, s0, Mul(p, q, s1)), Sub(p, t0, Mul(p, q, t1)), x)
  {
    hide Eval, Sub, Mul, Prime, IsPoly, Cong, Combination, Quotient;
    SubMulAt(p, s0, q, s1, x);
    SubMulAt(p, t0, q, t1, x);
    StepAt(p, Eval(p0, x), Eval(p1, x), Eval(r0, x), Eval(s0, x), Eval(t0, x), Eval(r1, x), Eval(s1, x), Eval(t1, x),
           Eval(q, x), Eval(r2, x), Eval(Sub(p, s0, Mul(p, q, s1)), x), Eval(Sub(p, t0, Mul(p, q, t1)), x));
  }

  lemma SubMulAt(p: int, f: seq<int>, q: seq<int>, g: seq<int>, x: int)
    requires 0 < p && Prime(p) && IsPoly(p, f) && IsPoly(p, q) && IsPoly(p, g)
    ensures Cong(Eval(Sub(p, f, Mul(p, q, g)), x), Eval(f, x) - Eval(q, x) * Eval(g, x), p)
  {
    hide *;
    EvalMulMod(p, q, g, x);
    EvalSub(p, f, Mul(p, q, g), x);
    CongSub(Eval(Sub(p, f, Mul(p, q, g)), x), Eval(f, x), Eval(Mul(p, q, g), x), Eval(q, x) * Eval(g, x), p);
  }

  lemma CongSub(s: int, f: int, m: int, qg: int, p: int)
    requires 0 < p && Cong(s, f - m, p) && Cong(m, qg, p)
    ensures Cong(s, f - qg, p)
  {
    CongAdd(f, f, m, qg, p);
  }

  lemma StepAt(p: int, a: int, b: int, r0: int, s0: int, t0: int, r1: int, s1: int, t1: int, q: int, r2: int, s2: int,
          t2: int)
    requires 0 < p && Combination(p, a, b, r0, s0, t0) && Combination(p, a, b, r1, s1, t1) && Quotient(p, r0, r1, q, r2)
    requires Cong(s2, s0 - q * s1, p) && Cong(t2, t0 - q * t1, p)
    ensures Combination(p, a, b, r2, s2, t2)
  {
    CongMul(s2, s0 - q * s1, a, a, p);
    CongMul(t2, t0 - q * t1, b, b, p);
    CongAdd(s2 * a, (s0 - q * s1) * a, -(t2 * b), -((t0 - q * t1) * b), p) by {
      CongAdd(0, 0, t2 * b, (t0 - q * t1) * b, p);
    }
    CongAdd(s2 * a, (s0 - q * s1) * a, t2 * b, (t0 - q * t1) * b, p);
    Regrouped(a, b, s0, t0, s1, t1, q);
    CongMul(q, q, s1 * a + t1 * b, r1, p);
    CongAdd(s0 * a + t0 * b, r0, q * (s1 * a + t1 * b), q * r1, p);
    CongAdd(q * r1 + r2, r0, q * r1, q * r1, p);
  }

  lemma Regrouped(a: int, b: int, s0: int, t0: int, s1: int, t1: int, q: int)
    ensures (s0 - q * s1) * a + (t0 - q * t1) * b == s0 * a + t0 * b - q * (s1 * a + t1 * b)
  {
  }

  /** `partial_gcd`: Euclid until the degree drops below the threshold. */
  method PartialGcd(p: int, p0: seq<int>, p1: seq<int>, threshold: nat) returns (r: seq<int>, u: seq<int>, v: seq<int>)
    requires Prime(p) && IsPoly(p, p0) && IsPoly(p, p1)
    ensures Combines(p, p0, p1, r, u, v) && |r| <= threshold
    ensures |p1| < |p0| && threshold < |p0| ==> v != [] && |v| + threshold <= |p0|
    ensures |p0| <= threshold ==> v == []
  {
    var r0, r1, s0, s1, t0, t1 := p0, p1, [1], [], [], [1];
    CombinesFirst(p, p0, p1);
    if |r0| - 1 < threshold { return r0, s0, t0; }
    if |r1| - 1 < threshold { return r1, s1, t1; }
    while true
      invariant Combines(p, p0, p1, r0, s0, t0) && Combines(p, p0, p1, r1, s1, t1)
      invariant threshold < |r1|
      invariant |p1| < |p0| ==> |r1| < |r0| && |t0| < |t1| && |t1| + |r0| == |p0| + 1
      decreases |r1|
    {
      var q, r2 := DivRem(p, r0, r1);
      CombinesStep(p, p0, p1, r0, s0, t0, r1, s1, t1, q, r2);
      var s2, t2 := Sub(p, s0, Mul(p, q, s1)), Sub(p, t0, Mul(p, q, t1));
      if |r2| - 1 < threshold { return r2, s2, t2; }
      r0, r1, s0, s1, t0, t1 := r1, r2, s1, s2, t1, t2;
    }
  }

  // ---------------------------------------------------------------- decoding

  /** The points where f does not take the received value. */
  function Errors(p: int, f: seq<int>, xs: seq<int>, ys: seq<int>): (s: seq<int>)
    requires 0 < p && |xs| == |ys|
    ensures |s| <= |xs|
  {
    if xs == [] then []
    else
      var k := |xs| - 1;
      Errors(p, f, xs[..k], ys[..k]) + (if Cong(Eval(f, xs[k]), ys[k], p) then [] else [xs[k]])
  }

  lemma {:induction false} ErrorsComplete(p: int, f: seq<int>, xs: seq<int>, ys: seq<int>, i: nat)
    requires 0 < p && |xs| == |ys| && i < |xs|
    ensures Cong(Eval(f, xs[i]), ys[i], p) || Among(p, Errors(p, f, xs, ys), xs[i])
    decreases |xs|
  {
    var k := |xs| - 1;
    var e, e0 := Errors(p, f, xs, ys), Errors(p, f, xs[..k], ys[..k]);
    if i < k {
      ErrorsComplete(p, f, xs[..k], ys[..k], i);
      if Among(p, e0, xs[i]) {
        var j :| 0 <= j < |e0| && Cong(xs[i], e0[j], p);
        assert e[j] == e0[j];
      }
    } else if !Cong(Eval(f, xs[k]), ys[k], p) {
      assert e[|e0|] == xs[k];
    }
  }

  /** Every error point is one of the points, at a place where f is wrong; and error points are distinct. */
  lemma {:induction false} ErrorsSound(p: int, f: seq<int>, xs: seq<int>, ys: seq<int>)
    requires 0 < p && |xs| == |ys| && Distinct(p, xs)
    ensures Distinct(p, Errors(p, f, xs, ys))
    ensures forall e :: e in Errors(p, f, xs, ys) ==>
              exists i :: 0 <= i < |xs| && xs[i] == e && !Cong(Eval(f, e), ys[i], p)
    decreases |xs|
  {
    if xs != [] {
      var k := |xs| - 1;
      DistinctPrefix(p, xs, k);
      ErrorsSound(p, f, xs[..k], ys[..k]);
      var e, e0 := Errors(p, f, xs, ys), Errors(p, f, xs[..k], ys[..k]);
      forall z | z in e ensures exists i :: 0 <= i < |xs| && xs[i] == z && !Cong(Eval(f, z), ys[i], p) {
        if z in e0 {
          var i :| 0 <= i < k && xs[..k][i] == z && !Cong(Eval(f, z), ys[..k][i], p);
          assert xs[i] == z;
        } else {
          assert xs[k] == z;
        }
      }
      forall i, j | 0 <= i < j < |e| ensures !Cong(e[i], e[j], p) {
        assert e0[i] in e0;
        if j == |e0| {
          var m :| 0 <= m < k && xs[..k][m] == e0[i] && !Cong(Eval(f, e0[i]), ys[..k][m], p);
          assert xs[m] == e[i] && xs[k] == e[j];
        }
      }
    }
  }

  /** The inputs of a decoding: n distinct points and the values received there. */
  ghost predicate Received(p: int, xs: seq<int>, ys: seq<int>) {
    Prime(p) && |xs| == |ys| && Distinct(p, xs)
  }

  /** The key equation: at the received points the remainder is v times the received value. */
  lemma KeyEquation(p: int, xs: seq<int>, ys: seq<int>, g: seq<int>, u: seq<int>, v: seq<int>, i: nat)
    requires Received(p, xs, ys) && i < |xs| && Combines(p, FromRoots(p, xs), Interpolate(p, xs, ys), g, u, v)
    ensures Cong(Eval(v, xs[i]) * ys[i], Eval(g, xs[i]), p)
  {
    var x := xs[i];
    assert CombinesAt(p, FromRoots(p, xs), Interpolate(p, xs, ys), g, u, v, x);
    assert Among(p, xs, x) by { assert Cong(x, xs[i], p); }
    FromRootsVanishes(p, xs, x);
    InterpolateValues(p, xs, ys, i);
    hide Eval, FromRoots, Interpolate, Prime, Distinct, Among, Combines;
    AtPoint(p, Eval(FromRoots(p, xs), x), Eval(Interpolate(p, xs, ys), x), Eval(g, x), Eval(u, x), Eval(v, x), ys[i]);
  }

  lemma AtPoint(p: int, a: int, b: int, r: int, s: int, t: int, y: int)
    requires 0 < p && Combination(p, a, b, r, s, t) && Cong(a, 0, p) && Cong(b, y, p)
    ensures Cong(t * y, r, p)
  {
    CongMul(s, s, a, 0, p);
    CongMul(t, t, b, y, p);
    CongAdd(s * a, 0, t * b, t * y, p);
  }

  /** When v divides the remainder, the quotient takes the received value wherever v does not vanish. */
  lemma QuotientIsRight(p: int, xs: seq<int>, ys: seq<int>, g: seq<int>, u: seq<int>, v: seq<int>, f: seq<int>, i: nat)
    requires Received(p, xs, ys) && i < |xs| && Combines(p, FromRoots(p, xs), Interpolate(p, xs, ys), g, u, v)
    requires forall x :: IsQuotient(p, g, v, f, [], x)
    ensures Cong(Eval(v, xs[i]), 0, p) || Cong(Eval(f, xs[i]), ys[i], p)
  {
    KeyEquation(p, xs, ys, g, u, v, i);
    assert IsQuotient(p, g, v, f, [], xs[i]);
    Cancelled(p, Eval(f, xs[i]), Eval(v, xs[i]), Eval(g, xs[i]), ys[i]);
  }

  lemma Cancelled(p: int, f: int, v: int, g: int, y: int)
    requires Prime(p) && Cong(f * v + 0, g, p) && Cong(v * y, g, p)
    ensures Cong(v, 0, p) || Cong(f, y, p)
  {
    CongAdd(f * v, g, v * y, g, p);
    assert f * v - v * y == v * (f - y);
    NoZeroDivisors(v, f - y, p);
    if Cong(f - y, 0, p) { CongAdd(f - y, 0, y, y, p); }
  }

  /** Wrong points are roots of v, so there are at most deg v of them. */
  lemma ErrorsBounded(p: int, xs: seq<int>, ys: seq<int>, v: seq<int>, f: seq<int>)
    requires Received(p, xs, ys) && IsPoly(p, v) && v != []
    requires forall i :: 0 <= i < |xs| ==> Cong(Eval(v, xs[i]), 0, p) || Cong(Eval(f, xs[i]), ys[i], p)
    ensures |Errors(p, f, xs, ys)| <= |v| - 1
  {
    var e := Errors(p, f, xs, ys);
    ErrorsSound(p, f, xs, ys);
    forall j | 0 <= j < |e| ensures Cong(Eval(v, e[j]), 0, p) {
      assert e[j] in e;
      var i :| 0 <= i < |xs| && xs[i] == e[j] && !Cong(Eval(f, e[j]), ys[i], p);
    }
    DivModUnique(v[|v| - 1], p, 0, v[|v| - 1]);
    RootBound(p, v, e);
  }

  /** The decoding radius for k coefficients: half of n - k errors; with n - k odd one error more, for a polynomial that
      is shorter than k or zero. */
  ghost predicate InRadius(p: int, f: seq<int>, xs: seq<int>, ys: seq<int>, k: nat)
    requires 0 < p && |xs| == |ys|
  {
    var n, errors := |xs|, |Errors(p, f, xs, ys)|;
    && IsPoly(p, f)
    && (|| (|f| <= k && errors <= (n - k) / 2)
        || ((n - k) % 2 == 1 && (|f| < k || f == []) && errors <= (n - k + 1) / 2))
  }

  /** Few enough errors: the remainder is the sent polynomial times v. */
  lemma RemainderIsProduct(p: int, xs: seq<int>, ys: seq<int>, k: nat, f: seq<int>, g: seq<int>, u: seq<int>,
          v: seq<int>)
    requires Received(p, xs, ys) && Combines(p, FromRoots(p, xs), Interpolate(p, xs, ys), g, u, v)
    requires |g| <= (|xs| + k) / 2 && v != [] && |v| + (|xs| + k) / 2 <= |xs| + 1
    requires InRadius(p, f, xs, ys, k)
    ensures g == Mul(p, f, v)
  {
    var errors := Errors(p, f, xs, ys);
    var w, gap := FromRoots(p, errors), Sub(p, g, Mul(p, f, v));
    var d := Mul(p, w, gap);
    hide Eval, Errors, FromRoots, Interpolate, Cong, Combines, Mul, Sub;
    forall i | 0 <= i < |xs| ensures Cong(Eval(d, xs[i]), 0, p) {
      KeyEquation(p, xs, ys, g, u, v, i);
      LocatorOrRight(p, xs, ys, f, i);
      GapAt(p, w, f, g, v, xs[i], ys[i]);
    }
    assert |d| <= |xs|;
    ManyRoots(p, d, xs);
    assert gap == [];
    SubZero(p, g, Mul(p, f, v));
  }

  /** At every point the error locator vanishes or f is right. */
  lemma LocatorOrRight(p: int, xs: seq<int>, ys: seq<int>, f: seq<int>, i: nat)
    requires 0 < p && Prime(p) && |xs| == |ys| && i < |xs|
    ensures Cong(Eval(FromRoots(p, Errors(p, f, xs, ys)), xs[i]), 0, p) || Cong(Eval(f, xs[i]), ys[i], p)
  {
    ErrorsComplete(p, f, xs, ys, i);
    FromRootsVanishes(p, Errors(p, f, xs, ys), xs[i]);
  }

  lemma GapAt(p: int, w: seq<int>, f: seq<int>, g: seq<int>, v: seq<int>, x: int, y: int)
    requires 0 < p && Prime(p) && IsPoly(p, w) && IsPoly(p, f) && IsPoly(p, g) && IsPoly(p, v)
    requires Cong(Eval(v, x) * y, Eval(g, x), p) && (Cong(Eval(w, x), 0, p) || Cong(Eval(f, x), y, p))
    ensures Cong(Eval(Mul(p, w, Sub(p, g, Mul(p, f, v))), x), 0, p)
  {
    hide *;
    var gap := Sub(p, g, Mul(p, f, v));
    assert Cong(Eval(gap, x), Eval(g, x) - Eval(f, x) * Eval(v, x), p) by { SubMulAt(p, g, f, v, x); }
    assert Cong(Eval(Mul(p, w, gap), x), Eval(w, x) * Eval(gap, x), p) by { EvalMulMod(p, w, gap, x); }
    GapVanishes(p, Eval(w, x), Eval(gap, x), Eval(Mul(p, w, gap), x), Eval(g, x), Eval(f, x), Eval(v, x), y);
  }

  lemma GapVanishes(p: int, w: int, gap: int, d: int, g: int, f: int, v: int, y: int)
    requires 0 < p && Cong(d, w * gap, p) && Cong(gap, g - f * v, p) && Cong(v * y, g, p)
    requires Cong(w, 0, p) || Cong(f, y, p)
    ensures Cong(d, 0, p)
  {
    if Cong(w, 0, p) {
      CongMul(w, 0, gap, gap, p);
    } else {
      CongMul(v, v, f, y, p);
      CongAdd(g, v * y, f * v, v * y, p);
      CongMul(w, w, gap, 0, p);
    }
  }

  /** And the quotient and remainder by v are that polynomial and zero. */
  lemma QuotientIsSent(p: int, xs: seq<int>, f: seq<int>, v: seq<int>, f1: seq<int>, r: seq<int>)
    requires Prime(p) && Distinct(p, xs) && IsPoly(p, f) && IsPoly(p, v) && IsPoly(p, f1) && IsPoly(p, r) && v != []
    requires |f| + |v| - 1 <= |xs| && |f1| + |v| - 1 <= |xs| && |r| < |v| && |r| <= |xs|
    requires forall x :: IsQuotient(p, Mul(p, f, v), v, f1, r, x)
    ensures f1 == f && r == []
  {
    var gap := Sub(p, f, f1);
    var product := Mul(p, gap, v);
    hide Eval, Cong, Mul, Sub, IsQuotient;
    forall i | 0 <= i < |xs| ensures Cong(Eval(product, xs[i]), Eval(r, xs[i]), p) {
      assert IsQuotient(p, Mul(p, f, v), v, f1, r, xs[i]);
      RemainderAt(p, f, v, f1, r, xs[i]);
    }
    AgreeEqual(p, product, r, xs);
    assert gap == [];
    SubZero(p, f, f1);
  }

  lemma RemainderAt(p: int, f: seq<int>, v: seq<int>, f1: seq<int>, r: seq<int>, x: int)
    requires 0 < p && Prime(p) && IsPoly(p, f) && IsPoly(p, v) && IsPoly(p, f1)
             && IsQuotient(p, Mul(p, f, v), v, f1, r, x)
    ensures Cong(Eval(Mul(p, Sub(p, f, f1), v), x), Eval(r, x), p)
  {
    hide Eval, Prime, IsPoly, Mul, Sub, Cong, Quotient;
    var gap := Sub(p, f, f1);
    EvalMulMod(p, f, v, x);
    EvalSub(p, f, f1, x);
    EvalMulMod(p, gap, v, x);
    GapIsRemainder(p, Eval(gap, x), Eval(f, x), Eval(f1, x), Eval(v, x), Eval(r, x),
                   Eval(Mul(p, gap, v), x), Eval(Mul(p, f, v), x));
  }

  lemma GapIsRemainder(p: int, gap: int, f: int, f1: int, v: int, r: int, product: int, fv: int)
    requires 0 < p && Cong(gap, f - f1, p) && Cong(product, gap * v, p) && Cong(fv, f * v, p)
             && Quotient(p, fv, v, f1, r)
    ensures Cong(product, r, p)
  {
    CongMul(gap, f - f1, v, v, p);
    assert (f - f1) * v == f * v - f1 * v;
    CongAdd(f * v, f1 * v + r, f1 * v, f1 * v, p);
  }

  /** An accepted quotient: it and its padded form are right wherever v does not vanish, and it is in the radius. */
  lemma AcceptedQuotient(p: int, xs: seq<int>, ys: seq<int>, k: nat, g: seq<int>, u: seq<int>, v: seq<int>,
          f: seq<int>)
    requires Received(p, xs, ys) && Combines(p, FromRoots(p, xs), Interpolate(p, xs, ys), g, u, v)
    requires |g| <= (|xs| + k) / 2 && v != [] && |v| + (|xs| + k) / 2 <= |xs| + 1
    requires IsPoly(p, f) && |f| <= k && (f != [] ==> |f| + |v| - 1 <= |g|) && forall x :: IsQuotient(p, g, v, f, [], x)
    ensures forall i :: 0 <= i < |xs| && !Cong(Eval(v, xs[i]), 0, p) ==> Cong(Eval(Padded(f, k), xs[i]), ys[i], p)
    ensures |Errors(p, Padded(f, k), xs, ys)| <= |v| - 1 && InRadius(p, f, xs, ys, k)
  {
    hide Eval, Errors, FromRoots, Interpolate, Cong, CombinesAt, IsQuotient, Padded, Prime;
    forall i | 0 <= i < |xs|
      ensures Cong(Eval(v, xs[i]), 0, p)
              || (Cong(Eval(Padded(f, k), xs[i]), ys[i], p) && Cong(Eval(f, xs[i]), ys[i], p))
    {
      QuotientIsRight(p, xs, ys, g, u, v, f, i);
      EvalPadded(f, k, xs[i]);
    }
    ErrorsBounded(p, xs, ys, v, Padded(f, k));
    ErrorsBounded(p, xs, ys, v, f);
    BoundsMeetRadius(p, f, xs, ys, k, |v| - 1);
  }

  lemma BoundsMeetRadius(p: int, f: seq<int>, xs: seq<int>, ys: seq<int>, k: nat, d: nat)
    requires 0 < p && |xs| == |ys| && IsPoly(p, f) && |f| <= k && |Errors(p, f, xs, ys)| <= d
    requires d + (|xs| + k) / 2 <= |xs| && (f != [] ==> |f| + d <= (|xs| + k) / 2)
    ensures InRadius(p, f, xs, ys, k)
  {
    hide Errors, IsPoly;
  }

  /** Every polynomial in the radius is the one that is found. */
  lemma InRadiusFound(p: int, xs: seq<int>, ys: seq<int>, k: nat, f: seq<int>, g: seq<int>, u: seq<int>, v: seq<int>,
          f1: seq<int>, r: seq<int>)
    requires Received(p, xs, ys) && Combines(p, FromRoots(p, xs), Interpolate(p, xs, ys), g, u, v)
    requires |g| <= (|xs| + k) / 2 && v != [] && |v| + (|xs| + k) / 2 <= |xs| + 1 && k <= |xs| + 1
    requires IsPoly(p, f1) && IsPoly(p, r) && |r| < |v| && |f1| + |v| - 1 <= |xs|
             && forall x :: IsQuotient(p, g, v, f1, r, x)
    requires InRadius(p, f, xs, ys, k)
    ensures f1 == f && r == [] && |f| <= k
  {
    hide Eval, Errors, FromRoots, Interpolate, Cong, CombinesAt, IsQuotient, Prime, Distinct, Mul;
    RemainderIsProduct(p, xs, ys, k, f, g, u, v);
    QuotientIsSent(p, xs, f, v, f1, r);
  }

  /** The long division by v raises; `false`; or `true` with the k coefficients and the error locator. */
  datatype Decoding = Raised | Failed | Decoded(res: seq<int>, err: seq<int>)

  /** `gao_interpolate`, with n the number of points. */
  method GaoInterpolate(p: int, xs: seq<int>, ys: seq<int>, k: nat) returns (out: Decoding)
    requires Received(p, xs, ys)
    ensures out.Raised? <==> |xs| + 1 < k
    ensures out.Decoded? ==> |out.res| == k && out.err != [] && |out.err| - 1 <= |xs| - (|xs| + k) / 2
    ensures out.Decoded? ==>
              forall i :: 0 <= i < |xs| && !Cong(Eval(out.err, xs[i]), 0, p) ==> Cong(Eval(out.res, xs[i]), ys[i], p)
    ensures out.Decoded? ==> |Errors(p, out.res, xs, ys)| <= |out.err| - 1
    ensures k <= |xs| + 1 ==> forall f :: InRadius(p, f, xs, ys, k) ==> out.Decoded? && out.res == Padded(f, k)
    ensures out.Decoded? ==> exists f :: InRadius(p, f, xs, ys, k) && out.res == Padded(f, k)
  {
    hide Eval, Errors, FromRoots, Interpolate, Cong, CombinesAt, IsQuotient, Padded, Prime, Distinct, InRadius;
    var n := |xs|;
    var g0 := FromRoots(p, xs);
    var g1 := Interpolate(p, xs, ys);
    var g, u, v := PartialGcd(p, g0, g1, (n + k) / 2);
    if v == [] { return Raised; }
    var f1, r := DivRem(p, g, v);
    if r != [] || |f1| - 1 >= k {
      out := Failed;
    } else {
      var res := Padded(f1, k);
      out := Decoded(res, v);
      AcceptedQuotient(p, xs, ys, k, g, u, v, f1);
    }
    forall f | InRadius(p, f, xs, ys, k)
      ensures out.Decoded? && out.res == Padded(f, k)
    {
      InRadiusFound(p, xs, ys, k, f, g, u, v, f1, r);
    }
  }
}
