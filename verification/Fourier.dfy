// The radix-2 FFT of ntl/rsdecode_impl.h, truncated and with a Vandermonde base case, over the integers modulo p.
module Fourier {
  import opened Arithmetic
  import opened PrimeFields
  import opened Polynomials

  // ---------------------------------------------------------------- powers and evaluation

  lemma {:induction false} EvalCong(f: seq<int>, x: int, y: int, p: int)
    requires 0 < p && Cong(x, y, p)
    ensures Cong(Eval(f, x), Eval(f, y), p)
  {
    if f != [] {
      EvalCong(f[1..], x, y, p);
      CongMul(x, y, Eval(f[1..], x), Eval(f[1..], y), p);
      CongAdd(f[0], f[0], x * Eval(f[1..], x), y * Eval(f[1..], y), p);
    }
  }

  /** Every other coefficient, from position `from`. */
  function Halves(f: seq<int>, from: nat): (h: seq<int>)
    requires from < 2 && |f| % 2 == 0
    ensures |h| == |f| / 2 && forall k :: 0 <= k < |h| ==> h[k] == f[2 * k + from]
  {
    seq(|f| / 2, k requires 0 <= k < |f| / 2 => f[2 * k + from])
  }

  /** f(x) = even(x^2) + x * odd(x^2). */
  lemma {:induction false} EvalHalves(f: seq<int>, x: int)
    requires |f| % 2 == 0
    ensures Eval(f, x) == Eval(Halves(f, 0), x * x) + x * Eval(Halves(f, 1), x * x)
    decreases |f|
  {
    if f != [] {
      var g := f[2..];
      EvalHalves(g, x);
      assert Halves(f, 0)[1..] == Halves(g, 0) && Halves(f, 1)[1..] == Halves(g, 1);
      assert f[1..][1..] == g;
      HalvesHorner(x, f[0], f[1], Eval(Halves(g, 0), x * x), Eval(Halves(g, 1), x * x), Eval(g, x));
    }
  }

  lemma HalvesHorner(x: int, f0: int, f1: int, e: int, o: int, g: int)
    requires g == e + x * o
    ensures f0 + x * (f1 + x * g) == f0 + x * x * e + x * (f1 + x * x * o)
  {
    assert x * (x * g) == x * x * e + x * (x * x * o);
  }

  // ---------------------------------------------------------------- the Vandermonde base case

  /** Row i, column j holds omega^(i j). */
  ghost predicate IsVandermonde(p: int, v: seq<seq<int>>, omega: int, n: nat)
    requires 0 < p
  {
    |v| == n && forall i :: 0 <= i < n ==> IsPowers(p, v[i], Power(omega, i), n)
  }

  ghost predicate IsPowers(p: int, row: seq<int>, x: int, n: nat)
    requires 0 < p
  {
    |row| == n && forall j :: 0 <= j < n ==> 0 <= row[j] < p && Cong(row[j], Power(x, j), p)
  }

  /** `set_vm_matrix` on the list of points: each row by repeated multiplication. */
  method SetVmMatrix(p: int, xs: seq<int>, d: nat) returns (result: seq<seq<int>>)
    requires 2 <= p
    ensures |result| == |xs| && forall i :: 0 <= i < |xs| ==> IsPowers(p, result[i], xs[i], d)
  {
    result := [];
    for i := 0 to |xs|
      invariant |result| == i && forall k :: 0 <= k < i ==> IsPowers(p, result[k], xs[k], d)
    {
      var x := 1;
      var row := [];
      for j := 0 to d
        invariant 0 <= x < p && Cong(x, Power(xs[i], j), p) && IsPowers(p, row, xs[i], j)
      {
        row := row + [x];
        NextPower(p, x, xs[i], xs[i], j);
        x := x * xs[i] % p;
      }
      result := result + [row];
    }
  }

  lemma NextPower(p: int, w: int, x: int, y: int, j: nat)
    requires 0 < p && Cong(w, Power(y, j), p) && Cong(x, y, p)
    ensures 0 <= w * x % p < p && Cong(w * x % p, Power(y, j + 1), p)
  {
    CongMul(x, y, w, Power(y, j), p);
    assert w * x == x * w;
    CongMod(w * x, p);
  }

  /** `_set_fft_vandermonde_matrix`. */
  method VandermondeMatrix(p: int, omega: int, n: nat) returns (v: seq<seq<int>>)
    requires 2 <= p && 1 <= n
    ensures IsVandermonde(p, v, omega, n)
  {
    var xs := [1];
    for i := 1 to n
      invariant |xs| == i && forall k :: 0 <= k < i ==> 0 <= xs[k] < p && Cong(xs[k], Power(omega, k), p)
    {
      NextPower(p, xs[i - 1], omega, omega, i - 1);
      xs := xs + [xs[i - 1] * omega % p];
    }
    v := SetVmMatrix(p, xs, n);
    forall i | 0 <= i < n ensures IsPowers(p, v[i], Power(omega, i), n) {
      assert IsPowers(p, v[i], xs[i], n);
      forall j | 0 <= j < n ensures 0 <= v[i][j] < p && Cong(v[i][j], Power(Power(omega, i), j), p) {
        PowerCong(xs[i], Power(omega, i), j, p);
      }
    }
  }

  /** The matrices computed so far, for one modulus. */
  class VandermondeCache {
    var modulus: int
    var matrices: map<(nat, int), seq<seq<int>>>

    /** Every cached matrix is the right one for its size and root. */
    ghost predicate Valid()
      reads this
    {
      matrices == map[]
        || (2 <= modulus && forall key :: key in matrices ==> IsVandermonde(modulus, matrices[key], key.1, key.0))
    }

    constructor ()
      ensures Valid()
    {
      modulus, matrices := 0, map[];
    }

    /** `get_fft_vandermonde_matrix`: a change of modulus empties the cache. */
    method Get(p: int, omega: int, n: nat) returns (v: seq<seq<int>>)
      requires 2 <= p && 1 <= n && Valid()
      modifies this
      ensures Valid() && modulus == p && IsVandermonde(p, v, omega, n)
    {
      if p != modulus {
        modulus := p;
        matrices := map[];
      }
      if (n, omega) !in matrices {
        var made := VandermondeMatrix(p, omega, n);
        matrices := matrices[(n, omega) := made];
      }
      v := matrices[(n, omega)];
    }
  }

  function Dot(r: seq<int>, a: seq<int>): int
    requires |r| == |a|
  {
    if r == [] then 0 else r[0] * a[0] + Dot(r[1..], a[1..])
  }

  /** A row c, c x, c x^2, ... evaluates the polynomial at x, times c. */
  lemma {:induction false} DotEval(p: int, r: seq<int>, a: seq<int>, c: int, x: int)
    requires 0 < p && |r| == |a| && forall j :: 0 <= j < |r| ==> Cong(r[j], c * Power(x, j), p)
    ensures Cong(Dot(r, a), c * Eval(a, x), p)
  {
    if r != [] {
      var t := r[1..];
      forall j | 0 <= j < |t| ensures Cong(t[j], (c * x) * Power(x, j), p) {
        assert Cong(r[j + 1], c * Power(x, j + 1), p);
        assert c * Power(x, j + 1) == (c * x) * Power(x, j);
      }
      DotEval(p, t, a[1..], c * x, x);
      assert Cong(r[0], c * Power(x, 0), p);
      DotHorner(p, r[0], c, a[0], Dot(t, a[1..]), x, Eval(a[1..], x));
    }
  }

  lemma DotHorner(p: int, r: int, c: int, a: int, dot: int, x: int, e: int)
    requires 0 < p && Cong(r, c, p) && Cong(dot, (c * x) * e, p)
    ensures Cong(r * a + dot, c * (a + x * e), p)
  {
    CongMul(r, c, a, a, p);
    CongAdd(r * a, c * a, dot, (c * x) * e, p);
    assert c * (a + x * e) == c * a + (c * x) * e;
  }

  // ---------------------------------------------------------------- the recursive transform

  ghost predicate PowerOfTwo(n: nat) { n == 1 || (0 < n && n % 2 == 0 && PowerOfTwo(n / 2)) }

  /** `value` is the residue of f at omega^i. */
  ghost predicate Transformed(p: int, f: seq<int>, omega: int, i: nat, value: int)
    requires 0 < p
  {
    0 <= value < p && Cong(value, Eval(f, Power(omega, i)), p)
  }

  /** omega^(n/2) is -1. */
  ghost predicate IsRoot(p: int, omega: int, n: nat)
    requires 0 < p
  {
    n == 1 || Cong(Power(omega, n / 2), -1, p)
  }

  lemma SquareIsRoot(p: int, omega: int, omega2: int, n: nat)
    requires 0 < p && PowerOfTwo(n) && n > 1 && IsRoot(p, omega, n) && Cong(omega2, omega * omega, p)
    ensures IsRoot(p, omega2, n / 2)
  {
    if n > 2 {
      Quartered(n);
      hide PowerOfTwo, Power;
      PowerCong(omega2, omega * omega, n / 4, p);
      PowerPower(omega, 2, n / 4);
      PowerTwo(omega);
    }
  }

  lemma Quartered(n: nat)
    requires PowerOfTwo(n) && n > 2
    ensures 2 * (n / 4) == n / 2 && n / 2 / 2 == n / 4 && n / 2 != 1
  {
  }

  lemma PowerTwo(x: int)
    ensures Power(x, 2) == x * x
  {
    assert Power(x, 1) == x;
  }

  /** One butterfly. */
  lemma Butterfly(p: int, f: seq<int>, omega: int, omega2: int, k: nat, w: int, e: int, o: int)
    requires 0 < p && |f| % 2 == 0 && Cong(omega2, omega * omega, p) && Cong(w, Power(omega, k), p)
    requires Transformed(p, Halves(f, 0), omega2, k, e) && Transformed(p, Halves(f, 1), omega2, k, o)
    ensures Transformed(p, f, omega, k, (e + w * o % p) % p)
    ensures Cong(Power(omega, |f| / 2), -1, p) ==> Transformed(p, f, omega, k + |f| / 2, (e - w * o % p) % p)
  {
    hide Halves, Eval, Power;
    var x := Power(omega, k);
    var ex, ox := Eval(Halves(f, 0), x * x), Eval(Halves(f, 1), x * x);
    SquarePower(p, omega, omega2, k);
    EvalCong(Halves(f, 0), Power(omega2, k), x * x, p);
    EvalCong(Halves(f, 1), Power(omega2, k), x * x, p);
    SumAndDifference(p, e, ex, o, ox, w, x);
    HalvesAtOpposite(f, x);
    if Cong(Power(omega, |f| / 2), -1, p) {
      PowerAdd(omega, k, |f| / 2);
      CongMul(x, x, Power(omega, |f| / 2), -1, p);
      EvalCong(f, Power(omega, k + |f| / 2), -x, p);
    }
  }

  lemma HalvesAtOpposite(f: seq<int>, x: int)
    requires |f| % 2 == 0
    ensures Eval(f, x) == Eval(Halves(f, 0), x * x) + x * Eval(Halves(f, 1), x * x)
    ensures Eval(f, -x) == Eval(Halves(f, 0), x * x) - x * Eval(Halves(f, 1), x * x)
  {
    EvalHalves(f, x);
    EvalHalves(f, -x);
    assert -x * -x == x * x;
  }

  lemma SumAndDifference(p: int, e: int, ex: int, o: int, ox: int, w: int, x: int)
    requires 0 < p && Cong(e, ex, p) && Cong(o, ox, p) && Cong(w, x, p)
    ensures 0 <= (e + w * o % p) % p < p && Cong((e + w * o % p) % p, ex + x * ox, p)
    ensures 0 <= (e - w * o % p) % p < p && Cong((e - w * o % p) % p, ex - x * ox, p)
  {
    var t := w * o % p;
    CongMod(w * o, p);
    CongMul(w, x, o, ox, p);
    CongAdd(e, ex, t, x * ox, p);
    CongMod(e + t, p);
    CongMod(e - t, p);
  }

  lemma SquarePower(p: int, omega: int, omega2: int, k: nat)
    requires 0 < p && Cong(omega2, omega * omega, p)
    ensures Cong(Power(omega2, k), Power(omega, k) * Power(omega, k), p)
  {
    PowerCong(omega2, omega * omega, k, p);
    PowerTwo(omega);
    PowerPower(omega, 2, k);
    PowerAdd(omega, k, k);
    assert 2 * k == k + k;
  }

  /** The Vandermonde argument of the recursion, when there is one, belongs to the level of size `threshold`. */
  ghost predicate BaseCase(p: int, omega: int, n: nat, van: seq<seq<int>>, threshold: nat)
    requires 0 < p
  {
    van != [] ==>
      && 1 <= threshold && PowerOfTwo(threshold) && threshold <= n
      && IsVandermonde(p, van, Power(omega, n / threshold), threshold)
  }

  /** The root of the base level does not change on the way down. */
  lemma BaseCaseBelow(p: int, omega: int, omega2: int, n: nat, van: seq<seq<int>>, threshold: nat)
    requires 0 < p && PowerOfTwo(n) && n != 1 && n != threshold && van != [] && BaseCase(p, omega, n, van, threshold)
    requires Cong(omega2, omega * omega, p)
    ensures BaseCase(p, omega2, n / 2, van, threshold)
  {
    var q := TwoPowers(n, threshold);
    var e := n / 2 / threshold;
    assert n / threshold == 2 * e by {
      DivModUnique(n, threshold, 2 * q, 0);
      DivModUnique(n / 2, threshold, q, 0);
    }
    SquarePower(p, omega, omega2, e);
    PowerAdd(omega, e, e);
    forall i | 0 <= i < threshold ensures IsPowers(p, van[i], Power(Power(omega2, e), i), threshold) {
      assert IsPowers(p, van[i], Power(Power(omega, 2 * e), i), threshold);
      forall j | 0 <= j < threshold
        ensures 0 <= van[i][j] < p && Cong(van[i][j], Power(Power(Power(omega2, e), i), j), p)
      {
        PowerCong(Power(omega2, e), Power(omega, 2 * e), i, p);
        PowerCong(Power(Power(omega2, e), i), Power(Power(omega, 2 * e), i), j, p);
      }
    }
  }

  /** Of two powers of two the larger is an even multiple of the smaller. */
  lemma {:induction false} TwoPowers(n: nat, t: nat) returns (q: nat)
    requires PowerOfTwo(n) && PowerOfTwo(t) && t < n
    ensures n == 2 * q * t && n / 2 == q * t && t <= n / 2
  {
    if t == n / 2 {
      q := 1;
    } else if t < n / 2 {
      var r := TwoPowers(n / 2, t);
      q := 2 * r;
    } else {
      q := 0;
      NoPowerBetween(n, t);
    }
  }

  lemma {:induction false} NoPowerBetween(n: nat, t: nat)
    requires PowerOfTwo(n) && PowerOfTwo(t) && n / 2 < t < n
    ensures false
  {
    if t > 1 { NoPowerBetween(n / 2, t / 2); }
  }

  /** The matrix-vector product of the base case. */
  method MatVec(p: int, v: seq<seq<int>>, a: array<int>, ghost omega: int)
    requires 2 <= p && IsVandermonde(p, v, omega, a.Length)
    modifies a
    ensures forall i :: 0 <= i < a.Length ==> Transformed(p, old(a[..]), omega, i, a[i])
  {
    var f := a[..];
    for i := 0 to a.Length
      invariant forall k :: 0 <= k < i ==> Transformed(p, f, omega, k, a[k])
    {
      assert IsPowers(p, v[i], Power(omega, i), a.Length);
      DotEval(p, v[i], f, 1, Power(omega, i));
      CongMod(Dot(v[i], f), p);
      a[i] := Dot(v[i], f) % p;
    }
  }

  /** `_fft`: the first m entries of a become the transform; later ones are left unspecified. */
  method FftInPlace(p: int, a: array<int>, omega: int, m: nat, van: seq<seq<int>>, threshold: nat)
    requires 2 <= p && PowerOfTwo(a.Length) && IsRoot(p, omega, a.Length)
             && BaseCase(p, omega, a.Length, van, threshold)
    requires forall k :: 0 <= k < a.Length ==> 0 <= a[k] < p
    modifies a
    ensures forall i :: 0 <= i < a.Length && i < m ==> Transformed(p, old(a[..]), omega, i, a[i])
    decreases a.Length
  {
    var n := a.Length;
    ghost var f := a[..];
    if n == 1 {
      EvalConstant(f, Power(omega, 0));
      return;
    }
    if van != [] && threshold == n {
      BaseRoot(omega, n);
      MatVec(p, van, a, omega);
      return;
    }
    var h := n / 2;
    var a0, a1 := new int[h](k requires 0 <= k < n / 2 reads a => a[2 * k]),
                  new int[h](k requires 0 <= k < n / 2 reads a => a[2 * k + 1]);
    assert a0[..] == Halves(f, 0) && a1[..] == Halves(f, 1);
    var omega2 := omega * omega % p;
    CongMod(omega * omega, p);
    SquareIsRoot(p, omega, omega2, n);
    if van != [] { BaseCaseBelow(p, omega, omega2, n, van, threshold); }
    FftInPlace(p, a0, omega2, m, van, threshold);
    FftInPlace(p, a1, omega2, m, van, threshold);
    Butterflies(p, a, a0, a1, omega, omega2, m, f);
  }

  lemma BaseRoot(omega: int, n: nat)
    requires 1 <= n
    ensures Power(omega, n / n) == omega
  {
    DivModUnique(n, n, 1, 0);
    assert Power(omega, 1) == omega * Power(omega, 0);
  }

  /** The combining loop of `_fft`. */
  method Butterflies(p: int, a: array<int>, a0: array<int>, a1: array<int>, omega: int, ghost omega2: int, m: nat,
          ghost f: seq<int>)
    requires 2 <= p && a.Length == |f| == 2 * a0.Length == 2 * a1.Length && a != a0 && a != a1 && 0 < a0.Length
    requires Cong(omega2, omega * omega, p) && Cong(Power(omega, a0.Length), -1, p)
    requires forall i :: 0 <= i < a0.Length && i < m ==> Transformed(p, Halves(f, 0), omega2, i, a0[i])
    requires forall i :: 0 <= i < a0.Length && i < m ==> Transformed(p, Halves(f, 1), omega2, i, a1[i])
    modifies a
    ensures forall i :: 0 <= i < a.Length && i < m ==> Transformed(p, f, omega, i, a[i])
  {
    var h := a0.Length;
    var w := 1;
    assert Cong(w, Power(omega, 0), p);
    hide Power, Eval, Halves, Transformed, Cong;
    for k := 0 to h
      invariant 0 <= w < p && Cong(w, Power(omega, k), p)
      invariant forall i :: 0 <= i < k && i < m ==> Transformed(p, f, omega, i, a[i])
      invariant forall i :: h <= i < h + k && i < m ==> Transformed(p, f, omega, i, a[i])
    {
      if k < m {
        var sum, difference := Twiddle(p, w, a0[k], a1[k], omega, omega2, k, f);
        a[k] := sum;
        if k + h < m { a[k + h] := difference; }
      }
      w := Advance(p, w, omega, k);
    }
  }

  /** The two outputs of one butterfly. */
  method Twiddle(p: int, w: int, e: int, o: int, ghost omega: int, ghost omega2: int, ghost k: nat, ghost f: seq<int>)
    returns (sum: int, difference: int)
    requires 2 <= p && |f| % 2 == 0 && Cong(omega2, omega * omega, p) && Cong(w, Power(omega, k), p)
    requires Cong(Power(omega, |f| / 2), -1, p)
    requires Transformed(p, Halves(f, 0), omega2, k, e) && Transformed(p, Halves(f, 1), omega2, k, o)
    ensures Transformed(p, f, omega, k, sum) && Transformed(p, f, omega, k + |f| / 2, difference)
  {
    var t2 := w * o % p;
    Butterfly(p, f, omega, omega2, k, w, e, o);
    sum, difference := (e + t2) % p, (e - t2) % p;
  }

  method Advance(p: int, w: int, omega: int, ghost k: nat) returns (next: int)
    requires 2 <= p && Cong(w, Power(omega, k), p)
    ensures 0 <= next < p && Cong(next, Power(omega, k + 1), p)
  {
    NextPower(p, w, omega, omega, k);
    next := w * omega % p;
  }

  /** `fft` with the first `k` values asked for (all n when k is -1); coefficients past n are ignored. */
  method Fft(cache: VandermondeCache, p: int, coeffs: seq<int>, omega: int, n: nat, k: int) returns (values: seq<int>)
    requires 2 <= p && PowerOfTwo(n) && IsRoot(p, omega, n) && -1 <= k && cache.Valid()
    requires forall i :: 0 <= i < |coeffs| ==> 0 <= coeffs[i] < p
    modifies cache
    ensures cache.Valid() && |values| == if k == -1 then n else k
    ensures forall i :: 0 <= i < |values| && i < n ==> values[i] == Eval(Padded(coeffs, n), Power(omega, i)) % p
  {
    var a := new int[n](i requires 0 <= i => Coeff(coeffs, i));
    assert a[..] == Padded(coeffs, n);
    var van: seq<seq<int>>, threshold := [], 16;
    if n >= threshold {
      var omegaPow := Power(omega, n / threshold) % p;
      CongMod(Power(omega, n / threshold), p);
      van := cache.Get(p, omegaPow, threshold);
      SixteenIsPower();
      VandermondeCong(p, van, omegaPow, Power(omega, n / threshold), threshold);
    }
    var m := if k == -1 then n else k;
    FftInPlace(p, a, omega, m, van, threshold);
    values := if m <= n then a[..m] else a[..] + seq(m - n, _ => 0);
    forall i | 0 <= i < |values| && i < n ensures values[i] == Eval(Padded(coeffs, n), Power(omega, i)) % p {
      assert Transformed(p, Padded(coeffs, n), omega, i, a[i]);
      DivModUnique(a[i], p, 0, a[i]);
    }
  }

  lemma SixteenIsPower()
    ensures PowerOfTwo(16)
  {
    assert PowerOfTwo(1) && PowerOfTwo(2) && PowerOfTwo(4) && PowerOfTwo(8);
  }

  lemma VandermondeCong(p: int, van: seq<seq<int>>, x: int, y: int, n: nat)
    requires 0 < p && Cong(x, y, p) && IsVandermonde(p, van, x, n)
    ensures IsVandermonde(p, van, y, n)
  {
    forall i | 0 <= i < n ensures IsPowers(p, van[i], Power(y, i), n) {
      assert IsPowers(p, van[i], Power(x, i), n);
      PowerCong(x, y, i, p);
      forall j | 0 <= j < n ensures Cong(van[i][j], Power(Power(y, i), j), p) {
        PowerCong(Power(x, i), Power(y, i), j, p);
      }
    }
  }
}
