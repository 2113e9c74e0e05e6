// Field elements of pbc-0.5.14/arith/montfp.c: conversion in, multiplication, and mont_reduce back out.
module MontgomeryElements {
  import opened Arithmetic
  import opened Limbs
  import opened PrimeFields
  import opened Montgomery
  import opened MontgomeryTheorems
  import opened MontgomeryLimbs

  // ---------------------------------------------------------------- mont_reduce

  /** The multiplier clears the limb it was computed from. */
  lemma ClearsLimb(f: Field, s: seq<nat>, s1: seq<nat>, c: nat, u: nat)
    requires f.Valid() && |s| == |s1| > 0 && Digits(f.base, s) && Digits(f.base, s1)
    requires u == Clearing(f, s[0]) && IsAddMul(f.base, s1 + [c], s, u, f.primelimbs)
    ensures s1[0] == 0
  {
    var b, x, p := f.base, Val(f.base, s), f.Modulus();
    assert Cong(x + u * p, 0, b) by {
      LowLimb(b, s);
      CongMod(x, b);
      ClearingDepends(f, s[0], x);
      Cleared(b, p, f.negpinv, x, u);
    }
    PowSucc(b, |s| - 1);
    ValSnoc(b, s1, c);
    LowLimb(b, s1);
    MultipleAbove(Val(b, s1), c, Pow(b, |s| - 1), b);
  }

  lemma MultipleAbove(v: int, c: int, w: int, b: int)
    requires 0 < b && Cong(v + c * (b * w), 0, b)
    ensures v % b == 0
  {
    assert v + c * (b * w) == v + (c * w) * b;
    CongFrom(v + c * (b * w), v, b, c * w);
    DivModUnique(0, b, 0, 0);
  }

  /** Adding at limb i on values. */
  lemma SuffixTotal(b: nat, low: seq<nat>, s: seq<nat>, s1: seq<nat>, c: nat, added: int)
    requires Val(b, s1 + [c]) == Val(b, s) + added
    ensures Val(b, low + s1 + [c]) == Val(b, low + s) + Pow(b, |low|) * added
  {
    ValConcatSnoc(b, low, s1, c);
    ValConcat(b, low, s);
    hide *;
    Distribute(Pow(b, |low|), Val(b, s1 + [c]), Val(b, s), added);
  }

  lemma ValConcatSnoc(b: nat, low: seq<nat>, s: seq<nat>, c: nat)
    ensures Val(b, low + s + [c]) == Val(b, low) + Pow(b, |low|) * Val(b, s + [c])
  {
    assert low + s + [c] == low + (s + [c]);
    ValConcat(b, low, s + [c]);
  }

  lemma Distribute(w: int, sum: int, x: int, y: int)
    requires sum == x + y
    ensures w * sum == w * x + w * y
  {
  }

  /** `mpn_addmul_1` at limb i followed by `mpn_add_1` of its carry on the limbs above. */
  method AddMulThrough(base: nat, y: array<nat>, i: nat, s: seq<nat>, u: nat) returns (c1: nat)
    requires 2 <= base && u < base && Digits(base, s) && i + |s| < y.Length && Digits(base, y[..])
    modifies y
    ensures Digits(base, y[..]) && c1 <= 1 && y[..i] == old(y[..i])
    ensures IsAddMul(base, y[i..] + [c1], old(y[i..]), u, s)
  {
    hide Val, Pow, IsAddMul;
    var t, n := |s|, y.Length - i - |s|;
    ghost var s0 := y[..];
    var c := AddMul1(base, y, i, s, u);
    ghost var s1 := y[..];
    Window(s0, s1, i, t);
    c1 := Add1(base, y, i + t, n, c);
    ghost var s2 := y[..];
    assert s2[i + t..] == y[i + t .. i + t + n] && s1[i + t..] == s1[i + t .. i + t + n];
    Above(s0, s1, s2, i, t);
    UpperTotal(base, s0[i .. i + t], s0[i + t..], s1[i .. i + t], c, s2[i + t..], c1, u, s);
  }

  /** The text after `mpn_addmul_1`, cut at the two ends of its window. */
  lemma Window(s0: seq<nat>, s1: seq<nat>, i: nat, t: nat)
    requires i + t <= |s0| == |s1| && s1[..i] == s0[..i] && s1[i + t..] == s0[i + t..]
    ensures s0[i..] == s0[i .. i + t] + s0[i + t..]
  {
  }

  /** And after `mpn_add_1` above the window. */
  lemma Above(s0: seq<nat>, s1: seq<nat>, s2: seq<nat>, i: nat, t: nat)
    requires i + t <= |s0| == |s1| == |s2| && s1[..i] == s0[..i] && s2[..i + t] == s1[..i + t]
    ensures s2[i..] == s1[i .. i + t] + s2[i + t..] && s2[..i] == s0[..i]
  {
    assert s2[..i] == s2[..i + t][..i] && s1[..i] == s1[..i + t][..i];
    assert s2[i .. i + t] == s2[..i + t][i..] && s1[i .. i + t] == s1[..i + t][i..];
  }

  lemma UpperTotal(b: nat, mid: seq<nat>, high: seq<nat>, mid1: seq<nat>, c: nat, high1: seq<nat>, c1: nat, u: nat,
          s: seq<nat>)
    requires |mid| == |mid1|
    requires IsAddMul(b, mid1 + [c], mid, u, s) && Val(b, high1 + [c1]) == Val(b, high) + c
    ensures IsAddMul(b, mid1 + high1 + [c1], mid + high, u, s)
  {
    assert mid1 + high1 + [c1] == mid1 + (high1 + [c1]);
    ValConcat(b, mid1, high1 + [c1]);
    ValConcat(b, mid, high);
    ValSnoc(b, mid1, c);
    hide Val, Pow;
    CarryOver(Pow(b, |mid|), Val(b, mid1), Val(b, mid), c, Val(b, high), Val(b, high1 + [c1]), u * Val(b, s));
  }

  lemma CarryOver(r: int, mid1: int, mid: int, c: int, high: int, high1: int, up: int)
    requires mid1 + c * r == mid + up && high1 == high + c
    ensures mid1 + r * high1 == mid + r * high + up
  {
    assert r * (high + c) == r * high + c * r;
  }

  /** One pass of the reduction loop, at limb i. */
  method ReduceLimb(f: Field, y: array<nat>, i: nat) returns (c1: nat, ghost u: nat)
    requires f.Valid() && i < |f.primelimbs| && y.Length == 2 * |f.primelimbs| && Digits(f.base, y[..])
    modifies y
    ensures Digits(f.base, y[..]) && u < f.base && c1 <= 1
    ensures y[..i] == old(y[..i]) && y[i] == 0
    ensures Val(f.base, y[..] + [c1]) == old(Val(f.base, y[..])) + Pow(f.base, i) * (u * f.Modulus())
  {
    ghost var low, s := y[..i], y[i..];
    assert y[..] == low + s;
    hide Val, Pow, Clearing, Cong;
    var m := Multiplier(f, y[i], 0, 0);
    u := m;
    c1 := AddMulThrough(f.base, y, i, f.primelimbs, m);
    ghost var s1 := y[i..];
    assert y[..] == low + s1;
    ClearsLimb(f, s, s1, c1, u);
    ghost var up := u * f.Modulus();
    SuffixTotal(f.base, low, s, s1, c1, up);
  }

  /** `mont_reduce`: from 2t limbs y to t limbs x with x * R == y modulo p, and x < p when y < p * R. */
  method MontReduce(f: Field, x: array<nat>, y: array<nat>)
    requires f.Valid() && x.Length == |f.primelimbs| && y.Length == 2 * x.Length && x != y && Digits(f.base, y[..])
    modifies x, y
    ensures 1 <= f.Radix() && 1 <= f.Modulus() && Digits(f.base, x[..])
    ensures Cong(Val(f.base, x[..]) * f.Radix(), old(Val(f.base, y[..])), f.Modulus())
    ensures Reducible(f, old(Val(f.base, y[..]))) ==> Val(f.base, x[..]) < f.Modulus()
  {
    assert 1 <= f.Radix() && 1 <= f.Modulus() by { RadixFacts(f); }
    var t, base := |f.primelimbs|, f.base;
    ghost var start, m := Val(base, y[..]), 0;
    var flag := 0;
    TotalAtStart(base, y[..]);
    assert start < Pow(base, y.Length) by { ValBound(base, y[..]); }
    hide Val, Pow, Reduced, Reducible, Finish, Field.Modulus, Field.Radix, Cong;
    for i := 0 to t
      invariant Digits(base, y[..]) && forall k :: 0 <= k < i ==> y[k] == 0
      invariant Reduced(f, y[..], flag, start, m) && 0 <= m < Pow(base, i)
    {
      ghost var before := y[..];
      var c1;
      ghost var u;
      c1, u := ReduceLimb(f, y, i);
      m := ReducedStep(f, before, y[..], flag, c1, start, m, i, u);
      assert forall k :: 0 <= k < i ==> y[k] == y[..i][k] == before[..i][k];
      flag := flag + c1;
    }
    ReducedEnd(f, y[..], flag, start, m);
    CopyInto(x, f, y[t..], flag);
  }

  /** Small enough for the result to be a residue. */
  ghost predicate Reducible(f: Field, y: int) { y < f.Modulus() * f.Radix() }

  /** The array with its overflow count is the original value plus `m` times the modulus. */
  ghost predicate Reduced(f: Field, y: seq<nat>, flag: nat, start: int, m: int) {
    Val(f.base, y) + flag * Pow(f.base, |y|) == start + m * f.Modulus()
  }

  lemma TotalAtStart(b: nat, y: seq<nat>)
    ensures 1 <= Pow(b, 0)
    ensures forall f: Field :: f.base == b ==> Reduced(f, y, 0, Val(b, y), 0)
  {
  }

  lemma ReducedStep(f: Field, before: seq<nat>, after: seq<nat>, flag: nat, c1: nat, start: int, m: int, i: nat, u: nat)
    returns (next: int)
    requires 1 <= f.base && f.Valid() && |before| == |after| && u < f.base
    requires Reduced(f, before, flag, start, m) && 0 <= m < Pow(f.base, i)
    requires Val(f.base, after + [c1]) == Val(f.base, before) + Pow(f.base, i) * (u * f.Modulus())
    ensures Reduced(f, after, flag + c1, start, next) && 0 <= next < Pow(f.base, i + 1)
  {
    next := m + Pow(f.base, i) * u;
    hide Field.Valid, Field.Modulus, Val, Pow;
    ValSnoc(f.base, after, c1);
    PowSucc(f.base, i);
    PowPositive(f.base, i);
    StepSum(Val(f.base, after), Val(f.base, before), flag, c1, Pow(f.base, |after|), start, m,
            f.Modulus(), Pow(f.base, i), u,
            Val(f.base, after + [c1]), next);
    TopDigitInt(f.base, u, Pow(f.base, i), m, next);
  }

  lemma TopDigitInt(b: int, d: int, w: int, x: int, sum: int)
    requires 0 <= d < b && 0 <= x < w && sum == x + w * d
    ensures 0 <= sum < b * w
  {
    MulMonotone(w, d, b - 1);
    assert 0 <= w * d;
  }

  lemma StepSum(after: int, before: int, flag: int, c1: int, w: int, start: int, m: int, p: int, v: int, u: int,
                out: int, next: int)
    requires before + flag * w == start + m * p && out == after + c1 * w && out == before + v * (u * p)
             && next == m + v * u
    ensures after + (flag + c1) * w == start + next * p
  {
    assert (flag + c1) * w == flag * w + c1 * w;
    assert (m + v * u) * p == m * p + v * (u * p);
  }

  /** With the low half cleared, the high half and the overflow are the total divided by R. */
  lemma ReducedEnd(f: Field, y: seq<nat>, flag: nat, start: int, m: int)
    requires f.Valid() && 1 <= f.Radix() && 1 <= f.Modulus() && |y| == 2 * |f.primelimbs| && Digits(f.base, y)
    requires forall k :: 0 <= k < |f.primelimbs| ==> y[k] == 0
    requires Reduced(f, y, flag, start, m) && 0 <= m < f.Radix() && 0 <= start < Pow(f.base, |y|)
    ensures var s := Val(f.base, y[|f.primelimbs|..] + [flag]);
            && Cong(Finish(f, s) * f.Radix(), start, f.Modulus())
            && (Reducible(f, start) ==> Finish(f, s) < f.Modulus())
  {
    var t, b, r, p := |f.primelimbs|, f.base, f.Radix(), f.Modulus();
    var low, high := y[..t], y[t..];
    var s := Val(b, high + [flag]);
    RadixFacts(f);
    assert y == low + high;
    ZeroVal(b, low);
    ValConcat(b, low, high);
    ValSnoc(b, high, flag);
    PowAdd(b, t, t);
    hide Val, Pow, Field.Modulus, Finish, Cong;
    assert Val(b, y) + flag * (r * r) == start + m * p;
    TotalIsQuotient(r, Val(b, high), flag, s, start, m, p);
    FinishReduces(f, s);
    var d := if Finish(f, s) == s then 0 else 1;
    QuotientCongruent(f, s, Finish(f, s), d, start, m);
  }

  lemma TotalIsQuotient(r: int, high: int, flag: int, s: int, start: int, m: int, p: int)
    requires 1 <= r && s == high + flag * r && r * high + flag * (r * r) == start + m * p
    requires 0 <= start < r * r && 0 <= m < r && 1 <= p
    ensures r * s == start + m * p && 0 <= s < r + p && (start < p * r ==> s < 2 * p)
  {
    assert r * s == r * high + flag * (r * r);
    TotalBound(r, m, p);
    if s < 0 { MulMonotone(r, s, -1); }
    if r + p <= s { MulMonotone(r, r + p, s); }
    if start < p * r && 2 * p <= s { MulMonotone(r, 2 * p, s); }
  }

  lemma TotalBound(r: int, m: int, p: int)
    requires 1 <= r && 0 <= m < r && 1 <= p
    ensures 0 <= m * p <= r * p - p && r * (r + p) == r * r + r * p && r * (2 * p) == 2 * (r * p) && p * r == r * p
  {
    MulMonotone(p, m, r - 1);
  }

  lemma QuotientCongruent(f: Field, s: int, c: int, d: int, start: int, m: int)
    requires 1 <= f.Modulus() && f.Radix() * s == start + m * f.Modulus() && c == s - d * f.Modulus()
    ensures Cong(c * f.Radix(), start, f.Modulus())
  {
    var r, p := f.Radix(), f.Modulus();
    assert c * r == start + (m - d * r) * p;
    CongFrom(c * r, start, p, m - d * r);
  }

  // ---------------------------------------------------------------- field elements

  /** The representation of `z`: z * R modulo p. It is zero only for multiples of p. */
  method ToRepresentation(f: Field, z: int) returns (tmp: nat)
    requires f.Valid() && 1 <= f.Modulus()
    ensures tmp < f.Modulus() && Cong(tmp, z * f.Radix(), f.Modulus()) && (tmp == 0 ==> Cong(z, 0, f.Modulus()))
  {
    tmp := z * f.Radix() % f.Modulus();
    CongMod(z * f.Radix(), f.Modulus());
    if tmp == 0 { RadixIsUnit(f, z); }
  }

  /** When no carry is lost, mont_mul of two representations represents the product. */
  lemma ProductRepresented(f: Field, av: seq<nat>, bv: int, x: int, y: int)
    requires f.Valid() && Prime(f.Modulus()) && 1 <= f.Radix() && |av| == |f.primelimbs| && Digits(f.base, av)
    requires 0 < Val(f.base, av) < f.Modulus() && 0 < bv < f.Modulus() && LostCarries(f, av, bv) == 0
    requires Cong(Val(f.base, av), x * f.Radix(), f.Modulus()) && Cong(bv, y * f.Radix(), f.Modulus())
    ensures 0 < MontMul(f, av, bv) < f.Modulus() && Cong(MontMul(f, av, bv), x * y * f.Radix(), f.Modulus())
  {
    MontMulCorrectIff(f, av, bv);
    var a, c, r, p := Val(f.base, av), MontMul(f, av, bv), f.Radix(), f.Modulus();
    ProductChain(a, bv, c, x, y, r, p);
    CancelRadix(f, c, x * y * r);
    if c == 0 {
      DivModUnique(0, p, 0, 0);
      assert Cong(a * bv, 0, p);
      NoZeroDivisors(a, bv, p);
      if Cong(a, 0, p) { ResidueUnique(a, 0, p); } else { ResidueUnique(bv, 0, p); }
    }
  }

  /** With a lost carry the result represents something else. */
  lemma LostProduct(f: Field, av: seq<nat>, bv: int, x: int, y: int)
    requires f.Valid() && 1 <= f.Radix() && 1 <= f.Modulus() && |av| == |f.primelimbs| && Digits(f.base, av)
    requires 0 <= bv < f.Modulus() && LostCarries(f, av, bv) != 0
    requires Cong(Val(f.base, av), x * f.Radix(), f.Modulus()) && Cong(bv, y * f.Radix(), f.Modulus())
    ensures !Cong(MontMul(f, av, bv), x * y * f.Radix(), f.Modulus())
  {
    MontMulCorrectIff(f, av, bv);
    var a, c, r, p := Val(f.base, av), MontMul(f, av, bv), f.Radix(), f.Modulus();
    if Cong(c, x * y * r, p) { WrongWay(a, bv, c, x, y, r, p); }
  }

  lemma WrongWay(a: int, b: int, c: int, x: int, y: int, r: int, p: int)
    requires 0 < p && Cong(c, x * y * r, p) && Cong(a, x * r, p) && Cong(b, y * r, p)
    ensures Cong(c * r, a * b, p)
  {
    CongMul(c, x * y * r, r, r, p);
    CongMul(a, x * r, b, y * r, p);
    Regroup(x, y, r);
  }

  lemma ProductChain(a: int, b: int, c: int, x: int, y: int, r: int, p: int)
    requires 0 < p && Cong(c * r, a * b, p) && Cong(a, x * r, p) && Cong(b, y * r, p)
    ensures Cong(c * r, x * y * r * r, p)
  {
    CongMul(a, x * r, b, y * r, p);
    Regroup(x, y, r);
  }

  lemma Regroup(x: int, y: int, r: int)
    ensures (x * r) * (y * r) == x * y * r * r
  {
  }

  lemma CancelRadix(f: Field, c: int, z: int)
    requires f.Valid() && 1 <= f.Modulus() && Cong(c * f.Radix(), z * f.Radix(), f.Modulus())
    ensures Cong(c, z, f.Modulus())
  {
    var r, p := f.Radix(), f.Modulus();
    CongAdd(c * r, z * r, z * r, z * r, p);
    assert c * r - z * r == (c - z) * r;
    RadixIsUnit(f, c - z);
    CongAdd(c - z, 0, z, z, p);
  }

  /** An element: flag 0 is zero, flag 2 says that `d` holds the value times R, reduced and not zero. */
  class Element {
    const f: Field
    var flag: nat
    const d: array<nat>

    ghost predicate Valid()
      reads this, d
    {
      && f.Valid() && Prime(f.Modulus()) && d.Length == |f.primelimbs| && Digits(f.base, d[..])
      && (flag == 0 || (flag == 2 && 0 < Val(f.base, d[..]) < f.Modulus()))
    }

    /** The element stands for the residue of `x`. */
    ghost predicate Represents(x: int)
      reads this, d
    {
      && Valid()
      && (flag == 0 ==> Cong(x, 0, f.Modulus()))
      && (flag == 2 ==> Cong(Val(f.base, d[..]), x * f.Radix(), f.Modulus()))
    }

    constructor (f: Field)
      requires f.Valid() && Prime(f.Modulus())
      ensures this.f == f && Represents(0) && fresh(d)
    {
      this.f := f;
      flag := 0;
      d := new nat[|f.primelimbs|](_ => 0);
      new;
      assert Digits(f.base, d[..]);
    }

    /** `fp_set_mpz`. */
    method SetMpz(z: int)
      requires Valid()
      modifies this, d
      ensures Represents(z)
    {
      if z == 0 {
        flag := 0;
      } else {
        var tmp := ToRepresentation(f, z);
        if tmp == 0 {
          flag := 0;
        } else {
          var limbs := ToLimbs(f.base, tmp, d.Length);
          forall k | 0 <= k < d.Length { d[k] := limbs[k]; }
          flag := 2;
          assert d[..] == limbs;
          assert Val(f.base, limbs) == tmp by { RadixFacts(f); ToLimbsVal(f.base, tmp, d.Length); }
        }
      }
    }

    /** `fp_mul` into this element, which may be one of the factors. */
    method Mul(a: Element, b: Element, ghost x: int, ghost y: int)
      requires Valid() && a.Represents(x) && b.Represents(y) && a.f == b.f == f
      requires (a == this || a.d != d) && (b == this || b.d != d)
      modifies this, d
      ensures 1 <= f.Radix()
      ensures Represents(x * y) <==>
              old(a.flag == 0 || b.flag == 0) || LostCarries(f, old(a.d[..]), old(Val(f.base, b.d[..]))) == 0
    {
      assert 1 <= f.Radix() by { RadixFacts(f); }
      if a.flag == 0 || b.flag == 0 {
        if a.flag == 0 { CongMul(x, 0, y, y, f.Modulus()); } else { CongMul(x, x, y, 0, f.Modulus()); }
        flag := 0;
      } else {
        ghost var av, bv := a.d[..], Val(f.base, b.d[..]);
        assert Cong(Val(f.base, av), x * f.Radix(), f.Modulus()) && Cong(bv, y * f.Radix(), f.Modulus());
        MontMulInto(f, d, a.d, b.d);
        flag := 2;
        if LostCarries(f, av, bv) == 0 { ProductRepresented(f, av, bv, x, y); } else { LostProduct(f, av, bv, x, y); }
      }
    }

    /** `fp_to_mpz`: the limbs of the residue, without leading zero limbs. */
    method ToMpz(ghost x: int) returns (z: seq<nat>)
      requires Represents(x)
      ensures Digits(f.base, z) && Val(f.base, z) == x % f.Modulus() && (z != [] ==> z[|z| - 1] != 0)
    {
      if flag == 0 {
        z := [];
        DivModUnique(0, f.Modulus(), 0, 0);
      } else {
        z := FromRepresentation(f, d[..], x);
      }
    }
  }

  /** Dividing a non-zero representation by R. */
  method FromRepresentation(f: Field, d: seq<nat>, ghost x: int) returns (z: seq<nat>)
    requires f.Valid() && 1 <= f.Modulus() && |d| == |f.primelimbs| && Digits(f.base, d)
             && 0 < Val(f.base, d) < f.Modulus()
    requires Cong(Val(f.base, d), x * f.Radix(), f.Modulus())
    ensures Digits(f.base, z) && Val(f.base, z) == x % f.Modulus() && z != [] && z[|z| - 1] != 0
  {
    var t := |d|;
    ghost var dv := Val(f.base, d);
    assert 1 <= f.Radix() && Reducible(f, dv) by { RadixFacts(f); ResidueIsReducible(f, dv); }
    hide Val, Field.Modulus, Field.Radix, Reducible, Cong;
    var tmp, out := new nat[2 * t](_ => 0), new nat[t];
    forall k | 0 <= k < t { tmp[k] := d[k]; }
    assert tmp[..t] == d;
    PaddedValue(f.base, d, tmp[..]);
    MontReduce(f, out, tmp);
    ReducedRepresents(f, Val(f.base, out[..]), dv, x);
    z := StripZeros(f.base, out[..]);
  }

  /** Drops leading zero limbs; there is a limb that is not zero. */
  method StripZeros(b: nat, s: seq<nat>) returns (z: seq<nat>)
    requires Digits(b, s) && 0 < Val(b, s)
    ensures Digits(b, z) && Val(b, z) == Val(b, s) && z != [] && z[|z| - 1] != 0
  {
    z := s;
    while z[|z| - 1] == 0
      invariant z != [] && Digits(b, z) && Val(b, z) == Val(b, s)
      decreases |z|
    {
      z := z[..|z| - 1];
    }
  }

  lemma PaddedValue(b: nat, s: seq<nat>, padded: seq<nat>)
    requires |s| <= |padded| && padded[..|s|] == s && forall k :: |s| <= k < |padded| ==> padded[k] == 0
    ensures Val(b, padded) == Val(b, s)
  {
    var zeros := padded[|s|..];
    assert padded == s + zeros;
    ZeroVal(b, zeros);
    ValConcat(b, s, zeros);
  }

  lemma ResidueIsReducible(f: Field, x: int)
    requires 1 <= f.Radix() && 0 <= x < f.Modulus()
    ensures Reducible(f, x)
  {
    MulMonotone(f.Modulus(), 1, f.Radix());
  }

  /** Reducing a representation gives back the residue, which is not zero. */
  lemma ReducedRepresents(f: Field, out: int, dv: int, x: int)
    requires f.Valid() && 1 <= f.Radix() && 1 <= f.Modulus() && 0 <= out < f.Modulus() && 0 < dv < f.Modulus()
    requires Cong(out * f.Radix(), dv, f.Modulus()) && Cong(dv, x * f.Radix(), f.Modulus())
    ensures out == x % f.Modulus() && 0 < out
  {
    CancelRadix(f, out, x);
    DivModUnique(out, f.Modulus(), 0, out);
    if out == 0 { ResidueUnique(dv, 0, f.Modulus()); }
  }

  /** Multiplying the representations of x and y loses no carry; multiples of p have none. */
  ghost predicate NoneLost(f: Field, x: int, y: int)
    requires f.Valid() && 1 <= f.Modulus() && 1 <= f.Radix()
  {
    forall av: seq<nat>, bv: int ::
      |av| == |f.primelimbs| && Digits(f.base, av) && 0 < Val(f.base, av) < f.Modulus() && 0 < bv < f.Modulus()
      && Cong(Val(f.base, av), x * f.Radix(), f.Modulus()) && Cong(bv, y * f.Radix(), f.Modulus()) ==>
        LostCarries(f, av, bv) == 0
  }

  /** So it is for every x and y with a single limb or a top limb of p other than all ones. */
  lemma TopLimbNoneLost(f: Field, x: int, y: int)
    requires f.Valid() && 1 <= f.Modulus() && 1 <= f.Radix()
    requires |f.primelimbs| == 1 || f.primelimbs[|f.primelimbs| - 1] != f.base - 1
    ensures NoneLost(f, x, y)
  {
    hide Val, Field.Modulus, Field.Radix, LostCarries, Cong;
    forall av: seq<nat>, bv: int |
      |av| == |f.primelimbs| && Digits(f.base, av) && 0 < Val(f.base, av) < f.Modulus() && 0 < bv < f.Modulus()
      ensures LostCarries(f, av, bv) == 0
    {
      NothingLost(f, av, bv);
    }
  }

  /** Set, multiply, convert back: multiplication modulo p when no carry is lost. */
  method MultiplyMod(f: Field, x: int, y: int) returns (z: seq<nat>)
    requires f.Valid() && Prime(f.Modulus()) && 1 <= f.Radix() && NoneLost(f, x, y)
    ensures Val(f.base, z) == (x * y) % f.Modulus() && Digits(f.base, z) && (z != [] ==> z[|z| - 1] != 0)
  {
    var a := new Element(f);
    a.SetMpz(x);
    var b := new Element(f);
    b.SetMpz(y);
    a.Mul(a, b, x, y);
    z := a.ToMpz(x * y);
  }

  /** R is a unit modulo p. */
  lemma RadixIsUnit(f: Field, x: int)
    requires f.Valid() && 1 <= f.Modulus() && Cong(x * f.Radix(), 0, f.Modulus())
    ensures Cong(x, 0, f.Modulus())
  {
    assert x * f.Radix() == f.Radix() * x;
    CancelPow(f, |f.primelimbs|, x);
  }
}
