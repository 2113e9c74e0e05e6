// Little-endian limb arrays in a base B, and the GMP primitives that montfp.c calls on them.
module Limbs {
  import opened Arithmetic

  /** Every limb is a digit of base `b`. */
  predicate Digits(b: nat, s: seq<nat>) { forall i :: 0 <= i < |s| ==> s[i] < b }

  function Val(b: nat, s: seq<nat>): nat {
    if s == [] then 0 else Val(b, s[..|s| - 1]) + s[|s| - 1] * Pow(b, |s| - 1)
  }

  lemma ValSnoc(b: nat, s: seq<nat>, x: nat)
    ensures Val(b, s + [x]) == Val(b, s) + x * Pow(b, |s|)
  {
    assert (s + [x])[..|s|] == s;
  }

  lemma PullOut(b: int, x: int, d: int, w: int)
    ensures b * (x + d * w) == b * x + d * (b * w)
  {
  }

  /** Splitting off the low limb. */
  lemma {:induction false} ValCons(b: nat, s: seq<nat>)
    requires s != []
    ensures Val(b, s) == s[0] + b * Val(b, s[1..])
  {
    if |s| == 1 {
      assert s[1..] == [] && s[..0] == [];
    } else {
      var k := |s| - 1;
      ValCons(b, s[..k]);
      assert s[1..] == s[..k][1..] + [s[k]];
      ValSnoc(b, s[..k][1..], s[k]);
      PullOut(b, Val(b, s[..k][1..]), s[k], Pow(b, k - 1));
    }
  }

  lemma TopDigit(b: int, d: int, w: int, x: int)
    requires d < b && 0 <= x < w
    ensures x + d * w < b * w
  {
    assert (b - d - 1) * w >= 0;
    assert (b - d - 1) * w == b * w - d * w - w;
  }

  lemma {:induction false} ValBound(b: nat, s: seq<nat>)
    requires Digits(b, s)
    ensures Val(b, s) < Pow(b, |s|) || b == 0
  {
    if s != [] && b > 0 {
      var k := |s| - 1;
      ValBound(b, s[..k]);
      TopDigit(b, s[k], Pow(b, k), Val(b, s[..k]));
    }
  }

  lemma FirstDigit(b: nat, s: seq<nat>)
    requires s != [] && Digits(b, s)
    ensures s[0] < b
  {
  }

  /** The low limb is the value modulo the base. */
  lemma LowLimb(b: nat, s: seq<nat>)
    requires s != [] && Digits(b, s)
    ensures Val(b, s) % b == s[0] && Val(b, s) / b == Val(b, s[1..])
  {
    hide *;
    FirstDigit(b, s);
    ValCons(b, s);
    DivModSplit(Val(b, s), b, Val(b, s[1..]), s[0]);
  }

  /** The limb on top is the quotient by the weight of the others. */
  lemma TopLimb(b: nat, s: seq<nat>, c: nat)
    requires 1 <= b && Digits(b, s)
    ensures 1 <= Pow(b, |s|) && Val(b, s + [c]) / Pow(b, |s|) == c && Val(b, s + [c]) % Pow(b, |s|) == Val(b, s)
  {
    hide *;
    PowPositive(b, |s|);
    ValSnoc(b, s, c);
    ValBound(b, s);
    DivModUnique(Val(b, s + [c]), Pow(b, |s|), c, Val(b, s));
  }

  lemma {:induction false} ValConcat(b: nat, s: seq<nat>, t: seq<nat>)
    ensures Val(b, s + t) == Val(b, s) + Pow(b, |s|) * Val(b, t)
  {
    if t == [] {
      assert s + t == s;
    } else {
      var k := |t| - 1;
      ValConcat(b, s, t[..k]);
      assert s + t == (s + t[..k]) + [t[k]] && t == t[..k] + [t[k]];
      ValSnoc(b, s + t[..k], t[k]);
      ValSnoc(b, t[..k], t[k]);
      PowAdd(b, |s|, k);
      hide *;
      WeighTop(Pow(b, |s|), Val(b, t[..k]), t[k], Pow(b, k));
    }
  }

  lemma WeighTop(w: int, x: int, d: int, v: int)
    ensures w * (x + d * v) == w * x + d * (w * v)
  {
  }

  /** Digit strings of one length with the same value are equal. */
  lemma {:induction false} ValInjective(b: nat, s: seq<nat>, t: seq<nat>)
    requires |s| == |t| && Digits(b, s) && Digits(b, t) && Val(b, s) == Val(b, t)
    ensures s == t
  {
    if s != [] {
      LowLimb(b, s);
      LowLimb(b, t);
      ValInjective(b, s[1..], t[1..]);
      assert s == [s[0]] + s[1..] && t == [t[0]] + t[1..];
    }
  }

  /** The `n` limbs of `x`, least significant first (`set_limbs`). */
  function ToLimbs(b: nat, x: nat, n: nat): (s: seq<nat>)
    requires 1 <= b
    ensures |s| == n && Digits(b, s)
  {
    if n == 0 then [] else [x % b] + ToLimbs(b, x / b, n - 1)
  }

  lemma {:induction false} ToLimbsVal(b: nat, x: nat, n: nat)
    requires 1 <= b && x < Pow(b, n)
    ensures Val(b, ToLimbs(b, x, n)) == x
  {
    hide *;
    if n == 0 {
      NoLimbs(b, x);
    } else {
      PowSucc(b, n - 1);
      QuotientBound(x, b, Pow(b, n - 1));
      ToLimbsVal(b, x / b, n - 1);
      ToLimbsCons(b, x, n);
      Quotient(x, b, Val(b, ToLimbs(b, x / b, n - 1)));
    }
  }

  lemma NoLimbs(b: nat, x: nat)
    requires 1 <= b && x < Pow(b, 0)
    ensures Val(b, ToLimbs(b, x, 0)) == x
  {
  }

  lemma Quotient(x: int, b: int, v: int)
    requires 0 < b && v == x / b
    ensures x % b + b * v == x
  {
  }

  lemma ToLimbsCons(b: nat, x: nat, n: nat)
    requires 1 <= b && 1 <= n && 0 <= x / b
    ensures Val(b, ToLimbs(b, x, n)) == x % b + b * Val(b, ToLimbs(b, x / b, n - 1))
  {
    var s := ToLimbs(b, x, n);
    assert s[1..] == ToLimbs(b, x / b, n - 1);
    ValCons(b, s);
  }

  // ---------------------------------------------------------------- the GMP primitives

  /** A word-sized result. */
  function Wrap(b: nat, x: nat): (r: nat)
    requires 1 <= b
    ensures r < b
  {
    x % b
  }

  /** One word of a multiply-and-add: the double-width result split into low word and carry. */
  method MulAddWord(b: nat, z: nat, u: nat, d: nat, c: nat) returns (lo: nat, carry: nat)
    requires 2 <= b && z < b && u < b && d < b && c < b
    ensures lo < b && carry < b && lo + b * carry == z + u * d + c
    ensures u == 0 ==> carry <= 1
  {
    var x := z + u * d + c;
    ProductFits(b, z, u, d, c);
    lo, carry := x % b, x / b;
  }

  lemma ProductFits(b: nat, z: nat, u: nat, s: nat, c: nat)
    requires 2 <= b && z < b && u < b && s < b && c < b
    ensures (z + u * s + c) / b < b
    ensures u == 0 ==> (z + u * s + c) / b <= 1
  {
    MulMonotone(s, u, b - 1);
    MulMonotone(b - 1, s, b - 1);
    QuotientBound(z + u * s + c, b, b);
    if u == 0 { QuotientBound(z + u * s + c, b, 2); }
  }

  /** `out` holds before + u * s. */
  ghost predicate IsAddMul(b: nat, out: seq<nat>, before: seq<nat>, u: nat, s: seq<nat>) {
    Val(b, out) == Val(b, before) + u * Val(b, s)
  }

  /** One word of a multiply-and-add keeps the total. */
  lemma CarryStep(b: nat, low: seq<nat>, c: nat, before: seq<nat>, z: nat, u: nat, s: seq<nat>, d: nat, lo: nat,
          carry: nat)
    requires |low| == |before| == |s| && IsAddMul(b, low + [c], before, u, s)
    requires lo + b * carry == z + u * d + c
    ensures IsAddMul(b, low + [lo] + [carry], before + [z], u, s + [d])
  {
    var w := Pow(b, |s|);
    ValSnoc(b, low, c);
    ValSnoc(b, low, lo);
    ValSnoc(b, low + [lo], carry);
    ValSnoc(b, before, z);
    ValSnoc(b, s, d);
    hide Val, Pow;
    assert Pow(b, |s| + 1) == b * w by { PowSucc(b, |s|); }
    CarryWeights(b, w, Val(b, low), c, lo, carry, Val(b, before), z, u, Val(b, s), d);
  }

  lemma CarryWeights(b: int, w: int, low: int, c: int, lo: int, carry: int, before: int, z: int, u: int, s: int, d: int)
    requires low + c * w == before + u * s && lo + b * carry == z + u * d + c
    ensures low + lo * w + carry * (b * w) == before + z * w + u * (s + d * w)
  {
    SplitWeight(b, carry, lo, w, z + u * d + c);
    SumWeight(z, u * d, c, w);
    ProductWeight(u, s, d, w);
  }

  lemma SplitWeight(b: int, q: int, r: int, w: int, x: int)
    requires r + b * q == x
    ensures r * w + q * (b * w) == x * w
  {
  }

  lemma SumWeight(x: int, y: int, z: int, w: int)
    ensures (x + y + z) * w == x * w + y * w + z * w
  {
  }

  lemma ProductWeight(u: int, s: int, d: int, w: int)
    ensures u * (s + d * w) == u * s + (u * d) * w
  {
  }

  /** Writing word i of a stretch that is processed from the bottom up. */
  lemma WordWritten(b: nat, before: seq<nat>, now: seq<nat>, next: seq<nat>, off: nat, i: nat, w: nat)
    requires off + i < |now| == |before| && Digits(b, now) && w < b && next == now[off + i := w]
    requires now[..off] == before[..off] && now[off + i..] == before[off + i..]
    ensures Digits(b, next) && now[off + i] == before[off + i]
    ensures next[..off] == before[..off] && next[off + i + 1..] == before[off + i + 1..]
    ensures next[off .. off + i + 1] == now[off .. off + i] + [w]
    ensures before[off .. off + i + 1] == before[off .. off + i] + [before[off + i]]
  {
    assert now[off + i] == now[off + i..][0];
    assert next[off + i + 1..] == now[off + i..][1..];
  }

  /** `mpn_addmul_1`: z[off .. off+|s|] += u * s, returning the carry limb. */
  method AddMul1(b: nat, z: array<nat>, off: nat, s: seq<nat>, u: nat) returns (carry: nat)
    requires 2 <= b && u < b && Digits(b, s) && off + |s| <= z.Length && Digits(b, z[..])
    modifies z
    ensures Digits(b, z[..]) && carry < b
    ensures z[..off] == old(z[..off]) && z[off + |s|..] == old(z[off + |s|..])
    ensures IsAddMul(b, z[off .. off + |s|] + [carry], old(z[off .. off + |s|]), u, s)
  {
    carry := 0;
    ghost var before := z[..];
    ValSnoc(b, [], 0);
    assert IsAddMul(b, [] + [carry], before[off .. off], u, s[..0]);
    hide Val, Pow, IsAddMul;
    for i := 0 to |s|
      invariant Digits(b, z[..]) && carry < b
      invariant z[..off] == before[..off] && z[off + i..] == before[off + i..]
      invariant IsAddMul(b, z[off .. off + i] + [carry], before[off .. off + i], u, s[..i])
    {
      ghost var now, c0 := z[..], carry;
      var lo;
      lo, carry := MulAddWord(b, z[off + i], u, s[i], carry);
      z[off + i] := lo;
      WordWritten(b, before, now, z[..], off, i, lo);
      CarryStep(b, now[off .. off + i], c0, before[off .. off + i], before[off + i], u, s[..i], s[i], lo, carry);
      assert s[..i + 1] == s[..i] + [s[i]];
    }
    assert s[..|s|] == s;
  }

  /** `mpn_mul_1`: z[..|s|] := u * s, returning the carry limb. */
  method Mul1(b: nat, z: array<nat>, s: seq<nat>, u: nat) returns (carry: nat)
    requires 2 <= b && u < b && Digits(b, s) && |s| <= z.Length && Digits(b, z[..])
    modifies z
    ensures Digits(b, z[..]) && carry < b && z[|s|..] == old(z[|s|..])
    ensures Val(b, z[..|s|] + [carry]) == u * Val(b, s)
  {
    ghost var before := z[..];
    for i := 0 to |s|
      invariant z[i..] == before[i..] && forall k :: 0 <= k < i ==> z[k] == 0
    {
      z[i] := 0;
    }
    assert Digits(b, z[..]) by {
      forall k | 0 <= k < z.Length ensures z[k] < b { assert |s| <= k ==> z[k] == z[|s|..][k - |s|] == before[k]; }
    }
    ZeroVal(b, z[0 .. |s|]);
    ghost var cleared := z[..];
    hide Val;
    carry := AddMul1(b, z, 0, s, u);
    assert z[0 .. |s|] == z[..|s|];
    assert z[|s|..] == cleared[|s|..];
  }

  lemma {:induction false} ZeroVal(b: nat, s: seq<nat>)
    requires forall k :: 0 <= k < |s| ==> s[k] == 0
    ensures Val(b, s) == 0
  {
    if s != [] { ZeroVal(b, s[..|s| - 1]); }
  }

  /** `mpn_add_1`: z[off ..] += c on `n` limbs, returning the carry. */
  method Add1(b: nat, z: array<nat>, off: nat, n: nat, c: nat) returns (carry: nat)
    requires 2 <= b && c < b && off + n <= z.Length && Digits(b, z[..])
    modifies z
    ensures Digits(b, z[..]) && carry < b && (0 < n ==> carry <= 1)
    ensures z[..off] == old(z[..off]) && z[off + n..] == old(z[off + n..])
    ensures Val(b, z[off .. off + n] + [carry]) == old(Val(b, z[off .. off + n])) + c
  {
    carry := c;
    ghost var before := z[..];
    ValSnoc(b, [], c);
    hide Val, Pow;
    for i := 0 to n
      invariant Digits(b, z[..]) && carry < b && (0 < i ==> carry <= 1)
      invariant z[..off] == before[..off] && z[off + i..] == before[off + i..]
      invariant Val(b, z[off .. off + i] + [carry]) == Val(b, before[off .. off + i]) + c
    {
      ghost var now, c0 := z[..], carry;
      var lo;
      lo, carry := MulAddWord(b, z[off + i], 0, 0, carry);
      z[off + i] := lo;
      WordWritten(b, before, now, z[..], off, i, lo);
      AddStep(b, now[off .. off + i], c0, before[off .. off + i], before[off + i], c, lo, carry);
    }
  }

  lemma AddStep(b: nat, low: seq<nat>, c: nat, before: seq<nat>, z: nat, added: nat, lo: nat, carry: nat)
    requires |low| == |before| && Val(b, low + [c]) == Val(b, before) + added
    requires lo + b * carry == z + c
    ensures Val(b, low + [lo] + [carry]) == Val(b, before + [z]) + added
  {
    ValSnoc(b, low, c);
    ValSnoc(b, low, lo);
    ValSnoc(b, low + [lo], carry);
    ValSnoc(b, before, z);
    hide Val, Pow;
    assert Pow(b, |low| + 1) == b * Pow(b, |low|) by { PowSucc(b, |low|); }
    SplitWeight(b, carry, lo, Pow(b, |low|), z + c);
    SumWeight(z, 0, c, Pow(b, |low|));
  }

  /** `mpn_cmp(s, p, n) >= 0`, deciding from the most significant limb down. */
  method AtLeast(b: nat, s: seq<nat>, p: seq<nat>) returns (r: bool)
    requires 2 <= b && |s| == |p| && Digits(b, s) && Digits(b, p)
    ensures r <==> Val(b, p) <= Val(b, s)
  {
    hide Val, Pow;
    var i := |s|;
    assert s[..i] == s && p[..i] == p;
    while 0 < i
      invariant 0 <= i <= |s|
      invariant Val(b, p) - Val(b, s) == Val(b, p[..i]) - Val(b, s[..i])
    {
      i := i - 1;
      assert s[..i + 1] == s[..i] + [s[i]] && p[..i + 1] == p[..i] + [p[i]];
      ValSnoc(b, s[..i], s[i]);
      ValSnoc(b, p[..i], p[i]);
      if s[i] != p[i] {
        BelowWeight(b, s, i);
        BelowWeight(b, p, i);
        TopLimbDecides(Pow(b, i), Val(b, s[..i]), s[i], Val(b, p[..i]), p[i]);
        return s[i] > p[i];
      }
    }
    return true;
  }

  lemma BelowWeight(b: nat, s: seq<nat>, i: nat)
    requires 1 <= b && Digits(b, s) && i <= |s|
    ensures Val(b, s[..i]) < Pow(b, i)
  {
    ValBound(b, s[..i]);
  }

  lemma TopLimbDecides(w: nat, x: nat, d: nat, y: nat, e: nat)
    requires x < w && y < w && d != e
    ensures y + e * w <= x + d * w <==> e < d
  {
    if e < d {
      MulMonotone(w, e + 1, d);
    } else {
      MulMonotone(w, d + 1, e);
    }
  }

  /** `mpn_sub_n`: the difference modulo b^n. */
  method SubN(b: nat, s: seq<nat>, p: seq<nat>) returns (r: seq<nat>)
    requires 2 <= b && |s| == |p| && Digits(b, s) && Digits(b, p)
    ensures |r| == |s| && Digits(b, r)
    ensures Val(b, r) == Val(b, s) - Val(b, p) || Val(b, r) == Val(b, s) - Val(b, p) + Pow(b, |s|)
  {
    r := [];
    var borrow := 0;
    for i := 0 to |s|
      invariant |r| == i && Digits(b, r) && 0 <= borrow <= 1
      invariant Val(b, r) == Val(b, s[..i]) - Val(b, p[..i]) + borrow * Pow(b, i)
    {
      var x := s[i] - p[i] - borrow;
      assert s[..i + 1] == s[..i] + [s[i]] && p[..i + 1] == p[..i] + [p[i]];
      ValSnoc(b, s[..i], s[i]);
      ValSnoc(b, p[..i], p[i]);
      var d := if x < 0 then x + b else x;
      ValSnoc(b, r, d);
      BorrowStep(Pow(b, i), b, s[i], p[i], borrow);
      r, borrow := r + [d], if x < 0 then 1 else 0;
    }
    assert s[..|s|] == s && p[..|s|] == p;
  }

  lemma BorrowStep(w: nat, b: nat, s: nat, p: nat, borrow: nat)
    ensures var x := s - p - borrow;
            (if x < 0 then x + b else x) * w + borrow * w == s * w - p * w + (if x < 0 then 1 else 0) * (b * w)
  {
    var x := s - p - borrow;
    assert x * w == s * w - p * w - borrow * w;
    assert (x + b) * w == x * w + b * w;
  }
}
