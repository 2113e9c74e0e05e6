// mont_mul of pbc-0.5.14/arith/montfp.c on limb arrays.
module MontgomeryLimbs {
  import opened Arithmetic
  import opened Limbs
  import opened PrimeFields
  import opened Montgomery

  /** One row on limbs refines one row on values. */
  lemma RowOnLimbs(f: Field, low: seq<nat>, top: nat, ai: nat, bs: seq<nat>, low1: seq<nat>, c1: nat, u: nat,
          low2: seq<nat>, c2: nat)
    requires 1 <= f.base && f.primelimbs != [] && 1 <= f.Radix()
    requires |low| == |f.primelimbs| && |bs| == |f.primelimbs| && |low1| == |f.primelimbs| && |low2| == |f.primelimbs|
    requires Digits(f.base, low) && Digits(f.base, bs) && Digits(f.base, low1) && Digits(f.base, low2)
    requires IsAddMul(f.base, low1 + [c1], low, ai, bs) && IsAddMul(f.base, low2 + [c2], low1, u, f.primelimbs)
    requires u == Clearing(f, low[0] + ai * bs[0])
    ensures var v := Wrap(f.base, top + c1);
            var w := Wrap(f.base, v + c2);
            Val(f.base, low2[1..] + [w] + [if w < v then 1 else 0])
            == Row(f, Val(f.base, low + [top]), ai, Val(f.base, bs))
  {
    hide *;
    var v := Wrap(f.base, top + c1);
    RowIsShift(f, low, top, ai, bs, low1, c1, u, low2, c2);
    ShiftIsWindow(f, v, low2, c2);
  }

  lemma RowIsShift(f: Field, low: seq<nat>, top: nat, ai: nat, bs: seq<nat>, low1: seq<nat>, c1: nat, u: nat,
          low2: seq<nat>, c2: nat)
    requires 1 <= f.base && f.primelimbs != [] && 1 <= f.Radix()
    requires |low| == |f.primelimbs| && |bs| == |f.primelimbs| && |low1| == |f.primelimbs| && |low2| == |f.primelimbs|
    requires Digits(f.base, low) && Digits(f.base, bs) && Digits(f.base, low1) && Digits(f.base, low2)
    requires IsAddMul(f.base, low1 + [c1], low, ai, bs) && IsAddMul(f.base, low2 + [c2], low1, u, f.primelimbs)
    requires u == Clearing(f, low[0] + ai * bs[0])
    ensures Row(f, Val(f.base, low + [top]), ai, Val(f.base, bs))
            == ShiftOut(f, Wrap(f.base, top + c1), Val(f.base, low2 + [c2]))
  {
    hide *;
    var b := f.base;
    LowWord(b, low, ai, bs);
    ClearingDepends(f, low[0] + ai * bs[0], Val(b, low) + ai * Val(b, bs));
    WindowParts(f, low, top);
    WindowParts(f, low1, c1);
    AddMulValue(b, low1 + [c1], low, ai, bs);
    AddMulValue(b, low2 + [c2], low1, u, f.primelimbs);
    ModulusIs(f);
    RowFor(f, Val(b, low + [top]), ai, Val(b, bs), top, Val(b, low), Val(b, low1 + [c1]), c1, Val(b, low1), u,
           Val(b, low2 + [c2]));
  }

  /** A window's limbs: the top one is the quotient by R, the others the remainder. */
  lemma WindowParts(f: Field, s: seq<nat>, c: nat)
    requires 1 <= f.base && |s| == |f.primelimbs| && Digits(f.base, s) && 1 <= f.Radix()
    ensures Val(f.base, s + [c]) / f.Radix() == c && Val(f.base, s + [c]) % f.Radix() == Val(f.base, s)
  {
    hide Val, Pow;
    TopLimb(f.base, s, c);
  }

  lemma AddMulValue(b: nat, out: seq<nat>, before: seq<nat>, u: nat, s: seq<nat>)
    requires IsAddMul(b, out, before, u, s)
    ensures Val(b, out) == Val(b, before) + u * Val(b, s)
  {
  }

  lemma ModulusIs(f: Field)
    ensures f.Modulus() == Val(f.base, f.primelimbs)
  {
  }

  lemma ClearingDepends(f: Field, x: int, y: int)
    requires 1 <= f.base && Cong(x, y, f.base)
    ensures Clearing(f, x) == Clearing(f, y)
  {
  }

  lemma RowFor(f: Field, s: int, ai: nat, bv: int, top: nat, low: int, x: int, c1: nat, low1: int, u: nat, y: int)
    requires 1 <= f.base && f.primelimbs != [] && 1 <= f.Radix()
    requires s / f.Radix() == top && s % f.Radix() == low && x == low + ai * bv && u == Clearing(f, x)
    requires x / f.Radix() == c1 && x % f.Radix() == low1 && y == low1 + u * f.Modulus()
    ensures Row(f, s, ai, bv) == ShiftOut(f, Wrap(f.base, top + c1), y)
  {
    hide Field.Radix, Field.Modulus, Clearing, ShiftOut;
  }

  lemma ShiftIsWindow(f: Field, v: nat, low2: seq<nat>, c2: nat)
    requires 1 <= f.base && |low2| == |f.primelimbs| > 0 && 1 <= f.Radix() && Digits(f.base, low2)
    ensures var w := Wrap(f.base, v + c2);
            ShiftOut(f, v, Val(f.base, low2 + [c2])) == Val(f.base, low2[1..] + [w] + [if w < v then 1 else 0])
  {
    hide *;
    var b := f.base;
    var w := Wrap(b, v + c2);
    Reassemble(f, low2[1..], w, if w < v then 1 else 0);
    WindowParts(f, low2, c2);
    LowLimb(b, low2);
    ShiftOutIs(f, v, Val(b, low2 + [c2]), c2, Val(b, low2), Val(b, low2[1..]), w);
  }

  lemma ShiftOutIs(f: Field, v: nat, y: int, c2: nat, low: int, high: int, w: nat)
    requires 1 <= f.base && f.primelimbs != [] && 1 <= f.Radix()
    requires y / f.Radix() == c2 && y % f.Radix() == low && low / f.base == high && w == Wrap(f.base, v + c2)
    ensures ShiftOut(f, v, y) == high + w * Pow(f.base, |f.primelimbs| - 1) + (if w < v then f.Radix() else 0)
  {
    hide Field.Radix, Pow;
  }

  lemma Reassemble(f: Field, high: seq<nat>, w: nat, flag: nat)
    requires |high| + 1 == |f.primelimbs| && flag <= 1
    ensures Val(f.base, high + [w] + [flag])
            == Val(f.base, high) + w * Pow(f.base, |f.primelimbs| - 1) + (if flag == 1 then f.Radix() else 0)
  {
    hide Val, Pow;
    ValSnoc(f.base, high, w);
    ValSnoc(f.base, high + [w], flag);
    FlagTimes(flag, Pow(f.base, |f.primelimbs|));
  }

  lemma FlagTimes(flag: nat, r: int)
    requires flag <= 1
    ensures flag * r == if flag == 1 then r else 0
  {
  }

  /** The low limb of low + ai * bs comes from the low limbs alone. */
  lemma LowWord(b: nat, low: seq<nat>, ai: nat, bs: seq<nat>)
    requires 1 <= b && low != [] && bs != [] && Digits(b, low) && Digits(b, bs)
    ensures Cong(low[0] + ai * bs[0], Val(b, low) + ai * Val(b, bs), b)
  {
    LowLimb(b, low);
    LowLimb(b, bs);
    CongMod(Val(b, low), b);
    CongMod(Val(b, bs), b);
    CongMul(ai, ai, bs[0], Val(b, bs), b);
    CongAdd(low[0], Val(b, low), ai * bs[0], ai * Val(b, bs), b);
  }

  lemma ClearingIsWord(f: Field, x: int)
    requires 1 <= f.base
    ensures 0 <= Clearing(f, x) < f.base
  {
  }

  /** z[i ..] += s * u on |s| limbs, the carry added to the next limb with wrap-around. */
  method AddMulWrap(base: nat, z: array<nat>, i: nat, s: seq<nat>, u: nat) returns (ghost carry: nat)
    requires 2 <= base && u < base && i + |s| < z.Length && Digits(base, s) && Digits(base, z[..])
    modifies z
    ensures Digits(base, z[..]) && WrappedAddMul(base, old(z[..]), z[..], i, s, u, carry)
  {
    var t := |s|;
    hide Val, Pow, IsAddMul, Wrap;
    ghost var before := z[..];
    var c := AddMul1(base, z, i, s, u);
    ghost var middle := z[..];
    assert middle[i + t] == middle[i + t..][0] == before[i + t..][0];
    z[i + t] := Wrap(base, z[i + t] + c);
    assert z[..][i .. i + t] == middle[i .. i + t] && before[i .. i + t] == old(z[i .. i + t]);
    carry := c;
  }

  /** The limbs i .. i+|s| of `after` are those of `before` plus s * u, the carry wrapped into the next limb. */
  ghost predicate WrappedAddMul(base: nat, before: seq<nat>, after: seq<nat>, i: nat, s: seq<nat>, u: nat, carry: nat)
    requires 1 <= base && i + |s| < |before| == |after|
  {
    && IsAddMul(base, after[i .. i + |s|] + [carry], before[i .. i + |s|], u, s)
    && after[i + |s|] == Wrap(base, before[i + |s|] + carry)
  }

  /** The second half of a row: clear z[i] with `u` times the modulus, and note the overflow past z[t+i]. */
  method ClearLowLimb(f: Field, z: array<nat>, i: nat, u: nat) returns (ghost carry: nat, ghost middle: seq<nat>)
    requires 2 <= f.base && Digits(f.base, f.primelimbs) && u < f.base && i + |f.primelimbs| + 1 < z.Length
             && Digits(f.base, z[..])
    modifies z
    ensures Digits(f.base, z[..]) && |middle| == z.Length && Digits(f.base, middle)
    ensures WrappedAddMul(f.base, old(z[..]), middle, i, f.primelimbs, u, carry)
    ensures var k := i + |f.primelimbs|; z[..] == middle[k + 1 := if middle[k] < old(z[..])[k] then 1 else 0]
  {
    var k := i + |f.primelimbs|;
    var v := z[k];
    hide WrappedAddMul;
    carry := AddMulWrap(f.base, z, i, f.primelimbs, u);
    middle := z[..];
    z[k + 1] := if z[k] < v then 1 else 0;
  }

  /** The windows of one row. */
  lemma RowOfWindows(f: Field, i: nat, ai: nat, bs: seq<nat>, s0: seq<nat>, s1: seq<nat>, c1: nat, u: nat,
          s2: seq<nat>, c2: nat, s3: seq<nat>)
    requires 1 <= f.base && f.primelimbs != [] && 1 <= f.Radix() && |bs| == |f.primelimbs| && Digits(f.base, bs)
    requires i + |bs| + 1 < |s0| && |s1| == |s0| && |s2| == |s0| && Digits(f.base, s0) && Digits(f.base, s1)
             && Digits(f.base, s2)
    requires WrappedAddMul(f.base, s0, s1, i, bs, ai, c1) && WrappedAddMul(f.base, s1, s2, i, f.primelimbs, u, c2)
    requires u == Clearing(f, s0[i] + ai * bs[0])
    requires var k := i + |bs|; s3 == s2[k + 1 := if s2[k] < s1[k] then 1 else 0]
    ensures Val(f.base, s3[i + 1 .. i + |bs| + 2]) == Row(f, Val(f.base, s0[i .. i + |bs| + 1]), ai, Val(f.base, bs))
  {
    hide *;
    var k := i + |bs|;
    Unwrapped(f.base, s0, s1, i, k, bs, ai, c1);
    Unwrapped(f.base, s1, s2, i, k, f.primelimbs, u, c2);
    WindowDigits(f.base, s0, s1, s2, i, k);
    WindowSlices(s0, i, k);
    WindowAfter(s2, i, k, if s2[k] < s1[k] then 1 else 0);
    RowOnLimbs(f, s0[i .. k], s0[k], ai, bs, s1[i .. k], c1, u, s2[i .. k], c2);
  }

  lemma Unwrapped(b: nat, before: seq<nat>, after: seq<nat>, i: nat, k: nat, s: seq<nat>, u: nat, carry: nat)
    requires 1 <= b && k == i + |s| < |before| == |after| && WrappedAddMul(b, before, after, i, s, u, carry)
    ensures IsAddMul(b, after[i .. k] + [carry], before[i .. k], u, s)
    ensures after[k] == Wrap(b, before[k] + carry)
  {
  }

  lemma WindowDigits(b: nat, s0: seq<nat>, s1: seq<nat>, s2: seq<nat>, i: nat, k: nat)
    requires i <= k <= |s0| == |s1| == |s2| && Digits(b, s0) && Digits(b, s1) && Digits(b, s2)
    ensures Digits(b, s0[i .. k]) && Digits(b, s1[i .. k]) && Digits(b, s2[i .. k])
  {
  }

  lemma WindowSlices(s: seq<nat>, i: nat, k: nat)
    requires i < k < |s|
    ensures s[i .. k + 1] == s[i .. k] + [s[k]] && s[i .. k][0] == s[i]
  {
  }

  lemma WindowAfter(s: seq<nat>, i: nat, k: nat, x: nat)
    requires i < k && k + 1 < |s|
    ensures s[k + 1 := x][i + 1 .. k + 2] == s[i .. k][1..] + [s[k]] + [x]
  {
  }

  /** The multiplier u = (z[i] + a[i] * b[0]) * negpinv, in wrapping words. */
  method Multiplier(f: Field, zi: nat, ai: nat, b0: nat) returns (u: nat)
    requires 1 <= f.base
    ensures u < f.base && u == Clearing(f, zi + ai * b0)
  {
    ClearingIsWord(f, zi + ai * b0);
    u := Clearing(f, zi + ai * b0);
  }

  /** Row i > 0 of mont_mul. */
  method AddRow(f: Field, z: array<nat>, i: nat, ai: nat, bs: seq<nat>)
    requires f.Valid() && 1 <= f.Radix() && |bs| == |f.primelimbs| && i + |bs| + 1 < z.Length
    requires ai < f.base && Digits(f.base, bs) && Digits(f.base, z[..])
    modifies z
    ensures Digits(f.base, z[..])
    ensures Val(f.base, z[i + 1 .. i + |bs| + 2]) == Row(f, old(Val(f.base, z[i .. i + |bs| + 1])), ai, Val(f.base, bs))
  {
    assert 2 <= f.base && Digits(f.base, f.primelimbs);
    hide Val, Pow, Row, Clearing, WrappedAddMul, Field.Radix, Field.Modulus, Field.Valid;
    ghost var s0 := z[..];
    var u := Multiplier(f, z[i], ai, bs[0]);
    ghost var c1 := AddMulWrap(f.base, z, i, bs, ai);
    ghost var s1 := z[..];
    ghost var c2, s2 := ClearLowLimb(f, z, i, u);
    RowOfWindows(f, i, ai, bs, s0, s1, c1, u, s2, c2, z[..]);
    assert z[i + 1 .. i + |bs| + 2] == z[..][i + 1 .. i + |bs| + 2];
    assert s0[i .. i + |bs| + 1] == old(z[i .. i + |bs| + 1]);
  }

  /** The rows of `mont_mul`, each leaving its window one limb further up. */
  method AllRows(f: Field, z: array<nat>, xs: seq<nat>, ys: seq<nat>)
    requires f.Valid() && 1 <= f.Radix() && |xs| == |ys| == |f.primelimbs| && z.Length == 2 * |xs| + 1
    requires Digits(f.base, xs) && Digits(f.base, ys) && Digits(f.base, z[..])
    modifies z
    ensures Digits(f.base, z[..])
    ensures Val(f.base, z[|xs| .. 2 * |xs| + 1]) == Rows(f, xs, Val(f.base, ys))
  {
    assert 3 <= f.base && 0 < |f.primelimbs|;
    hide Val, Pow, Row, Rows, Field.Radix, Field.Modulus, Field.Valid;
    var t := |xs|;
    FirstRow(f, z, xs[0], ys);
    FirstRowFromZero(f, xs, ys);
    for i := 1 to t
      invariant Digits(f.base, z[..])
      invariant Val(f.base, z[i .. i + t + 1]) == Rows(f, xs[..i], Val(f.base, ys))
    {
      AddRow(f, z, i, xs[i], ys);
      RowsSnoc(f, xs, i, Val(f.base, ys));
    }
    assert xs[..t] == xs;
  }

  /** `mont_mul`: c may be one of the operands. */
  method MontMulInto(f: Field, c: array<nat>, a: array<nat>, b: array<nat>)
    requires f.Valid() && c.Length == a.Length == b.Length == |f.primelimbs|
    requires Digits(f.base, a[..]) && Digits(f.base, b[..])
    modifies c
    ensures 1 <= f.Radix() && Digits(f.base, c[..])
    ensures Val(f.base, c[..]) == MontMul(f, old(a[..]), Val(f.base, old(b[..])))
  {
    assert 1 <= f.Radix() by { RadixFacts(f); }
    assert 3 <= f.base && 0 < |f.primelimbs|;
    hide Val, Pow, Row, Rows, Finish, Field.Radix, Field.Modulus, Field.Valid, Cong;
    var t := |f.primelimbs|;
    var z := new nat[2 * t + 1](_ => 0);
    AllRows(f, z, a[..], b[..]);
    var low, top := LastWindow(z, t);
    CopyInto(c, f, low, top);
  }

  method LastWindow(z: array<nat>, t: nat) returns (low: seq<nat>, top: nat)
    requires z.Length == 2 * t + 1
    ensures low == z[t .. 2 * t] && z[t .. t + t + 1] == low + [top]
  {
    low, top := z[t .. 2 * t], z[2 * t];
  }

  /** The end of `mont_mul` and `mont_reduce`: the window, less the modulus if need be, goes to the result. */
  method CopyInto(c: array<nat>, f: Field, low: seq<nat>, top: nat)
    requires f.Valid() && 1 <= f.Radix() && |low| == |f.primelimbs| == c.Length && Digits(f.base, low)
    modifies c
    ensures Digits(f.base, c[..]) && Val(f.base, c[..]) == Finish(f, Val(f.base, low + [top]))
  {
    var r := Subtract(f, low, top);
    forall k | 0 <= k < c.Length { c[k] := r[k]; }
    assert c[..] == r;
  }

  lemma RowsSnoc(f: Field, xs: seq<nat>, i: nat, bv: int)
    requires 1 <= f.base && f.primelimbs != [] && 1 <= f.Radix() && i < |xs|
    ensures Rows(f, xs[..i + 1], bv) == Row(f, Rows(f, xs[..i], bv), xs[i], bv)
  {
    assert xs[..i + 1][..i] == xs[..i];
  }

  /** The conditional subtraction of the modulus from `low` with the overflow limb `top`. */
  method Subtract(f: Field, low: seq<nat>, top: nat) returns (r: seq<nat>)
    requires f.Valid() && 1 <= f.Radix() && |low| == |f.primelimbs| && Digits(f.base, low)
    ensures |r| == |low| && Digits(f.base, r) && Val(f.base, r) == Finish(f, Val(f.base, low + [top]))
  {
    TopLimb(f.base, low, top);
    ValBound(f.base, low);
    var atLeast := AtLeast(f.base, low, f.primelimbs);
    r := low;
    if top != 0 || atLeast {
      r := SubN(f.base, low, f.primelimbs);
      ValBound(f.base, r);
      WrappedDifference(Val(f.base, r), Val(f.base, low) - f.Modulus(), f.Radix());
    }
  }

  lemma WrappedDifference(x: int, d: int, r: int)
    requires 0 <= x < r && (x == d || x == d + r)
    ensures x == d % r
  {
    DivModUnique(d, r, if x == d then 0 else -1, x);
  }

  /** Row 0, which fills the window instead of adding to it. */
  method FirstRow(f: Field, z: array<nat>, a0: nat, bs: seq<nat>)
    requires f.Valid() && 1 <= f.Radix() && |bs| == |f.primelimbs| && |bs| + 1 < z.Length
    requires a0 < f.base && Digits(f.base, bs) && Digits(f.base, z[..])
    modifies z
    ensures Digits(f.base, z[..])
    ensures Val(f.base, z[1 .. |bs| + 2]) == Row(f, 0, a0, Val(f.base, bs))
  {
    var t := |bs|;
    ghost var s0: seq<nat> := seq(z.Length, _ => 0);
    assert 2 <= f.base && Digits(f.base, f.primelimbs) && Digits(f.base, s0);
    ZeroVal(f.base, s0[0 .. t]);
    ZeroVal(f.base, s0[0 .. t + 1]);
    var u := Multiplier(f, 0, a0, bs[0]);
    var c1 := Mul1(f.base, z, bs, a0);
    ghost var low1 := z[..t];
    z[t] := c1;
    ghost var s1 := z[..];
    assert s1[0 .. t] == low1;
    FreshRow(f.base, s0, s1, bs, a0, c1);
    hide Val, Pow, Row, Clearing, WrappedAddMul, Field.Radix, Field.Modulus, Field.Valid;
    ghost var c2, s2 := ClearLowLimb(f, z, 0, u);
    RowOfWindows(f, 0, a0, bs, s0, s1, c1, u, s2, c2, z[..]);
    assert z[1 .. |bs| + 2] == z[..][1 .. |bs| + 2];
  }

  /** Filling the window is adding to a cleared one. */
  lemma FreshRow(base: nat, s0: seq<nat>, s1: seq<nat>, bs: seq<nat>, a0: nat, c1: nat)
    requires 1 <= base && c1 < base && |bs| < |s0| && |s1| == |s0| && (forall k :: 0 <= k < |s0| ==> s0[k] == 0)
    requires Val(base, s1[0 .. |bs|] + [c1]) == a0 * Val(base, bs) && s1[|bs|] == c1
    ensures WrappedAddMul(base, s0, s1, 0, bs, a0, c1)
  {
    ZeroVal(base, s0[0 .. |bs|]);
    NoTop(c1, base);
  }

  lemma NoTop(c: nat, b: nat)
    requires c < b
    ensures Wrap(b, 0 + c) == c
  {
  }

  lemma FirstRowFromZero(f: Field, xs: seq<nat>, ys: seq<nat>)
    requires f.Valid() && 1 <= f.Radix() && xs != []
    ensures Rows(f, xs[..1], Val(f.base, ys)) == Row(f, 0, xs[0], Val(f.base, ys))
  {
    assert xs[..1] == [xs[0]] && xs[..1][..0] == [];
  }
}
