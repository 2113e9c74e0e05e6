// Correctness of Montgomery multiplication: exactly when no carry is lost.
module MontgomeryTheorems {
  import opened Arithmetic
  import opened Limbs
  import opened PrimeFields
  import opened Montgomery

  /** One row: the exact equation, the bound p + bv on the running value, and when its carry can be lost. */
  lemma RowStep(f: Field, s: int, ai: int, bv: int) returns (u: int)
    requires f.Valid() && 1 <= f.Radix() && 0 <= ai < f.base && 0 <= bv < f.Modulus() && 0 <= s < f.Modulus() + bv
    ensures f.base * Row(f, s, ai, bv) + LostCarry(f, s, ai, bv) * (f.base * f.Radix()) == s + ai * bv + u * f.Modulus()
    ensures 0 <= Row(f, s, ai, bv) < f.Modulus() + bv
    ensures 0 <= LostCarry(f, s, ai, bv) <= 1
    ensures s + ai * bv < f.base * f.Radix() <==> LostCarry(f, s, ai, bv) == 0
    ensures 0 <= u < f.base
  {
    RadixFacts(f);
    var b, r, p, w0 := f.base, f.Radix(), f.Modulus(), Pow(f.base, |f.primelimbs| - 1);
    var x := s % r + ai * bv;
    u := Clearing(f, x);
    var sum := s / r + x / r;
    var v, lost := sum % b, LostCarry(f, s, ai, bv);
    var y := x % r + u * p;
    var w := (v + y / r) % b;
    DivMod(sum, b);
    RowExact(b, w0, p, f.negpinv, s, ai, bv, x, u, v, lost, y, w, r);
    RowBounds(b, w0, p, s, ai, bv, x, u, y, r);
    var t := Row(f, s, ai, bv);
    assert b * t + lost * (b * r) == s + ai * bv + u * p;
    LostBounds(b, r, s, ai * bv, x, sum, lost);
    RowRange(b, p, bv, s, ai, u, t, lost, r);
    RowNonNegative(y, r, b, w, w0, v);
  }

  lemma LostBounds(b: int, r: int, s: int, ab: int, x: int, sum: int, lost: int)
    requires 2 <= b && 0 < r && 0 <= s < 2 * r && x == s % r + ab && 0 <= x / r < b && sum == s / r + x / r
             && lost == sum / b
    ensures 0 <= lost <= 1 && (s + ab < b * r <==> lost == 0)
  {
    QuotientRange(s, r, 2);
    QuotientRange(sum, b, 2);
    SumInRange(r, s, ab, x, sum);
    SumBelowBase(b, r, s + ab, sum);
    DigitQuotient(sum, b);
  }

  lemma SumInRange(r: int, s: int, ab: int, x: int, sum: int)
    requires 0 < r && x == s % r + ab && sum == s / r + x / r
    ensures r * sum <= s + ab < r * sum + r
  {
    DivMod(s, r);
    DivMod(x, r);
    assert r * (s / r + x / r) == r * (s / r) + r * (x / r);
  }

  lemma SumBelowBase(b: int, r: int, total: int, sum: int)
    requires 0 < r && r * sum <= total < r * sum + r
    ensures total < b * r <==> sum < b
  {
    if sum < b { MulMonotone(r, sum, b - 1); } else { MulMonotone(r, b, sum); }
  }

  lemma DigitQuotient(x: int, b: int)
    requires 0 < b && 0 <= x
    ensures x < b <==> x / b == 0
  {
    if x < b { DivModUnique(x, b, 0, x); } else { DivMod(x, b); }
  }

  /** The running value stays below p + bv. */
  lemma RowRange(b: int, p: int, bv: int, s: int, ai: int, u: int, t: int, lost: int, r: int)
    requires 2 <= b && 0 < r && 0 <= lost && 0 <= ai < b && 0 <= u < b && 0 <= bv < p && s < p + bv
    requires b * t + lost * (b * r) == s + ai * bv + u * p
    ensures t < p + bv
  {
    assert lost * (b * r) >= 0;
    MulMonotone(bv, ai, b - 1);
    MulMonotone(p, u, b - 1);
    BelowSum(b, p, bv, t);
  }

  lemma BelowSum(b: int, p: int, bv: int, t: int)
    requires 2 <= b
    ensures bv * (b - 1) == b * bv - bv && p * (b - 1) == b * p - p
    ensures b * t < b * p + b * bv ==> t < p + bv
  {
    if t >= p + bv { MulMonotone(b, p + bv, t); }
  }

  lemma RowNonNegative(y: int, r: int, b: int, w: int, w0: int, v: int)
    requires 0 < r && 0 < b && 0 <= w && 0 <= w0
    ensures 0 <= y % r / b + w * w0 + (if w < v then r else 0)
  {
    assert 0 <= w * w0;
  }

  /** All rows together: R's share of the window, plus what was lost, is a * bv plus a multiple of the modulus. */
  lemma {:induction false} RowsTelescope(f: Field, a: seq<nat>, bv: int) returns (m: int)
    requires f.Valid() && 1 <= f.Radix() && Digits(f.base, a) && 0 <= bv < f.Modulus()
    ensures Pow(f.base, |a|) * Rows(f, a, bv) + LostCarries(f, a, bv) * (f.base * f.Radix())
            == Val(f.base, a) * bv + m * f.Modulus()
    ensures 0 <= Rows(f, a, bv) < f.Modulus() + bv
    ensures 0 <= LostCarries(f, a, bv) && LostCarries(f, a, bv) * (f.base - 1) < Pow(f.base, |a|)
    ensures 0 <= m < Pow(f.base, |a|)
  {
    if a == [] {
      RadixFacts(f);
      m := 0;
    } else {
      var k := |a| - 1;
      var m0 := RowsTelescope(f, a[..k], bv);
      var s := Rows(f, a[..k], bv);
      var u := RowStep(f, s, a[k], bv);
      m := m0 + Pow(f.base, k) * u;
      DigitOnTop(f.base, Pow(f.base, k), m0, u);
      assert Val(f.base, a) == Val(f.base, a[..k]) + a[k] * Pow(f.base, k);
      assert Rows(f, a, bv) == Row(f, s, a[k], bv);
      assert LostCarries(f, a, bv) == LostCarries(f, a[..k], bv) + LostCarry(f, s, a[k], bv) * Pow(f.base, k);
      PowPositive(f.base, k);
      PowSucc(f.base, k);
      var p, r := f.Modulus(), f.Radix();
      hide *;
      TelescopeStep(f.base, Pow(f.base, k), s, Row(f, s, a[k], bv), LostCarries(f, a[..k], bv),
                    LostCarry(f, s, a[k], bv),
                    r, Val(f.base, a[..k]), a[k], bv, m0, u, p);
    }
  }

  lemma DigitOnTop(b: int, w: int, m: int, u: int)
    requires 0 <= m < w && 0 <= u < b
    ensures 0 <= m + w * u < b * w
  {
    MulMonotone(w, u, b - 1);
    assert w * u >= 0;
  }

  lemma TelescopeStep(b: int, w: int, s: int, t: int, losts: int, lost: int, r: int, av: int, ai: int, bv: int,
          m: int, u: int, p: int)
    requires w * s + losts * (b * r) == av * bv + m * p && b * t + lost * (b * r) == s + ai * bv + u * p
    requires 2 <= b && 0 <= losts && 0 <= lost <= 1 && 1 <= w && losts * (b - 1) < w
    ensures b * w * t + (losts + lost * w) * (b * r) == (av + ai * w) * bv + (m + w * u) * p
    ensures 0 <= losts + lost * w && (losts + lost * w) * (b - 1) < b * w
  {
    Scaled(w, b, t, lost, b * r, s, ai * bv, u, p);
    SumOfMultiples(losts, lost * w, b * r);
    SumOfMultiples(av, ai * w, bv);
    SumOfMultiples(m, w * u, p);
    TurnProducts(w, ai, bv, u, p);
    LostBound(losts, lost, w, b);
  }

  lemma TurnProducts(w: int, ai: int, bv: int, u: int, p: int)
    ensures (ai * w) * bv == w * (ai * bv) && (w * u) * p == w * (u * p)
  {
  }

  lemma Scaled(w: int, b: int, t: int, lost: int, br: int, s: int, ab: int, u: int, p: int)
    requires b * t + lost * br == s + ab + u * p
    ensures b * w * t + (lost * w) * br == w * s + w * ab + w * (u * p)
  {
    assert w * (b * t + lost * br) == w * (s + ab + u * p);
    assert w * (b * t) == b * w * t && w * (lost * br) == (lost * w) * br;
  }

  lemma LostBound(losts: int, lost: int, w: int, b: int)
    requires 2 <= b && 0 <= losts && 0 <= lost <= 1 && 1 <= w && losts * (b - 1) < w
    ensures 0 <= losts + lost * w && (losts + lost * w) * (b - 1) < b * w
  {
    if lost == 0 {
      MulMonotone(w, 1, b);
    } else {
      assert (losts + w) * (b - 1) == losts * (b - 1) + w * b - w;
    }
  }

  // ---------------------------------------------------------------- when no carry is lost

  /** Enough room above the modulus: no row loses a carry. */
  lemma {:induction false} RoomForCarries(f: Field, a: seq<nat>, bv: int)
    requires f.Valid() && 1 <= f.Radix() && Digits(f.base, a) && 0 <= bv < f.Modulus()
    requires f.Modulus() + f.base * bv <= f.base * f.Radix()
    ensures LostCarries(f, a, bv) == 0
  {
    if a != [] {
      var k := |a| - 1;
      RoomForCarries(f, a[..k], bv);
      var m := RowsTelescope(f, a[..k], bv);
      var s := Rows(f, a[..k], bv);
      assert s + a[k] * bv < f.base * f.Radix() by { DigitRoom(f.base, f.Modulus(), a[k], bv, s, f.Radix()); }
      var u := RowStep(f, s, a[k], bv);
    }
  }

  lemma DigitRoom(b: int, p: int, d: int, bv: int, s: int, r: int)
    requires 0 <= d < b && 0 <= bv && s < p + bv && p + b * bv <= b * r
    ensures s + d * bv < b * r
  {
    MulMonotone(bv, d, b - 1);
  }

  /** A modulus whose top limb is not all ones always leaves that room. */
  lemma TopLimbLeavesRoom(f: Field, bv: int)
    requires f.Valid() && 0 <= bv < f.Modulus()
    requires f.primelimbs[|f.primelimbs| - 1] != f.base - 1
    ensures f.Modulus() + f.base * bv <= f.base * f.Radix()
  {
    var t, b := |f.primelimbs|, f.base;
    RadixFacts(f);
    var low, top, w0 := f.primelimbs[..t - 1], f.primelimbs[t - 1], Pow(b, t - 1);
    assert low + [top] == f.primelimbs;
    ValSnoc(b, low, top);
    ValBound(b, low);
    TopRoom(b, w0, Val(b, low), top, f.Modulus(), bv, f.Radix());
  }

  lemma TopRoom(b: int, w0: int, low: int, top: int, p: int, bv: int, r: int)
    requires 2 <= b && 1 <= w0 && low < w0 && 0 <= top < b - 1 && p == low + top * w0 && bv < p && r == b * w0
    ensures p + b * bv <= b * r
  {
    assert p < (b - 1) * w0 by {
      MulMonotone(w0, top, b - 2);
      assert w0 * (b - 2) == (b - 1) * w0 - w0;
    }
    assert p + b * bv <= (b + 1) * p by { MulMonotone(b, bv, p); }
    MulMonotone(b + 1, p, (b - 1) * w0);
    SquareRoom(b, w0);
  }

  lemma SquareRoom(b: int, w0: int)
    requires 1 <= w0
    ensures (b + 1) * ((b - 1) * w0) <= b * (b * w0)
  {
    assert (b + 1) * ((b - 1) * w0) == b * (b * w0) - w0;
  }

  /** The weights of the lost carries add up to less than the modulus. */
  lemma LostBelowModulus(f: Field, a: seq<nat>, bv: int)
    requires f.Valid() && 1 <= f.Radix() && |a| == |f.primelimbs| && Digits(f.base, a) && 0 <= bv < f.Modulus()
    ensures 0 <= LostCarries(f, a, bv) < f.Modulus()
  {
    if f.Modulus() + f.base * bv <= f.base * f.Radix() {
      RoomForCarries(f, a, bv);
    } else {
      var m := RowsTelescope(f, a, bv);
      var lost, b, p, r := LostCarries(f, a, bv), f.base, f.Modulus(), f.Radix();
      LostSmall(b, r, p, bv, lost);
    }
  }

  lemma LostSmall(b: int, r: int, p: int, bv: int, lost: int)
    requires 3 <= b && 0 < p && bv < p && b * r < p + b * bv && lost * (b - 1) < r
    ensures lost < p
  {
    if p <= lost {
      MulMonotone(b - 1, p, lost);
      var x := b * p;
      MulMonotone(b, x - p + 1, r);
      Expand(b, x, p);
      MulMonotone(x, 3, b);
      MulMonotone(b, bv, p - 1);
    }
  }

  lemma Expand(b: int, x: int, p: int)
    ensures b * (x - p + 1) == x * b - b * p + b && b * (p - 1) == b * p - b && (b - 1) * p == b * p - p
  {
  }

  // ---------------------------------------------------------------- main theorem

  lemma FinishReduces(f: Field, s: int)
    requires f.Valid() && 1 <= f.Radix() && 0 <= s < f.Radix() + f.Modulus()
    ensures Finish(f, s) == s || Finish(f, s) == s - f.Modulus()
    ensures 0 <= Finish(f, s) && (s < 2 * f.Modulus() ==> Finish(f, s) < f.Modulus())
  {
    RadixFacts(f);
    var r, p := f.Radix(), f.Modulus();
    if s < r {
      DivModUnique(s, r, 0, s);
      if p <= s { DivModUnique(s - p, r, 0, s - p); }
    } else {
      DivModUnique(s, r, 1, s - r);
      DivModUnique(s - r - p, r, -1, s - p);
    }
  }

  /** The base is a unit modulo p. */
  lemma CancelBase(f: Field, x: int)
    requires f.Valid() && 1 <= f.Modulus() && Cong(f.base * x, 0, f.Modulus())
    ensures Cong(x, 0, f.Modulus())
  {
    var p, b, neg := f.Modulus(), f.base, f.negpinv;
    var k := CongGap(neg * p + 1, 0, b);
    CongMul(k, k, b * x, 0, p);
    CongFrom(k * (b * x), x, p, neg * x) by { UnitTimes(neg, p, k, b, x); }
  }

  lemma UnitTimes(neg: int, p: int, k: int, b: int, x: int)
    requires neg * p + 1 == 0 + k * b
    ensures k * (b * x) == x + neg * x * p
  {
    assert (neg * p + 1) * x == (k * b) * x;
  }

  lemma {:induction false} CancelPow(f: Field, k: nat, x: int)
    requires f.Valid() && 1 <= f.Modulus() && Cong(Pow(f.base, k) * x, 0, f.Modulus())
    ensures Cong(x, 0, f.Modulus())
  {
    if k > 0 {
      assert Pow(f.base, k) * x == f.base * (Pow(f.base, k - 1) * x);
      CancelBase(f, Pow(f.base, k - 1) * x);
      CancelPow(f, k - 1, x);
    }
  }

  /** mont_mul always returns a residue below p, and it is the product of the operands divided by R exactly when no
      row lost a carry. */
  lemma MontMulCorrectIff(f: Field, a: seq<nat>, bv: int)
    requires f.Valid() && 1 <= f.Radix() && |a| == |f.primelimbs| && Digits(f.base, a) && 0 <= bv < f.Modulus()
    ensures 0 <= MontMul(f, a, bv) < f.Modulus()
    ensures Cong(MontMul(f, a, bv) * f.Radix(), Val(f.base, a) * bv, f.Modulus()) <==> LostCarries(f, a, bv) == 0
  {
    RadixFacts(f);
    var m := RowsTelescope(f, a, bv);
    var s, c, lost := Rows(f, a, bv), MontMul(f, a, bv), LostCarries(f, a, bv);
    var r, p, b, ab := f.Radix(), f.Modulus(), f.base, Val(f.base, a) * bv;
    FinishReduces(f, s);
    LostBelowModulus(f, a, bv);
    var d := if c == s then 0 else 1;
    ResultEquation(r, s, c, lost, b, ab, m, p, d);
    CongruentIffNothingLost(f, c, ab, m - d * r, lost);
  }

  lemma CongruentIffNothingLost(f: Field, c: int, ab: int, m: int, lost: int)
    requires f.Valid() && 1 <= f.Radix() && 0 <= lost < f.Modulus()
    requires c * f.Radix() == ab + m * f.Modulus() - f.Radix() * (f.base * lost)
    ensures Cong(c * f.Radix(), ab, f.Modulus()) <==> lost == 0
  {
    var r, p := f.Radix(), f.Modulus();
    if lost == 0 {
      CongFrom(c * r, ab, p, m);
    }
    if Cong(c * r, ab, p) {
      var k := CongGap(c * r, ab, p);
      SumOfMultiples(m, k, p);
      CongFrom(r * (f.base * lost), 0, p, m - k);
      CancelPow(f, |f.primelimbs|, f.base * lost);
      CancelBase(f, lost);
      ResidueUnique(lost, 0, p);
    }
  }

  lemma ResultEquation(r: int, s: int, c: int, lost: int, b: int, ab: int, m: int, p: int, d: int)
    requires r * s + lost * (b * r) == ab + m * p && c == s - d * p
    ensures c * r == ab + (m - d * r) * p - r * (b * lost)
  {
    assert c * r == r * s - (d * r) * p;
    assert lost * (b * r) == r * (b * lost);
  }

  // ---------------------------------------------------------------- the condition before the call

  /** The multiple of the modulus that the rows for the limbs a add as long as nothing is lost; inv is -1/p modulo R. */
  function AddedMultiple(f: Field, a: seq<nat>, bv: int, inv: int): int
    requires f.Valid()
  {
    PowPositive(f.base, |a|);
    Val(f.base, a) * bv * inv % Pow(f.base, |a|)
  }

  /** Row i does not overflow if all rows before it were exact. */
  predicate Fits(f: Field, a: seq<nat>, bv: int, inv: int, i: nat)
    requires f.Valid() && i < |a|
  {
    Val(f.base, a[..i + 1]) * bv + AddedMultiple(f, a[..i], bv, inv) * f.Modulus() < Pow(f.base, i + 1) * f.Radix()
  }

  lemma InverseBelow(f: Field, inv: int, k: nat)
    requires f.Valid() && 1 <= f.Radix() && Cong(inv * f.Modulus() + 1, 0, f.Radix()) && k <= |f.primelimbs|
    ensures 1 <= Pow(f.base, k) && Cong(inv * f.Modulus() + 1, 0, Pow(f.base, k))
  {
    var t := |f.primelimbs|;
    PowPositive(f.base, k);
    PowAdd(f.base, k, t - k);
    RadixIs(f);
    hide *;
    CongDivisor(inv * f.Modulus() + 1, Pow(f.base, k), Pow(f.base, t - k), f.Radix());
  }

  lemma RadixIs(f: Field)
    ensures f.Radix() == Pow(f.base, |f.primelimbs|)
  {
  }

  lemma CongDivisor(x: int, w: nat, v: nat, r: nat)
    requires 1 <= w && 1 <= r && r == w * v && Cong(x, 0, r)
    ensures Cong(x, 0, w)
  {
    var g := CongGap(x, 0, r);
    assert g * (w * v) == (g * v) * w;
    CongFrom(x, 0, w, g * v);
  }

  /** There is only one such multiple. */
  lemma MultipleUnique(w: nat, p: int, inv: int, ab: int, m: int, s: int)
    requires 1 <= w && Cong(inv * p + 1, 0, w) && 0 <= m < w && w * s == ab + m * p
    ensures m == ab * inv % w
  {
    hide Cong;
    CongMul(inv * p + 1, 0, m, m, w);
    Rearranged(w, p, inv, ab, m, s);
    CongFrom(ab * inv - m + (inv * p + 1) * m, 0, w, s * inv);
    Subtracted(ab * inv, m, (inv * p + 1) * m, w);
  }

  lemma Rearranged(w: int, p: int, inv: int, ab: int, m: int, s: int)
    requires w * s == ab + m * p
    ensures ab * inv - m + (inv * p + 1) * m == 0 + s * inv * w
  {
    assert (ab + m * p) * inv == ab * inv + (inv * p) * m;
    assert (inv * p + 1) * m == (inv * p) * m + m;
    assert (w * s) * inv == s * inv * w;
  }

  lemma Subtracted(x: int, m: int, d: int, w: nat)
    requires 1 <= w && 0 <= m < w && Cong(x - m + d, 0, w) && Cong(d, 0, w)
    ensures m == x % w
  {
    CongAdd(x - m + d, 0, d, 0, w);
    CongAdd(x - m + d - d, 0, m, m, w);
    DivModUnique(m, w, 0, m);
  }

  /** Whether the last row fits, in terms of its running value. */
  lemma {:induction false} LastFits(f: Field, a: seq<nat>, bv: int, inv: int)
    requires f.Valid() && 1 <= f.Radix() && a != [] && |a| <= |f.primelimbs| && Digits(f.base, a)
             && 0 <= bv < f.Modulus() && Cong(inv * f.Modulus() + 1, 0, f.Radix())
    requires LostCarries(f, a[..|a| - 1], bv) == 0
    ensures var k := |a| - 1;
            Fits(f, a, bv, inv, k) <==> Rows(f, a[..k], bv) + a[k] * bv < f.base * f.Radix()
  {
    var k := |a| - 1;
    var w, s, r, p := Pow(f.base, k), Rows(f, a[..k], bv), f.Radix(), f.Modulus();
    var m := RowsTelescope(f, a[..k], bv);
    InverseBelow(f, inv, k);
    assert a[..k + 1] == a == a[..k] + [a[k]];
    ValSnoc(f.base, a[..k], a[k]);
    PowSucc(f.base, k);
    hide *;
    NothingAdded(w, s, f.base * r, Val(f.base, a[..k]) * bv, m * p);
    MultipleUnique(w, p, inv, Val(f.base, a[..k]) * bv, m, s);
    LastRowScaled(f.base, w, s, Val(f.base, a[..k]), a[k], bv, m, p, r);
    FitsIs(f, a, bv, inv, k);
  }

  lemma NothingAdded(w: int, s: int, br: int, ab: int, mp: int)
    requires w * s + 0 * br == ab + mp
    ensures w * s == ab + mp
  {
  }

  lemma FitsIs(f: Field, a: seq<nat>, bv: int, inv: int, k: nat)
    requires f.Valid() && k < |a|
    ensures 1 <= Pow(f.base, k) && |a[..k]| == k
    ensures Fits(f, a, bv, inv, k)
            <==> Val(f.base, a[..k + 1]) * bv + Val(f.base, a[..k]) * bv * inv % Pow(f.base, k) * f.Modulus()
                 < Pow(f.base, k + 1) * f.Radix()
  {
    PowPositive(f.base, k);
  }

  lemma LastRowScaled(b: int, w: int, s: int, av: int, d: int, bv: int, m: int, p: int, r: int)
    requires 1 <= w && w * s == av * bv + m * p
    ensures (av + d * w) * bv + m * p < b * w * r <==> s + d * bv < b * r
  {
    assert (av + d * w) * bv + m * p == w * (s + d * bv);
    assert b * w * r == w * (b * r);
    if s + d * bv >= b * r { MulMonotone(w, b * r, s + d * bv); }
  }

  /** No carry is lost exactly when every row fits, which the operands and the modulus tell before the call. */
  lemma {:induction false} NothingLostIff(f: Field, a: seq<nat>, bv: int, inv: int)
    requires f.Valid() && 1 <= f.Radix() && |a| <= |f.primelimbs| && Digits(f.base, a) && 0 <= bv < f.Modulus()
    requires Cong(inv * f.Modulus() + 1, 0, f.Radix())
    ensures LostCarries(f, a, bv) == 0 <==> forall i :: 0 <= i < |a| ==> Fits(f, a, bv, inv, i)
  {
    if a != [] {
      var k := |a| - 1;
      NothingLostIff(f, a[..k], bv, inv);
      var m := RowsTelescope(f, a[..k], bv);
      var u := RowStep(f, Rows(f, a[..k], bv), a[k], bv);
      PowPositive(f.base, k);
      if LostCarries(f, a[..k], bv) == 0 { LastFits(f, a, bv, inv); }
      FitsPrefix(f, a, bv, inv, k);
      BothZero(LostCarries(f, a[..k], bv), LostCarry(f, Rows(f, a[..k], bv), a[k], bv), Pow(f.base, k));
    }
  }

  lemma FitsPrefix(f: Field, a: seq<nat>, bv: int, inv: int, k: nat)
    requires f.Valid() && k <= |a|
    ensures forall i :: 0 <= i < k ==> (Fits(f, a[..k], bv, inv, i) <==> Fits(f, a, bv, inv, i))
  {
    forall i | 0 <= i < k ensures Fits(f, a[..k], bv, inv, i) <==> Fits(f, a, bv, inv, i) {
      assert a[..k][..i] == a[..i] && a[..k][..i + 1] == a[..i + 1];
    }
  }

  lemma BothZero(x: int, y: int, w: int)
    requires 0 <= x && 0 <= y && 1 <= w
    ensures x + y * w == 0 <==> x == 0 && y == 0
  {
    MulMonotone(y, 1, w);
  }

  /** The exact condition in terms of the operands alone: mont_mul is right exactly when every row fits. */
  lemma MontMulRightIff(f: Field, a: seq<nat>, bv: int, inv: int)
    requires f.Valid() && 1 <= f.Radix() && |a| == |f.primelimbs| && Digits(f.base, a) && 0 <= bv < f.Modulus()
    requires Cong(inv * f.Modulus() + 1, 0, f.Radix())
    ensures Cong(MontMul(f, a, bv) * f.Radix(), Val(f.base, a) * bv, f.Modulus())
            <==> forall i :: 0 <= i < |a| ==> Fits(f, a, bv, inv, i)
  {
    MontMulCorrectIff(f, a, bv);
    NothingLostIff(f, a, bv, inv);
  }

  /** For a one-limb modulus, and for every modulus whose top limb is not all ones, no carry is ever lost. */
  lemma NothingLost(f: Field, a: seq<nat>, bv: int)
    requires f.Valid() && 1 <= f.Radix() && |a| == |f.primelimbs| && Digits(f.base, a) && 0 <= bv < f.Modulus()
    requires |a| == 1 || f.primelimbs[|a| - 1] != f.base - 1
    ensures LostCarries(f, a, bv) == 0
  {
    if |a| == 1 {
      RadixFacts(f);
      assert a[..0] == [];
      FirstRow(f.base, a[0], bv, f.Radix());
      var u := RowStep(f, 0, a[0], bv);
    } else {
      TopLimbLeavesRoom(f, bv);
      RoomForCarries(f, a, bv);
    }
  }

  /** So there mont_mul is right on all residues. */
  lemma MontMulCorrect(f: Field, a: seq<nat>, bv: int)
    requires f.Valid() && 1 <= f.Radix() && |a| == |f.primelimbs| && Digits(f.base, a) && 0 <= bv < f.Modulus()
    requires |a| == 1 || f.primelimbs[|a| - 1] != f.base - 1
    ensures Cong(MontMul(f, a, bv) * f.Radix(), Val(f.base, a) * bv, f.Modulus())
  {
    NothingLost(f, a, bv);
    MontMulCorrectIff(f, a, bv);
  }

  lemma FirstRow(b: int, d: int, bv: int, r: int)
    requires 0 <= d < b && 0 <= bv < r
    ensures d * bv < b * r
  {
    DigitTimes(b, r, d, bv);
  }

  const BASE: nat := 0x1_0000_0000_0000_0000
  const RADIX: nat := 0x1_0000_0000_0000_0000_0000_0000_0000_0000

  /** The field of 2^128 - 159, a prime whose top 64-bit limb is all ones. */
  function NearPower(): Field { Field(BASE, [0xFFFF_FFFF_FFFF_FF61, 0xFFFF_FFFF_FFFF_FFFF], 0xb5efe63d2eb11b5f) }

  /** The residue -1 of that field. */
  function MinusOne(): seq<nat> { [0xFFFF_FFFF_FFFF_FF60, 0xFFFF_FFFF_FFFF_FFFF] }

  lemma NearPowerFacts()
    ensures NearPower().Valid() && NearPower().Modulus() == RADIX - 159 && NearPower().Radix() == RADIX
    ensures Val(BASE, MinusOne()) == RADIX - 160
  {
    TwoLimbs(BASE, NearPower().primelimbs);
    TwoLimbs(BASE, MinusOne());
    PowSucc(BASE, 1);
  }

  lemma FirstWindow(f: Field)
    requires f == NearPower() && f.Valid() && f.Radix() == RADIX && f.Modulus() == RADIX - 159 && Pow(BASE, 1) == BASE
    ensures Row(f, 0, 0xFFFF_FFFF_FFFF_FF60, RADIX - 160) == 0x1b5efe63d2eb11b5ffffffffffffffeef
  {
    hide Pow, Val;
    var x := 0xffffffffffffff60 * (RADIX - 160);
    assert x == 0xffffffffffffff5fffffffffffffff600000000000006400;
    assert x / RADIX == 0xffffffffffffff5f && x % RADIX == 0xffffffffffffff600000000000006400 && x % BASE == 0x6400;
    assert Clearing(f, x) == 0xb5efe63d2eb11c00;
    var y := 0xffffffffffffff600000000000006400 + 0xb5efe63d2eb11c00 * (RADIX - 159);
    assert y == 0xb5efe63d2eb11c00fffffffffffffeef0000000000000000;
    assert y / RADIX == 0xb5efe63d2eb11c00 && y % RADIX == 0xfffffffffffffeef0000000000000000;
    assert y % RADIX / BASE == 0xfffffffffffffeef;
  }

  /** There mont_mul loses a carry and squares -1 wrongly. */
  lemma CarryIsLost()
    ensures var f := NearPower();
            && f.Valid() && f.Modulus() == RADIX - 159 && 1 <= f.Radix() && Val(f.base, MinusOne()) == f.Modulus() - 1
            && !Cong(MontMul(f, MinusOne(), f.Modulus() - 1) * f.Radix(),
                     Val(f.base, MinusOne()) * (f.Modulus() - 1), f.Modulus())
  {
    var f, a, bv := NearPower(), MinusOne(), RADIX - 160;
    NearPowerFacts();
    assert Pow(BASE, 1) == BASE * Pow(BASE, 0);
    FirstWindow(f);
    assert a[..1] == [a[0]] && a[..1][..0] == [];
    assert Rows(f, a[..1], bv) == Row(f, Rows(f, [], bv), a[0], bv);
    LostInSecondRow(f);
    var m := RowsTelescope(f, a[..1], bv);
    assert LostCarries(f, a, bv) == LostCarries(f, a[..1], bv) + 1 * Pow(BASE, 1);
    MontMulCorrectIff(f, a, bv);
  }

  lemma LostInSecondRow(f: Field)
    requires f == NearPower() && f.Radix() == RADIX
    ensures LostCarry(f, 0x1b5efe63d2eb11b5ffffffffffffffeef, 0xFFFF_FFFF_FFFF_FFFF, RADIX - 160) == 1
  {
    hide Pow, Val;
    assert 0x1b5efe63d2eb11b5ffffffffffffffeef / RADIX == 1
      && 0x1b5efe63d2eb11b5ffffffffffffffeef % RADIX == 0xb5efe63d2eb11b5ffffffffffffffeef;
    var x := 0xb5efe63d2eb11b5ffffffffffffffeef + 0xFFFF_FFFF_FFFF_FFFF * (RADIX - 160);
    assert x / RADIX == 0xffffffffffffffff;
  }

  lemma TwoLimbs(b: nat, s: seq<nat>)
    requires |s| == 2
    ensures Val(b, s) == s[0] + s[1] * b
  {
    assert s[..1] == [s[0]] && s[..1][..0] == [];
    assert Pow(b, 0) == 1 && Pow(b, 1) == b;
    assert Val(b, [s[0]]) == s[0];
  }
}
