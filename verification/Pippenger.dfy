// Pippenger multi-scalar multiplication of pairing/src/lib.rs over an arbitrary commutative group.
module Pippenger {
  import opened Arithmetic
  import opened Limbs
  import opened Groups
  import opened Words
  import opened SignedDigits

  // ---------------------------------------------------------------- buckets

  /** m * b[0] + (m + 1) * b[1] + ... */
  function Weighted<T>(g: Group<T>, m: int, b: seq<T>): T
    decreases |b|
  {
    if b == [] then g.zero else g.add(Times(g, m, b[0]), Weighted(g, m + 1, b[1..]))
  }

  function Sum<T>(g: Group<T>, b: seq<T>): T {
    if b == [] then g.zero else g.add(Sum(g, b[1..]), b[0])
  }

  /** Raising every weight by one adds the plain sum. */
  lemma {:induction false} WeightedSucc<T(!new)>(g: Group<T>, m: int, b: seq<T>)
    requires IsGroup(g)
    ensures Weighted(g, m + 1, b) == g.add(Weighted(g, m, b), Sum(g, b))
    decreases |b|
  {
    if b == [] {
      Zero(g, g.zero);
    } else {
      WeightedSucc(g, m + 1, b[1..]);
      TimesSucc(g, m, b[0]);
      Comm(g, Sum(g, b[1..]), b[0]);
      Interchange(g, Times(g, m, b[0]), b[0], Weighted(g, m + 1, b[1..]), Sum(g, b[1..]));
    }
  }

  /** Adding p to bucket i adds (m + i) * p to the weighted sum. */
  lemma {:induction false} WeightedUpdate<T(!new)>(g: Group<T>, m: int, b: seq<T>, i: nat, p: T)
    requires IsGroup(g) && i < |b|
    ensures Weighted(g, m, b[i := g.add(b[i], p)]) == g.add(Weighted(g, m, b), Times(g, m + i, p))
    decreases |b|
  {
    var c := b[i := g.add(b[i], p)];
    if i == 0 {
      assert c[1..] == b[1..];
      TimesSum(g, m, b[0], p);
      var rest := Weighted(g, m + 1, b[1..]);
      Assoc(g, Times(g, m, b[0]), Times(g, m, p), rest);
      Comm(g, Times(g, m, p), rest);
      Assoc(g, Times(g, m, b[0]), rest, Times(g, m, p));
    } else {
      assert c[1..] == b[1..][i - 1 := g.add(b[1..][i - 1], p)];
      WeightedUpdate(g, m + 1, b[1..], i - 1, p);
      Assoc(g, Times(g, m, b[0]), Weighted(g, m + 1, b[1..]), Times(g, m + i, p));
    }
  }

  lemma {:induction false} WeightedZeros<T(!new)>(g: Group<T>, m: int, b: seq<T>)
    requires IsGroup(g) && forall k :: 0 <= k < |b| ==> b[k] == g.zero
    ensures Weighted(g, m, b) == g.zero
    decreases |b|
  {
    if b != [] {
      WeightedZeros(g, m + 1, b[1..]);
      TimesZero(g, m);
      Zero(g, g.zero);
    }
  }

  /** The column of digits at one index. */
  function Column(digits: seq<seq<int>>, c: nat): (s: seq<int>)
    requires forall k :: 0 <= k < |digits| ==> c < |digits[k]|
    ensures |s| == |digits| && forall k :: 0 <= k < |s| ==> s[k] == digits[k][c]
  {
    seq(|digits|, k requires 0 <= k < |digits| => digits[k][c])
  }

  /** Sorting the points of one column into buckets by digit. */
  method FillBuckets<T(!new)>(g: Group<T>, w: nat, buckets: array<T>, digits: seq<seq<int>>, c: nat, points: seq<T>)
    requires IsGroup(g) && 6 <= w <= 8 && buckets.Length == Pow(2, w - 1) && |digits| == |points|
    requires forall k :: 0 <= k < |digits| ==> c < |digits[k]| && Centred(w, digits[k][c])
    modifies buckets
    ensures Weighted(g, 1, buckets[..]) == Combine(g, Column(digits, c), points)
  {
    hide Weighted, Combine, IsGroup;
    for i := 0 to buckets.Length
      invariant forall k :: 0 <= k < i ==> buckets[k] == g.zero
    {
      buckets[i] := g.zero;
    }
    WeightedZeros(g, 1, buckets[..]);
    ghost var column := Column(digits, c);
    NoPoints(g, column[..0], points[..0]);
    for k := 0 to |points|
      invariant Weighted(g, 1, buckets[..]) == Combine(g, column[..k], points[..k])
    {
      CombineSnoc(g, column, points, k);
      AddToBucket(g, w, buckets, digits[k][c], points[k]);
    }
    assert column[..|points|] == column && points[..|points|] == points;
  }

  lemma NoPoints<T>(g: Group<T>, coeffs: seq<int>, points: seq<T>)
    requires coeffs == [] && points == []
    ensures Combine(g, coeffs, points) == g.zero
  {
  }

  lemma CombineSnoc<T>(g: Group<T>, coeffs: seq<int>, points: seq<T>, k: nat)
    requires k < |coeffs| == |points|
    ensures Combine(g, coeffs[..k + 1], points[..k + 1])
            == g.add(Combine(g, coeffs[..k], points[..k]), Times(g, coeffs[k], points[k]))
  {
    assert coeffs[..k + 1][..k] == coeffs[..k] && points[..k + 1][..k] == points[..k];
  }

  /** One point into its bucket: added for a positive digit, subtracted for a negative one. */
  method AddToBucket<T(!new)>(g: Group<T>, w: nat, buckets: array<T>, digit: int, pt: T)
    requires IsGroup(g) && 6 <= w <= 8 && buckets.Length == Pow(2, w - 1) && Centred(w, digit)
    modifies buckets
    ensures Weighted(g, 1, buckets[..]) == g.add(old(Weighted(g, 1, buckets[..])), Times(g, digit, pt))
  {
    ghost var before := buckets[..];
    hide Weighted, IsGroup, Pow;
    if digit > 0 {
      var b := digit - 1;
      WeightedUpdate(g, 1, before, b, pt);
      buckets[b] := g.add(buckets[b], pt);
      assert buckets[..] == before[b := g.add(before[b], pt)];
    } else if digit < 0 {
      var b := -digit - 1;
      WeightedUpdate(g, 1, before, b, g.neg(pt));
      buckets[b] := g.add(buckets[b], g.neg(pt));
      assert buckets[..] == before[b := g.add(before[b], g.neg(pt))];
      TimesNeg(g, digit, pt);
    } else {
      Zero(g, Weighted(g, 1, before));
    }
  }

  lemma TimesNeg<T(!new)>(g: Group<T>, n: int, x: T)
    requires IsGroup(g)
    ensures Times(g, -n, g.neg(x)) == Times(g, n, x)
  {
    TimesOne(g, x);
    TimesTimes(g, -n, -1, x);
  }

  /** The two running sums from the last bucket down weight bucket i by i + 1. */
  method SumBuckets<T(!new)>(g: Group<T>, buckets: array<T>) returns (total: T)
    requires IsGroup(g) && 1 <= buckets.Length
    ensures total == Weighted(g, 1, buckets[..])
  {
    var n := buckets.Length;
    var running := buckets[n - 1];
    total := buckets[n - 1];
    ghost var b := buckets[..];
    LastBucket(g, b);
    var i := n - 1;
    while 0 < i
      invariant 0 <= i < n
      invariant running == Sum(g, b[i..]) && total == Weighted(g, 1, b[i..])
    {
      i := i - 1;
      running := g.add(running, buckets[i]);
      ghost var before := total;
      total := g.add(total, running);
      assert b[i..][1..] == b[i + 1..] && b[i..][0] == buckets[i];
      NextBucket(g, b[i..]);
    }
    assert b[0..] == b;
  }

  lemma LastBucket<T(!new)>(g: Group<T>, b: seq<T>)
    requires IsGroup(g) && b != []
    ensures var last := b[|b| - 1..];
            Sum(g, last) == b[|b| - 1] && Weighted(g, 1, last) == b[|b| - 1]
  {
    var last := b[|b| - 1..];
    assert last == [b[|b| - 1]] && last[1..] == [];
    Zero(g, last[0]);
    TimesOne(g, last[0]);
  }

  lemma NextBucket<T(!new)>(g: Group<T>, b: seq<T>)
    requires IsGroup(g) && b != []
    ensures Weighted(g, 1, b) == g.add(Weighted(g, 1, b[1..]), g.add(Sum(g, b[1..]), b[0]))
  {
    WeightedSucc(g, 1, b[1..]);
    TimesOne(g, b[0]);
    Comm(g, b[0], g.add(Weighted(g, 1, b[1..]), Sum(g, b[1..])));
    Assoc(g, Weighted(g, 1, b[1..]), Sum(g, b[1..]), b[0]);
  }

  /** `mul_by_pow_2`: k doublings, the last one unrolled. */
  method MulByPow2<T(!new)>(g: Group<T>, point: T, k: nat) returns (s: T)
    requires IsGroup(g) && 0 < k
    ensures s == Times(g, Pow(2, k), point)
  {
    s := point;
    TimesOne(g, point);
    for i := 0 to k - 1
      invariant s == Times(g, Pow(2, i), point)
    {
      Doubled(g, Pow(2, i), point);
      s := g.add(s, s);
    }
    Doubled(g, Pow(2, k - 1), point);
    s := g.add(s, s);
  }

  lemma Doubled<T(!new)>(g: Group<T>, n: nat, x: T)
    requires IsGroup(g)
    ensures g.add(Times(g, n, x), Times(g, n, x)) == Times(g, 2 * n, x)
  {
    TimesAdd(g, n, n, x);
  }

  // ---------------------------------------------------------------- the whole algorithm

  /** The digit width for a given number of scalars. */
  function Width(size: nat): (w: nat)
    ensures 6 <= w <= 8
  {
    if size < 500 then 6 else if size < 800 then 7 else 8
  }

  /** The numbers that the digits from position c on stand for. */
  function Tails(b: nat, digits: seq<seq<int>>, c: nat, n: nat): (s: seq<int>)
    requires c <= n && forall k :: 0 <= k < |digits| ==> n <= |digits[k]|
    ensures |s| == |digits| && forall k :: 0 <= k < |s| ==> s[k] == Balanced(b, digits[k][c..n])
  {
    seq(|digits|, k requires 0 <= k < |digits| => Balanced(b, digits[k][c..n]))
  }

  /** Horner: one more column below multiplies by 2^w and adds. */
  lemma NextColumn<T(!new)>(g: Group<T>, b: nat, digits: seq<seq<int>>, c: nat, n: nat, points: seq<T>)
    requires IsGroup(g) && c < n && |digits| == |points| && forall k :: 0 <= k < |digits| ==> n <= |digits[k]|
    ensures Combine(g, Tails(b, digits, c, n), points)
            == g.add(Times(g, b, Combine(g, Tails(b, digits, c + 1, n), points)), Combine(g, Column(digits, c), points))
  {
    var low, high, column := Tails(b, digits, c, n), Tails(b, digits, c + 1, n), Column(digits, c);
    forall k | 0 <= k < |digits| ensures low[k] == b * high[k] + column[k] {
      BalancedCons(b, digits[k][c..n]);
      assert digits[k][c..n][1..] == digits[k][c + 1..n];
    }
    CombineLinear(g, b, high, column, low, points);
  }

  lemma TopColumn(b: nat, digits: seq<seq<int>>, n: nat)
    requires 1 <= n && forall k :: 0 <= k < |digits| ==> n <= |digits[k]|
    ensures Tails(b, digits, n - 1, n) == Column(digits, n - 1)
  {
    var top, column := Tails(b, digits, n - 1, n), Column(digits, n - 1);
    forall k | 0 <= k < |digits| ensures top[k] == column[k] {
      assert digits[k][n - 1..n] == [digits[k][n - 1]];
      BalancedSnoc(b, [], digits[k][n - 1]);
      assert [] + [digits[k][n - 1]] == [digits[k][n - 1]] && Pow(b, 0) == 1;
    }
  }

  /** The scalars as numbers. */
  function Values(scalars: seq<seq<nat>>): (s: seq<int>)
    ensures |s| == |scalars| && forall k :: 0 <= k < |s| ==> s[k] == Val(WordBase(), scalars[k])
  {
    seq(|scalars|, k requires 0 <= k < |scalars| => Val(WordBase(), scalars[k]))
  }

  predicate IsScalar(s: seq<nat>) { |s| == 4 && Digits(WordBase(), s) }

  /** The digits of every scalar that has a point. */
  method Recode(scalars: seq<seq<nat>>, count: nat, w: nat) returns (digits: seq<seq<int>>)
    requires count <= |scalars| && 6 <= w <= 8 && forall k :: 0 <= k < |scalars| ==> IsScalar(scalars[k])
    ensures |digits| == count
    ensures forall k :: 0 <= k < count ==> |digits[k]| == 43 && forall c :: 0 <= c < 43 ==> Centred(w, digits[k][c])
    ensures Tails(Pow(2, w), digits, 0, DigitsCount(w)) == Values(scalars[..count])
  {
    digits := [];
    for i := 0 to count
      invariant |digits| == i
      invariant forall k :: 0 <= k < i ==> |digits[k]| == 43 && forall c :: 0 <= c < 43 ==> Centred(w, digits[k][c])
      invariant forall k :: 0 <= k < i ==>
                  Balanced(Pow(2, w), digits[k][0..DigitsCount(w)]) == Val(WordBase(), scalars[k])
    {
      assert IsScalar(scalars[i]);
      var d := ToRadix2w(scalars[i], w);
      assert d[..][0..DigitsCount(w)] == d[..DigitsCount(w)];
      digits := digits + [d[..]];
    }
  }

  /** `pippenger`: the sum of scalar * point over the zipped inputs. */
  method MultiScalarMul<T(!new)>(g: Group<T>, points: seq<T>, scalars: seq<seq<nat>>) returns (total: T)
    requires IsGroup(g) && forall k :: 0 <= k < |scalars| ==> IsScalar(scalars[k])
    ensures var n := if |points| < |scalars| then |points| else |scalars|;
            total == Combine(g, Values(scalars[..n]), points[..n])
  {
    var w := Width(|scalars|);
    var n := if |points| < |scalars| then |points| else |scalars|;
    var digits := Recode(scalars, n, w);
    var pts := points[..n];
    assert 6 <= w <= 8 && DigitsCount(w) <= 43;
    hide Pow, Balanced, Tails, Combine, Centred, IsGroup, Column, Times, Values;
    RadixSize(w);
    RadixSizeBelow(w);
    var buckets := new T[Pow(2, w) / 2](_ => g.zero);
    total := FoldColumns(g, w, buckets, digits, DigitsCount(w), pts);
  }

  /** The columns from the highest digit down, combined by Horner's rule. */
  method FoldColumns<T(!new)>(g: Group<T>, w: nat, buckets: array<T>, digits: seq<seq<int>>, count: nat, points: seq<T>)
    returns (total: T)
    requires IsGroup(g) && 6 <= w <= 8 && buckets.Length == Pow(2, w - 1) && |digits| == |points| && 1 <= count
    requires forall k :: 0 <= k < |digits| ==>
               count <= |digits[k]| && forall c :: 0 <= c < count ==> Centred(w, digits[k][c])
    modifies buckets
    ensures total == Combine(g, Tails(Pow(2, w), digits, 0, count), points)
  {
    ghost var b := Pow(2, w);
    PowPositive(2, w - 1);
    hide Pow, Balanced, Tails, Combine, Centred, IsGroup, Column, Times, Weighted;
    var c := count - 1;
    FillBuckets(g, w, buckets, digits, c, points);
    total := SumBuckets(g, buckets);
    TopColumn(b, digits, count);
    while 0 < c
      invariant 0 <= c < count
      invariant total == Combine(g, Tails(b, digits, c, count), points)
    {
      NextColumn(g, b, digits, c - 1, count, points);
      c := c - 1;
      FillBuckets(g, w, buckets, digits, c, points);
      var column := SumBuckets(g, buckets);
      total := MulByPow2(g, total, w);
      total := g.add(total, column);
    }
  }
}
