// Shamir sharing and Lagrange coefficients of crypto/threshsig/boldyreva.py, in the exponent field.
module ThresholdKeys {
  import opened Arithmetic
  import opened PrimeFields
  import opened Polynomials
  import opened Products

  /** `polynom_eval`: coefficients against running powers. */
  method PolynomEval(p: int, x: int, coefficients: seq<int>) returns (y: int)
    requires 2 <= p
    ensures y == Eval(coefficients, x) % p
  {
    y := 0;
    var xx := 1;
    ghost var total := Eval(coefficients, x);
    hide Eval, Accumulated;
    AccumulatedStart(p, total);
    assert coefficients[0..] == coefficients;
    for i := 0 to |coefficients|
      invariant Accumulated(p, y, xx, Eval(coefficients[i..], x), total)
    {
      EvalCons(coefficients, i, x);
      y, xx := AccumulateTerm(p, y, xx, coefficients[i], x, Eval(coefficients[i + 1..], x), total);
    }
    AccumulatedEnd(p, y, xx, coefficients[|coefficients|..], x, total);
  }

  /** What has been added, plus the running power times what is left, is the whole sum. */
  ghost predicate Accumulated(p: int, y: int, xx: int, rest: int, total: int)
    requires 0 < p
  {
    0 <= y < p && Cong(y + xx * rest, total, p)
  }

  lemma AccumulatedStart(p: int, total: int)
    requires 0 < p
    ensures Accumulated(p, 0, 1, total, total)
  {
  }

  lemma AccumulatedEnd(p: int, y: int, xx: int, s: seq<int>, x: int, total: int)
    requires 0 < p && s == [] && Accumulated(p, y, xx, Eval(s, x), total)
    ensures y == total % p
  {
    assert xx * Eval(s, x) == 0;
    DivModUnique(y, p, 0, y);
  }

  lemma EvalCons(s: seq<int>, i: nat, x: int)
    requires i < |s|
    ensures Eval(s[i..], x) == s[i] + x * Eval(s[i + 1..], x)
  {
    assert s[i..][1..] == s[i + 1..];
  }

  method AccumulateTerm(p: int, y: int, xx: int, c: int, x: int, ghost rest: int, ghost total: int)
    returns (y1: int, xx1: int)
    requires 0 < p && Accumulated(p, y, xx, c + x * rest, total)
    ensures Accumulated(p, y1, xx1, rest, total)
  {
    y1 := (y + c * xx) % p;
    xx1 := xx * x % p;
    HornerStep(p, y, xx, c, x, rest);
    AccumulatedNext(p, y, xx, c, x, rest, total, y1, xx1);
  }

  lemma AccumulatedNext(p: int, y: int, xx: int, c: int, x: int, rest: int, total: int, y1: int, xx1: int)
    requires 0 < p && Accumulated(p, y, xx, c + x * rest, total) && 0 <= y1 < p
    requires Cong(y1 + xx1 * rest, y + xx * (c + x * rest), p)
    ensures Accumulated(p, y1, xx1, rest, total)
  {
    CongTrans(y1 + xx1 * rest, y + xx * (c + x * rest), total, p);
  }

  lemma HornerStep(p: int, y: int, xx: int, c: int, x: int, rest: int)
    requires 0 < p
    ensures Cong((y + c * xx) % p + xx * x % p * rest, y + xx * (c + x * rest), p)
  {
    CongMod(y + c * xx, p);
    CongMod(xx * x, p);
    CongMul(xx * x % p, xx * x, rest, rest, p);
    CongAdd((y + c * xx) % p, y + c * xx, xx * x % p * rest, xx * x * rest, p);
    assert xx * (c + x * rest) == c * xx + xx * x * rest;
  }

  // ---------------------------------------------------------------- Lagrange coefficients

  /** The elements other than j, in order. */
  function Without(s: seq<int>, j: int): (r: seq<int>)
    ensures multiset(r) == multiset(s)[j := 0]
  {
    if s == [] then []
    else
      assert s == [s[0]] + s[1..];
      if s[0] == j then Without(s[1..], j) else [s[0]] + Without(s[1..], j)
  }

  /** `lagrange`: num / den, the products running over the other members. */
  function Lagrange(p: int, s: seq<int>, j: int): (c: int)
    requires Prime(p) && Product(j, Without(s, j)) % p != 0
    ensures 0 <= c < p
  {
    Product(-1, Without(s, j)) * Inverse(Product(j, Without(s, j)), p) % p
  }

  /** Members of a share set: distinct indices below l <= p. */
  predicate Members(s: seq<int>, l: nat) {
    (forall i :: 0 <= i < |s| ==> 0 <= s[i] < l) && (forall i, j :: 0 <= i < j < |s| ==> s[i] != s[j])
  }

  lemma InWithout(s: seq<int>, j: int, x: int)
    ensures x in Without(s, j) <==> x in s && x != j
  {
    assert x in Without(s, j) <==> x in multiset(Without(s, j));
    assert x in s <==> x in multiset(s);
  }

  lemma LagrangeDefined(p: int, s: seq<int>, j: int, l: nat)
    requires Prime(p) && Members(s, l) && l <= p && j in s
    ensures Product(j, Without(s, j)) % p != 0
  {
    var w := Without(s, j);
    forall i | 0 <= i < |w| ensures 0 <= w[i] < p && w[i] != j { InWithout(s, j, w[i]); }
    ProductNonZero(p, j, w);
  }

  /** So a coefficient depends on the set of members only, whichever way it is listed. */
  lemma LagrangeOrder(p: int, s: seq<int>, t: seq<int>, j: int)
    requires Prime(p) && multiset(s) == multiset(t) && Product(j, Without(s, j)) % p != 0
    ensures Product(j, Without(t, j)) % p != 0 && Lagrange(p, s, j) == Lagrange(p, t, j)
  {
    ProductOrder(j, Without(s, j), Without(t, j));
    ProductOrder(-1, Without(s, j), Without(t, j));
  }

  // ---------------------------------------------------------------- reconstruction at zero

  /** The points j + 1 at which members hold their shares. */
  function Points(s: seq<int>): (r: seq<int>)
    ensures |r| == |s| && forall i :: 0 <= i < |s| ==> r[i] == s[i] + 1
  {
    seq(|s|, i requires 0 <= i < |s| => s[i] + 1)
  }

  lemma {:induction false} EvalFromRoots(p: int, s: seq<int>, a: int)
    requires Prime(p)
    ensures Cong(Eval(FromRoots(p, Points(s)), a + 1), Product(a, s), p)
  {
    if s == [] {
      EvalConstant([1], a + 1);
    } else {
      var rest := FromRoots(p, Points(s[1..]));
      assert Points(s)[1..] == Points(s[1..]);
      EvalFromRoots(p, s[1..], a);
      EvalMulMod(p, Linear(p, s[0] + 1), rest, a + 1);
      EvalLinear(p, s[0] + 1, a + 1);
      FromRootsCons(p, Points(s));
      var l, r := Eval(Linear(p, s[0] + 1), a + 1), Eval(rest, a + 1);
      CongMul(l, a - s[0], r, Product(a, s[1..]), p);
    }
  }

  /** The first m weighted products: a polynomial with the given values at the first m members and zero at the
      others. */
  function Basis(p: int, s: seq<int>, l: nat, ys: seq<int>, m: nat): (f: seq<int>)
    requires Prime(p) && Members(s, l) && l <= p && |ys| == |s| && m <= |s|
    ensures |f| <= |s|
  {
    if m == 0 then []
    else
      var j := s[m - 1];
      LagrangeDefined(p, s, j, l);
      WithoutShorter(s, j);
      RawSubMul(Basis(p, s, l, ys, m - 1), -(ys[m - 1] * Weight(p, s, l, j)), Others(p, s, j))
  }

  /** The inverse of the denominator. */
  function Weight(p: int, s: seq<int>, l: nat, j: int): (c: int)
    requires Prime(p) && Members(s, l) && l <= p && j in s
    ensures 0 < p && Cong(Product(j, Without(s, j)) * c, 1, p)
    ensures Product(j, Without(s, j)) % p != 0 && Lagrange(p, s, j) == Product(-1, Without(s, j)) * c % p
  {
    LagrangeDefined(p, s, j, l);
    Inverse(Product(j, Without(s, j)), p)
  }

  /** The product of the factors of the other members. */
  function Others(p: int, s: seq<int>, j: int): seq<int>
    requires Prime(p)
  {
    FromRoots(p, Points(Without(s, j)))
  }

  lemma WithoutShorter(s: seq<int>, j: int)
    requires j in s
    ensures |Without(s, j)| < |s|
  {
    assert j in multiset(s);
    assert |multiset(s)[j := 0]| < |multiset(s)|;
    assert |multiset(Without(s, j))| == |Without(s, j)|;
  }

  /** The product over the others at the point of member i. */
  lemma OthersAt(p: int, s: seq<int>, j: int, a: int)
    requires Prime(p)
    ensures Cong(Eval(Others(p, s, j), a + 1), Product(a, Without(s, j)), p)
    ensures a in s && a != j ==> Product(a, Without(s, j)) == 0
  {
    EvalFromRoots(p, Without(s, j), a);
    InWithout(s, j, a);
    if a in Without(s, j) { ProductAtMember(a, Without(s, j)); }
  }

  lemma {:induction false} BasisAt(p: int, s: seq<int>, l: nat, ys: seq<int>, m: nat, i: nat)
    requires 0 < p && Prime(p) && Members(s, l) && l <= p && |ys| == |s| && m <= |s| && i < |s|
    ensures Cong(Eval(Basis(p, s, l, ys, m), s[i] + 1), if i < m then ys[i] else 0, p)
  {
    hide Others, Weight, Product, Without, Prime, Cong, Members;
    if m == 0 {
      BasisEmpty(p, s, l, ys, s[i] + 1);
    } else {
      BasisAt(p, s, l, ys, m - 1, i);
      BasisAtStep(p, s, l, ys, m, i);
    }
  }

  lemma BasisEmpty(p: int, s: seq<int>, l: nat, ys: seq<int>, x: int)
    requires 0 < p && Prime(p) && Members(s, l) && l <= p && |ys| == |s|
    ensures Cong(Eval(Basis(p, s, l, ys, 0), x), 0, p)
  {
  }

  lemma BasisAtStep(p: int, s: seq<int>, l: nat, ys: seq<int>, m: nat, i: nat)
    requires 0 < p && Prime(p) && Members(s, l) && l <= p && |ys| == |s| && 0 < m <= |s| && i < |s|
    requires Cong(Eval(Basis(p, s, l, ys, m - 1), s[i] + 1), if i < m - 1 then ys[i] else 0, p)
    ensures Cong(Eval(Basis(p, s, l, ys, m), s[i] + 1), if i < m then ys[i] else 0, p)
  {
    hide *;
    var j := s[m - 1];
    OthersAt(p, s, j, s[i]);
    BasisUnfold(p, s, l, ys, m, s[i] + 1);
    MembersDiffer(s, l, i, m - 1);
    var before, others := Eval(Basis(p, s, l, ys, m - 1), s[i] + 1), Eval(Others(p, s, j), s[i] + 1);
    BasisTerm(p, before, ys[m - 1], Weight(p, s, l, j), others, Product(s[i], Without(s, j)),
              if i < m - 1 then ys[i] else 0, i == m - 1);
  }

  lemma MembersDiffer(s: seq<int>, l: nat, i: nat, j: nat)
    requires Members(s, l) && i < |s| && j < |s|
    ensures i != j ==> s[i] != s[j]
  {
  }

  function Term(y: int, inv: int, others: int): int { y * inv * others }

  /** The value of the sum after one more term. */
  lemma BasisUnfold(p: int, s: seq<int>, l: nat, ys: seq<int>, m: nat, x: int)
    requires Prime(p) && Members(s, l) && l <= p && |ys| == |s| && 0 < m <= |s|
    ensures Eval(Basis(p, s, l, ys, m), x)
            == Eval(Basis(p, s, l, ys, m - 1), x)
               + Term(ys[m - 1], Weight(p, s, l, s[m - 1]), Eval(Others(p, s, s[m - 1]), x))
  {
    hide Weight, Others, Eval, Prime, Without, RawSubMul, Product;
    EvalSubMul(Basis(p, s, l, ys, m - 1), -(ys[m - 1] * Weight(p, s, l, s[m - 1])), Others(p, s, s[m - 1]), x);
  }

  lemma BasisTerm(p: int, before: int, y: int, inv: int, others: int, product: int, was: int, own: bool)
    requires 0 < p && Cong(before, was, p) && Cong(others, product, p)
    requires own ==> Cong(product * inv, 1, p) && was == 0
    requires !own ==> product == 0
    ensures Cong(before + Term(y, inv, others), if own then y else was, p)
  {
    CongMul(y * inv, y * inv, others, product, p);
    if own {
      CongMul(y, y, product * inv, 1, p);
      assert y * (product * inv) == y * inv * product;
    } else {
      assert y * inv * product == 0;
    }
    CongAdd(before, was, y * inv * others, if own then y else 0, p);
  }

  /** The combination of shares that `combine_shares` forms in the exponent. */
  function WeightedSum(p: int, s: seq<int>, l: nat, ys: seq<int>, m: nat): int
    requires Prime(p) && Members(s, l) && l <= p && |ys| == |s| && m <= |s|
  {
    if m == 0 then 0
    else
      LagrangeDefined(p, s, s[m - 1], l);
      WeightedSum(p, s, l, ys, m - 1) + Lagrange(p, s, s[m - 1]) * ys[m - 1]
  }

  lemma {:induction false} BasisAtZero(p: int, s: seq<int>, l: nat, ys: seq<int>, m: nat)
    requires 0 < p && Prime(p) && Members(s, l) && l <= p && |ys| == |s| && m <= |s|
    ensures Cong(Eval(Basis(p, s, l, ys, m), 0), WeightedSum(p, s, l, ys, m), p)
  {
    hide Others, Weight, Product, Without, Prime, Cong, Members, Lagrange;
    if m == 0 {
      BasisEmpty(p, s, l, ys, 0);
    } else {
      BasisAtZero(p, s, l, ys, m - 1);
      BasisAtZeroStep(p, s, l, ys, m, WeightedSum(p, s, l, ys, m - 1));
    }
  }

  lemma BasisAtZeroStep(p: int, s: seq<int>, l: nat, ys: seq<int>, m: nat, sum: int)
    requires 0 < p && Prime(p) && Members(s, l) && l <= p && |ys| == |s| && 0 < m <= |s|
    requires Cong(Eval(Basis(p, s, l, ys, m - 1), 0), sum, p)
    ensures Product(s[m - 1], Without(s, s[m - 1])) % p != 0
    ensures Cong(Eval(Basis(p, s, l, ys, m), 0), sum + Lagrange(p, s, s[m - 1]) * ys[m - 1], p)
  {
    hide *;
    var j := s[m - 1];
    BasisUnfold(p, s, l, ys, m, 0);
    OthersAt(p, s, j, -1);
    LagrangeDefined(p, s, j, l);
    var w := Weight(p, s, l, j);
    ZeroTerm(p, Eval(Basis(p, s, l, ys, m - 1), 0), sum, ys[m - 1],
             w, Eval(Others(p, s, j), 0), Product(-1, Without(s, j)), Lagrange(p, s, j));
  }

  lemma ZeroTerm(p: int, before: int, sum: int, y: int, inv: int, others: int, num: int, lagrange: int)
    requires 0 < p && Cong(before, sum, p) && Cong(others, num, p) && lagrange == num * inv % p
    ensures Cong(before + Term(y, inv, others), sum + lagrange * y, p)
  {
    CongMul(y * inv, y * inv, others, num, p);
    CongMod(num * inv, p);
    CongMul(num * inv % p, num * inv, y, y, p);
    assert num * inv * y == y * inv * num;
    CongAdd(before, sum, y * inv * others, num * inv % p * y, p);
  }

  /** Any k distinct members reconstruct a polynomial of degree below k at zero. */
  lemma Reconstruct(p: int, s: seq<int>, l: nat, ys: seq<int>, f: seq<int>)
    requires 0 < p && Prime(p) && Members(s, l) && l <= p && |ys| == |s| && |f| <= |s|
    requires forall i :: 0 <= i < |s| ==> Cong(ys[i], Eval(f, s[i] + 1), p)
    ensures Cong(WeightedSum(p, s, l, ys, |s|), Eval(f, 0), p)
  {
    hide *;
    var b, points := Basis(p, s, l, ys, |s|), Points(s);
    PointsDistinct(p, s, l);
    forall i | 0 <= i < |points| ensures Cong(Eval(Norm(p, b), points[i]), Eval(Norm(p, f), points[i]), p) {
      BasisAt(p, s, l, ys, |s|, i);
      EvalNorm(p, b, points[i]);
      EvalNorm(p, f, points[i]);
      CongChain(p, Eval(Norm(p, b), points[i]), Eval(b, points[i]), ys[i], Eval(f, points[i]),
                Eval(Norm(p, f), points[i]));
    }
    AgreeEqual(p, Norm(p, b), Norm(p, f), points);
    EvalNorm(p, b, 0);
    EvalNorm(p, f, 0);
    BasisAtZero(p, s, l, ys, |s|);
    var sum := WeightedSum(p, s, l, ys, |s|);
    CongFlip(p, Eval(b, 0), sum);
    CongFlip(p, Eval(Norm(p, b), 0), Eval(b, 0));
    CongTrans(sum, Eval(b, 0), Eval(Norm(p, b), 0), p);
    CongTrans(sum, Eval(Norm(p, f), 0), Eval(f, 0), p);
  }

  lemma CongFlip(p: int, x: int, y: int)
    requires 0 < p && Cong(x, y, p)
    ensures Cong(y, x, p)
  {
  }

  lemma CongChain(p: int, nb: int, b: int, y: int, f: int, nf: int)
    requires 0 < p && Cong(nb, b, p) && Cong(b, y, p) && Cong(y, f, p) && Cong(nf, f, p)
    ensures Cong(nb, nf, p)
  {
  }

  lemma PointsDistinct(p: int, s: seq<int>, l: nat)
    requires 0 < p && Members(s, l) && l <= p
    ensures Distinct(p, Points(s))
  {
    var points := Points(s);
    forall i, j | 0 <= i < j < |points| ensures !Cong(points[i], points[j], p) {
      if Cong(points[i], points[j], p) {
        CongAdd(points[i], points[j], 1, 1, p);
        ResidueUnique(s[i], s[j], p);
      }
    }
  }
}
