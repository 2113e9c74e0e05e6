// Products of differences a - s[i], and Fermat's little theorem.
module Products {
  import opened Arithmetic
  import opened PrimeFields
  import opened Polynomials

  /** The product of a - jj over jj in s. */
  function Product(a: int, s: seq<int>): int { if s == [] then 1 else (a - s[0]) * Product(a, s[1..]) }

  /** A product of non-zero differences is not zero. */
  lemma {:induction false} ProductNonZero(p: int, a: int, s: seq<int>)
    requires Prime(p) && 0 <= a < p && forall i :: 0 <= i < |s| ==> 0 <= s[i] < p && s[i] != a
    ensures Product(a, s) % p != 0
  {
    DivModUnique(0, p, 0, 0);
    if s == [] {
      DivModUnique(1, p, 0, 1);
    } else {
      ProductNonZero(p, a, s[1..]);
      if Product(a, s) % p == 0 {
        NoZeroDivisors(a - s[0], Product(a, s[1..]), p);
        CongAdd(a - s[0], 0, s[0], s[0], p);
        ResidueUnique(a, s[0], p);
      }
    }
  }

  /** A product does not depend on the order. */
  lemma {:induction false} ProductOrder(a: int, s: seq<int>, t: seq<int>)
    requires multiset(s) == multiset(t)
    ensures Product(a, s) == Product(a, t)
  {
    if s == [] {
      assert |t| == |multiset(t)| == 0;
    } else {
      var k := FindIn(s, t);
      ProductRemove(a, t, k);
      ProductOrder(a, s[1..], t[..k] + t[k + 1..]);
    }
  }

  /** The first element of s, found in t; without it the two still list the same elements. */
  lemma FindIn(s: seq<int>, t: seq<int>) returns (k: nat)
    requires multiset(s) == multiset(t) && s != []
    ensures k < |t| && t[k] == s[0] && multiset(s[1..]) == multiset(t[..k] + t[k + 1..])
  {
    assert s == [s[0]] + s[1..];
    assert s[0] in multiset(t);
    k :| 0 <= k < |t| && t[k] == s[0];
    assert t == t[..k] + [t[k]] + t[k + 1..];
    assert multiset(s[1..]) == multiset(s) - multiset{s[0]};
    assert multiset(t[..k] + t[k + 1..]) == multiset(t) - multiset{t[k]};
  }

  lemma {:induction false} ProductRemove(a: int, t: seq<int>, k: nat)
    requires k < |t|
    ensures Product(a, t) == (a - t[k]) * Product(a, t[..k] + t[k + 1..])
  {
    var r := t[..k] + t[k + 1..];
    if k == 0 {
      assert r == t[1..];
    } else {
      ProductRemove(a, t[1..], k - 1);
      assert r[0] == t[0] && r[1..] == t[1..][..k - 1] + t[1..][k..];
      Swapped(a - t[0], a - t[k], Product(a, r[1..]));
    }
  }

  lemma Swapped(x: int, y: int, z: int)
    ensures x * (y * z) == y * (x * z)
  {
  }

  /** A product vanishes at its members. */
  lemma {:induction false} ProductAtMember(a: int, s: seq<int>)
    requires a in s
    ensures Product(a, s) == 0
  {
    if s[0] != a { ProductAtMember(a, s[1..]); }
  }

  // ---------------------------------------------------------------- Fermat's little theorem

  /** a * 1, ..., a * n modulo p. */
  function MultiplesOf(a: int, n: nat, p: int): (s: seq<int>)
    requires 0 < p
    ensures |s| == n && forall i :: 0 <= i < n ==> s[i] == a * (i + 1) % p
  {
    seq(n, i requires 0 <= i => a * (i + 1) % p)
  }

  /** The product of the multiples is a^n times that of 1, ..., n. */
  lemma {:induction false} ProductOfMultiples(a: int, p: int, n: nat, s: seq<int>, t: seq<int>)
    requires 0 < p && |s| == |t| == n && forall i :: 0 <= i < n ==> Cong(t[i], a * s[i], p)
    ensures Cong(Product(0, t), Power(a, n) * Product(0, s), p)
  {
    if n > 0 {
      ProductOfMultiples(a, p, n - 1, s[1..], t[1..]);
      FactorOut(p, a, s[0], t[0], Power(a, n - 1), Product(0, s[1..]), Product(0, t[1..]));
    }
  }

  lemma FactorOut(p: int, a: int, s: int, t: int, w: int, x: int, y: int)
    requires 0 < p && Cong(t, a * s, p) && Cong(y, w * x, p)
    ensures Cong((0 - t) * y, a * w * ((0 - s) * x), p)
  {
    CongAdd(0, 0, t, a * s, p);
    CongMul(0 - t, 0 - a * s, y, w * x, p);
    FourFactors(a, s, w, x);
  }

  lemma FourFactors(a: int, s: int, w: int, x: int)
    ensures (0 - a * s) * (w * x) == a * w * ((0 - s) * x)
  {
  }

  /** Distinct numbers below n, n of them, are a rearrangement of 1, ..., n. */
  lemma SameElements(s: seq<int>, t: seq<int>)
    requires |s| == |t| && (forall i, j :: 0 <= i < j < |t| ==> t[i] != t[j])
             && (forall i, j :: 0 <= i < j < |s| ==> s[i] != s[j])
    requires forall i :: 0 <= i < |t| ==> t[i] in s
    ensures multiset(s) == multiset(t)
  {
    DistinctSize(s);
    DistinctSize(t);
    var ss, ts := (set x: int | x in s), (set x: int | x in t);
    assert ts <= ss;
    assert |ss - ts| == 0 && ss == ts + (ss - ts);
    assert multiset(ss) == multiset(ts);
  }

  lemma {:induction false} DistinctSize(s: seq<int>)
    requires forall i, j :: 0 <= i < j < |s| ==> s[i] != s[j]
    ensures |set x: int | x in s| == |s| && multiset(s) == multiset(set x: int | x in s)
  {
    if s != [] {
      var k := |s| - 1;
      DistinctSize(s[..k]);
      assert s == s[..k] + [s[k]];
      assert (set x: int | x in s) == (set x: int | x in s[..k]) + {s[k]};
    }
  }

  /** Fermat: a^(p-1) is 1 for every a that p does not divide. */
  lemma Fermat(p: int, a: int)
    requires Prime(p) && a % p != 0
    ensures Cong(Power(a, p - 1), 1, p)
  {
    var n := p - 1;
    var s, t := MultiplesOf(1, n, p), MultiplesOf(a, n, p);
    hide Prime, Product, Power, MultiplesOf;
    forall i | 0 <= i < n ensures s[i] == i + 1 && Cong(t[i], a * s[i], p) { OnesMultiple(p, a, i); }
    Rearranged(p, a, s, t);
    ProductOrder(0, s, t);
    ProductOfMultiples(a, p, n, s, t);
    ProductNonZero(p, 0, s);
    CancelProduct(p, Power(a, n), Product(0, s));
  }

  lemma OnesMultiple(p: int, a: int, i: nat)
    requires 0 < p && i + 1 < p
    ensures 1 * (i + 1) % p == i + 1 && Cong(a * (i + 1) % p, a * (i + 1), p)
  {
    DivModUnique(i + 1, p, 0, i + 1);
    CongMod(a * (i + 1), p);
  }

  /** The residues of the multiples are the residues, in another order. */
  lemma Rearranged(p: int, a: int, s: seq<int>, t: seq<int>)
    requires Prime(p) && a % p != 0 && |s| == |t| == p - 1
    requires forall i :: 0 <= i < p - 1 ==> s[i] == i + 1 && t[i] == a * (i + 1) % p
    ensures multiset(s) == multiset(t)
  {
    hide Prime;
    forall i | 0 <= i < p - 1 ensures t[i] in s { MultipleInRange(p, a, i + 1); assert s[t[i] - 1] == t[i]; }
    forall i, j | 0 <= i < j < p - 1 ensures t[i] != t[j] { MultiplesDiffer(p, a, i + 1, j + 1); }
    SameElements(s, t);
  }

  lemma MultipleInRange(p: int, a: int, k: int)
    requires Prime(p) && a % p != 0 && 0 < k < p
    ensures 0 < a * k % p < p
  {
    DivModUnique(0, p, 0, 0);
    DivModUnique(k, p, 0, k);
    if a * k % p == 0 { NoZeroDivisors(a, k, p); }
  }

  lemma MultiplesDiffer(p: int, a: int, i: int, j: int)
    requires 0 < p && Prime(p) && a % p != 0 && 0 < i < p && 0 < j < p
    ensures a * i % p == a * j % p ==> i == j
  {
    if a * i % p == a * j % p {
      SameMultiple(p, a, i, j);
      NoZeroDivisors(a, i - j, p);
      CongAdd(i - j, 0, j, j, p);
      ResidueUnique(i, j, p);
    }
  }

  lemma SameMultiple(p: int, a: int, i: int, j: int)
    requires 0 < p && Cong(a * i, a * j, p) && a % p != 0
    ensures Cong(a * (i - j), 0, p) && !Cong(a, 0, p)
  {
    CongAdd(a * i, a * j, a * j, a * j, p);
    assert a * i - a * j == a * (i - j);
    DivModUnique(0, p, 0, 0);
  }

  lemma CancelProduct(p: int, w: int, x: int)
    requires Prime(p) && x % p != 0 && Cong(x, w * x, p)
    ensures Cong(w, 1, p)
  {
    CongAdd(w * x, x, x, x, p);
    assert w * x - x == (w - 1) * x;
    DivModUnique(0, p, 0, 0);
    NoZeroDivisors(w - 1, x, p);
    CongAdd(w - 1, 0, 1, 1, p);
  }
}
