// The threshold signature behind the coin: combine_shares of crypto/threshsig/boldyreva.py.
module CommonCoin {
  import opened PrimeFields
  import opened Polynomials
  import opened Products
  import opened Groups
  import opened ThresholdKeys

  /** The dealt keys: signature group of order p, l players, threshold k, the dealer's coefficients, the hash of a
      round to the group, and the selection made from a combined signature. */
  datatype Keys<!T, !R, !O> = Keys(g: Group<T>, p: int, l: nat, k: nat, secret: seq<int>, hash: R -> T, select: T -> O)

  ghost predicate OrderAt<T>(g: Group<T>, p: int, x: T) { Times(g, p, x) == g.zero }

  ghost predicate ValidKeys<T(!new), R, O>(keys: Keys<T, R, O>) {
    && IsGroup(keys.g) && Prime(keys.p) && (forall x :: OrderAt(keys.g, keys.p, x))
    && 1 <= keys.k <= keys.l <= keys.p && |keys.secret| == keys.k
  }

  /** The secret key of player i: the polynomial at i + 1. */
  function SecretKey<T, R, O>(keys: Keys<T, R, O>, i: nat): int
    requires 0 < keys.p
  {
    Eval(keys.secret, i + 1) % keys.p
  }

  function Sign<T, R, O>(keys: Keys<T, R, O>, i: nat, h: T): T
    requires 0 < keys.p
  {
    Times(keys.g, SecretKey(keys, i), h)
  }

  /** The signature under the master secret, the polynomial at 0. */
  function MasterSign<T, R, O>(keys: Keys<T, R, O>, h: T): T
    requires 0 < keys.p
  {
    Times(keys.g, Eval(keys.secret, 0) % keys.p, h)
  }

  /** `verify_share`: the pairing equation holds exactly for the share of player i. */
  predicate VerifyShare<T(==), R, O>(keys: Keys<T, R, O>, sig: T, i: nat, h: T)
    requires 0 < keys.p
  {
    sig == Sign(keys, i, h)
  }

  /** `verify_signature`. */
  predicate VerifySignature<T(==), R, O>(keys: Keys<T, R, O>, sig: T, h: T)
    requires 0 < keys.p
  {
    sig == MasterSign(keys, h)
  }

  // ---------------------------------------------------------------- combining

  /** Shares in order of arrival. */
  type Shares<T> = seq<(nat, T)>

  function Ids<T>(shares: Shares<T>): (s: seq<int>)
    ensures |s| == |shares| && forall i :: 0 <= i < |s| ==> s[i] == shares[i].0
  {
    seq(|shares|, i requires 0 <= i < |shares| => shares[i].0)
  }

  function Sigs<T>(shares: Shares<T>): (s: seq<T>)
    ensures |s| == |shares| && forall i :: 0 <= i < |s| ==> s[i] == shares[i].1
  {
    seq(|shares|, i requires 0 <= i < |shares| => shares[i].1)
  }

  function Insert(x: int, s: seq<int>): (r: seq<int>)
    ensures multiset(r) == multiset(s) + multiset{x}
  {
    if s == [] then [x]
    else
      assert s == [s[0]] + s[1..];
      if x <= s[0] then [x] + s else [s[0]] + Insert(x, s[1..])
  }

  /** `sorted(S)`. */
  function Sorted(s: seq<int>): (r: seq<int>)
    ensures multiset(r) == multiset(s)
  {
    if s == [] then []
    else
      assert s == [s[0]] + s[1..];
      Insert(s[0], Sorted(s[1..]))
  }

  /** The coefficient that `lagrange` gives each share. */
  function Coefficients<T>(p: int, shares: Shares<T>, l: nat): (s: seq<int>)
    requires Prime(p) && Members(Ids(shares), l) && l <= p
    ensures |s| == |shares|
  {
    CoefficientsDefined(p, shares, l);
    seq(|shares|, i requires 0 <= i < |shares| => Lagrange(p, Sorted(Ids(shares)), Ids(shares)[i]))
  }

  lemma CoefficientsDefined<T>(p: int, shares: Shares<T>, l: nat)
    requires Prime(p) && Members(Ids(shares), l) && l <= p
    ensures forall i :: 0 <= i < |shares| ==>
              && Product(Ids(shares)[i], Without(Sorted(Ids(shares)), Ids(shares)[i])) % p != 0
              && Product(Ids(shares)[i], Without(Ids(shares), Ids(shares)[i])) % p != 0
              && Lagrange(p, Sorted(Ids(shares)), Ids(shares)[i]) == Lagrange(p, Ids(shares), Ids(shares)[i])
  {
    var ids := Ids(shares);
    forall i | 0 <= i < |shares|
      ensures Product(ids[i], Without(Sorted(ids), ids[i])) % p != 0 && Product(ids[i], Without(ids, ids[i])) % p != 0
      ensures Lagrange(p, Sorted(ids), ids[i]) == Lagrange(p, ids, ids[i])
    {
      LagrangeDefined(p, ids, ids[i], l);
      LagrangeOrder(p, ids, Sorted(ids), ids[i]);
    }
  }

  /** `combine_shares`. */
  function CombineShares<T, R, O>(keys: Keys<T, R, O>, shares: Shares<T>): T
    requires Prime(keys.p) && Members(Ids(shares), keys.l) && keys.l <= keys.p
  {
    Combine(keys.g, Coefficients(keys.p, shares, keys.l), Sigs(shares))
  }

  /** All shares are the players' true shares on h. */
  ghost predicate Genuine<T, R, O>(keys: Keys<T, R, O>, shares: Shares<T>, h: T)
    requires 0 < keys.p
  {
    forall i :: 0 <= i < |shares| ==> shares[i].1 == Sign(keys, shares[i].0, h)
  }

  /** Multiples depend on the factor modulo the group order. */
  lemma TimesMod<T(!new)>(g: Group<T>, p: int, m: int, n: int, x: T)
    requires IsGroup(g) && 0 < p && OrderAt(g, p, x) && Cong(m, n, p)
    ensures Times(g, m, x) == Times(g, n, x)
  {
    var k := CongGap(m, n, p);
    TimesAdd(g, n, k * p, x);
    TimesTimes(g, k, p, x);
    TimesZero(g, k);
    Zero(g, Times(g, n, x));
  }

  function KeysOf<T, R, O>(keys: Keys<T, R, O>, ids: seq<int>): (s: seq<int>)
    requires 0 < keys.p && forall i :: 0 <= i < |ids| ==> 0 <= ids[i]
    ensures |s| == |ids| && forall i :: 0 <= i < |s| ==> s[i] == SecretKey(keys, ids[i])
  {
    seq(|ids|, i requires 0 <= i < |ids| => SecretKey(keys, ids[i]))
  }

  /** c lists the Lagrange coefficients of the members. */
  ghost predicate AreCoefficients(p: int, ids: seq<int>, c: seq<int>)
    requires Prime(p)
  {
    |c| == |ids| && forall i :: 0 <= i < |ids| ==>
                      Product(ids[i], Without(ids, ids[i])) % p != 0 && c[i] == Lagrange(p, ids, ids[i])
  }

  /** ys lists the members' keys. */
  ghost predicate AreKeys(p: int, ids: seq<int>, ys: seq<int>, secret: seq<int>)
    requires 0 < p
  {
    |ys| == |ids| && forall i :: 0 <= i < |ids| ==> Cong(ys[i], Eval(secret, ids[i] + 1), p)
  }

  /** The weighted sum over the members is the sum of coefficient times key. */
  lemma {:induction false} SumIsProducts(p: int, ids: seq<int>, l: nat, c: seq<int>, ys: seq<int>, m: nat)
    requires Prime(p) && Members(ids, l) && l <= p && AreCoefficients(p, ids, c) && |ys| == |ids| && m <= |ids|
    ensures |c| == |ids| && WeightedSum(p, ids, l, ys, m) == SumProducts(c[..m], ys[..m])
  {
    hide Prime, Members, Lagrange, Product, Without;
    if m > 0 {
      SumIsProducts(p, ids, l, c, ys, m - 1);
      ProductsSnoc(c, ys, m - 1);
      SumSnoc(p, ids, l, c, ys, m - 1);
    }
  }

  lemma ProductsSnoc(c: seq<int>, ys: seq<int>, k: nat)
    requires k < |c| == |ys|
    ensures SumProducts(c[..k + 1], ys[..k + 1]) == SumProducts(c[..k], ys[..k]) + c[k] * ys[k]
  {
    assert c[..k + 1][..k] == c[..k] && ys[..k + 1][..k] == ys[..k];
  }

  lemma SumSnoc(p: int, ids: seq<int>, l: nat, c: seq<int>, ys: seq<int>, k: nat)
    requires Prime(p) && Members(ids, l) && l <= p && AreCoefficients(p, ids, c) && |ys| == |ids| && k < |ids|
    ensures |c| == |ids| && WeightedSum(p, ids, l, ys, k + 1) == WeightedSum(p, ids, l, ys, k) + c[k] * ys[k]
  {
    hide Prime, Lagrange, Product, Without;
    assert Product(ids[k], Without(ids, ids[k])) % p != 0 && c[k] == Lagrange(p, ids, ids[k]);
  }

  lemma SumIsSecret(p: int, ids: seq<int>, l: nat, c: seq<int>, ys: seq<int>, secret: seq<int>)
    requires 0 < p && Prime(p) && Members(ids, l) && l <= p && |secret| == |ids|
    requires AreCoefficients(p, ids, c) && AreKeys(p, ids, ys, secret) && |c| == |ys| == |ids|
    ensures Cong(SumProducts(c, ys), Eval(secret, 0) % p, p)
  {
    hide Prime, Eval, WeightedSum, SumProducts, AreCoefficients, Members;
    SumIsProducts(p, ids, l, c, ys, |ids|);
    assert c[..|ids|] == c && ys[..|ids|] == ys;
    Reconstruct(p, ids, l, ys, secret);
    CongMod(Eval(secret, 0), p);
  }

  lemma CoefficientsAre<T>(p: int, shares: Shares<T>, l: nat)
    requires Prime(p) && Members(Ids(shares), l) && l <= p
    ensures AreCoefficients(p, Ids(shares), Coefficients(p, shares, l))
  {
    CoefficientsDefined(p, shares, l);
  }

  lemma KeysAre<T, R, O>(keys: Keys<T, R, O>, ids: seq<int>)
    requires 0 < keys.p && forall i :: 0 <= i < |ids| ==> 0 <= ids[i]
    ensures AreKeys(keys.p, ids, KeysOf(keys, ids), keys.secret)
  {
    forall i | 0 <= i < |ids| ensures Cong(KeysOf(keys, ids)[i], Eval(keys.secret, ids[i] + 1), keys.p) {
      CongMod(Eval(keys.secret, ids[i] + 1), keys.p);
    }
  }

  /** Any k genuine shares of distinct players combine to the master signature. */
  lemma CombineIsMaster<T(!new), R, O>(keys: Keys<T, R, O>, shares: Shares<T>, h: T)
    requires ValidKeys(keys) && Members(Ids(shares), keys.l) && Genuine(keys, shares, h) && |shares| == keys.k
    ensures CombineShares(keys, shares) == MasterSign(keys, h)
  {
    hide Prime, Eval, SumProducts, Times, AreCoefficients, AreKeys, Coefficients, Lagrange, IsGroup, Combine;
    var p, ids, ys := keys.p, Ids(shares), KeysOf(keys, Ids(shares));
    var c := Coefficients(p, shares, keys.l);
    assert OrderAt(keys.g, p, h);
    CoefficientsAre(p, shares, keys.l);
    KeysAre(keys, ids);
    SumIsSecret(p, ids, keys.l, c, ys, keys.secret);
    CombineMultiples(keys.g, c, ys, Sigs(shares), h);
    TimesMod(keys.g, p, SumProducts(c, ys), Eval(keys.secret, 0) % p, h);
  }
}
