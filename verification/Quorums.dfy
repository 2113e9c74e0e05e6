// Counting arguments shared by the protocols: N nodes, at most f of them Byzantine, N >= 3f + 1.
module Quorums {

  /** The identifiers 0 .. n-1. */
  function Ids(n: nat): (ids: set<nat>)
    ensures |ids| == n
    ensures forall i: nat :: i in ids <==> i < n
  {
    if n == 0 then {} else Ids(n - 1) + {n - 1}
  }

  datatype Config = Config(n: nat, f: nat, honest: set<nat>) {
    ghost predicate Valid() {
      && 3 * f + 1 <= n
      && honest <= Ids(n)
      && n - f <= |honest|
    }
  }

  lemma SubsetSize<T>(a: set<T>, b: set<T>)
    requires a <= b
    ensures |a| <= |b|
  {
    assert b == a + (b - a);
  }

  /** At most f identifiers are Byzantine. */
  lemma FewByzantine(c: Config, q: set<nat>)
    requires c.Valid() && q <= Ids(c.n)
    ensures |q - c.honest| <= c.f
  {
    assert |Ids(c.n) - c.honest| == c.n - |c.honest| by {
      assert Ids(c.n) == c.honest + (Ids(c.n) - c.honest);
    }
    SubsetSize(q - c.honest, Ids(c.n) - c.honest);
  }

  /** Any f + 1 nodes include an honest one. */
  lemma HonestMember(c: Config, q: set<nat>) returns (h: nat)
    requires c.Valid() && q <= Ids(c.n) && c.f + 1 <= |q|
    ensures h in q && h in c.honest
  {
    FewByzantine(c, q);
    assert q != q - c.honest;
    h :| h in q && h in c.honest;
  }

  /** Two sets of n - f nodes share at least n - 2f of them. */
  lemma IntersectionSize(n: nat, a: set<nat>, b: set<nat>)
    requires a <= Ids(n) && b <= Ids(n)
    ensures |a * b| >= |a| + |b| - n
  {
    SubsetSize(a + b, Ids(n));
  }

  /** Two sets of n - f nodes share an honest node. */
  lemma QuorumsMeet(c: Config, a: set<nat>, b: set<nat>) returns (h: nat)
    requires c.Valid() && a <= Ids(c.n) && b <= Ids(c.n)
    requires c.n - c.f <= |a| && c.n - c.f <= |b|
    ensures h in a && h in b && h in c.honest
  {
    IntersectionSize(c.n, a, b);
    h := HonestMember(c, a * b);
  }

  /** Removing the Byzantine nodes from a set costs at most f members. */
  lemma HonestPart(c: Config, q: set<nat>)
    requires c.Valid() && q <= Ids(c.n)
    ensures |q * c.honest| >= |q| - c.f
  {
    FewByzantine(c, q);
    assert q == (q * c.honest) + (q - c.honest);
  }
}
