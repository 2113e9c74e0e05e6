// The RSA vector commitment of vc.py: divide-and-conquer generation against the quadratic one, opening and verifying.
module VectorCommitment {
  import opened Arithmetic
  import opened Options
  import opened PrimeFields
  import opened Polynomials

  /** Python's pow(x, e, n). */
  function PowMod(x: int, e: nat, n: nat): int
    requires 1 <= n
  {
    Power(x, e) % n
  }

  /** s without its i-th entry. */
  function Drop<T>(s: seq<T>, i: nat): (r: seq<T>)
    requires i < |s|
    ensures |r| == |s| - 1 && forall k :: 0 <= k < |r| ==> r[k] == if k < i then s[k] else s[k + 1]
  {
    s[..i] + s[i + 1..]
  }

  /** Raising to each exponent in turn. */
  function Chain(alt: int, es: seq<nat>, n: nat): int
    requires 1 <= n
  {
    if es == [] then alt else PowMod(Chain(alt, es[..|es| - 1], n), es[|es| - 1], n)
  }

  function Prod(es: seq<nat>): nat { if es == [] then 1 else Prod(es[..|es| - 1]) * es[|es| - 1] }

  lemma {:induction false} ChainConcat(alt: int, x: seq<nat>, y: seq<nat>, n: nat)
    requires 1 <= n
    ensures Chain(alt, x + y, n) == Chain(Chain(alt, x, n), y, n)
  {
    if y == [] {
      assert x + y == x;
    } else {
      var k := |y| - 1;
      assert (x + y)[..|x + y| - 1] == x + y[..k];
      ChainConcat(alt, x, y[..k], n);
    }
  }

  /** A chain of powers is one power, reduced as soon as there is an exponent. */
  lemma {:induction false} ChainIsPower(alt: int, es: seq<nat>, n: nat)
    requires 1 <= n
    ensures Cong(Chain(alt, es, n), Power(alt, Prod(es)), n)
    ensures es != [] ==> Chain(alt, es, n) == Power(alt, Prod(es)) % n
  {
    if es == [] {
      assert Power(alt, 1) == alt * Power(alt, 0);
    } else {
      var k := |es| - 1;
      ChainIsPower(alt, es[..k], n);
      PowerCong(Chain(alt, es[..k], n), Power(alt, Prod(es[..k])), es[k], n);
      PowerPower(alt, Prod(es[..k]), es[k]);
      CongMod(Power(Chain(alt, es[..k], n), es[k]), n);
    }
  }

  lemma {:induction false} ProdConcat(x: seq<nat>, y: seq<nat>)
    ensures Prod(x + y) == Prod(x) * Prod(y)
  {
    if y == [] {
      assert x + y == x;
    } else {
      var k := |y| - 1;
      assert (x + y)[..|x + y| - 1] == x + y[..k];
      ProdConcat(x, y[..k]);
      assert Prod(x) * Prod(y[..k]) * y[k] == Prod(x) * (Prod(y[..k]) * y[k]);
    }
  }

  /** The two orders of two lists of exponents give the same chain. */
  lemma ChainSwap(alt: int, x: seq<nat>, y: seq<nat>, n: nat)
    requires 1 <= n
    ensures Chain(alt, x + y, n) == Chain(alt, y + x, n)
  {
    ProdConcat(x, y);
    ProdConcat(y, x);
    if x + y == [] {
      assert y + x == [];
    } else {
      ChainIsPower(alt, x + y, n);
      ChainIsPower(alt, y + x, n);
    }
  }

  lemma DropProd(e: seq<nat>, i: nat)
    requires i < |e|
    ensures Prod(e) == e[i] * Prod(Drop(e, i))
  {
    hide *;
    SplitAt(e, i);
    ProdMiddle(e[..i], e[i], e[i + 1..]);
  }

  lemma SplitAt(e: seq<nat>, i: nat)
    requires i < |e|
    ensures e == e[..i] + ([e[i]] + e[i + 1..]) && Drop(e, i) == e[..i] + e[i + 1..]
  {
  }

  lemma ProdMiddle(x: seq<nat>, v: nat, z: seq<nat>)
    ensures Prod(x + ([v] + z)) == v * Prod(x + z)
  {
    hide *;
    ProdConcat(x, [v] + z);
    ProdConcat([v], z);
    ProdConcat(x, z);
    ProdOne(v);
    ThreeFactors(Prod(x), v, Prod(z), Prod([v] + z), Prod(x + z));
  }

  lemma ProdOne(v: nat)
    ensures Prod([v]) == v
  {
    assert [v][..0] == [];
  }

  lemma ThreeFactors(x: int, y: int, z: int, yz: int, xz: int)
    requires yz == y * z && xz == x * z
    ensures x * yz == y * xz
  {
  }

  // ---------------------------------------------------------------- generating S

  /** S[i] is a raised to every exponent but the i-th. */
  ghost predicate IsS(s: seq<int>, e: seq<nat>, a: int, n: nat)
    requires 1 <= n
  {
    |s| == |e| && forall i :: 0 <= i < |e| ==> s[i] == Chain(a, Drop(e, i), n)
  }

  /** There is only one such list, so the two generators below agree. */
  lemma SameS(s: seq<int>, t: seq<int>, e: seq<nat>, a: int, n: nat)
    requires 1 <= n && IsS(s, e, a, n) && IsS(t, e, a, n)
    ensures s == t
  {
  }

  /** `s_gen`: for each entry a loop over all the others. */
  method SGen(e: seq<nat>, a: int, n: nat) returns (s: seq<int>)
    requires 1 <= n
    ensures IsS(s, e, a, n)
  {
    s := [];
    for i := 0 to |e|
      invariant |s| == i && forall k :: 0 <= k < i ==> s[k] == Chain(a, Drop(e, k), n)
    {
      var alt := AllBut(e, a, n, i);
      s := s + [alt];
    }
  }

  /** The entries before k other than i. */
  function Skip(e: seq<nat>, i: nat, k: nat): seq<nat>
    requires i < |e| && k <= |e|
  {
    if k <= i then e[..k] else e[..i] + e[i + 1..k]
  }

  lemma SkipNext(e: seq<nat>, i: nat, k: nat)
    requires i < |e| && k < |e|
    ensures Skip(e, i, k + 1) == if k == i then Skip(e, i, k) else Skip(e, i, k) + [e[k]]
  {
  }

  lemma ChainSnoc(alt: int, es: seq<nat>, x: nat, n: nat)
    requires 1 <= n
    ensures Chain(alt, es + [x], n) == PowMod(Chain(alt, es, n), x, n)
  {
    assert (es + [x])[..|es|] == es;
  }

  /** The inner loop of `s_gen`. */
  method AllBut(e: seq<nat>, a: int, n: nat, i: nat) returns (alt: int)
    requires 1 <= n && i < |e|
    ensures alt == Chain(a, Drop(e, i), n)
  {
    alt := a;
    assert Skip(e, i, 0) == [];
    for j := 0 to |e|
      invariant alt == Chain(a, Skip(e, i, j), n)
    {
      SkipNext(e, i, j);
      if j == i { continue; }
      ChainSnoc(a, Skip(e, i, j), e[j], n);
      alt := PowMod(alt, e[j], n);
    }
    assert Skip(e, i, |e|) == Drop(e, i);
  }

  lemma OneMore(s: seq<nat>, from: nat, i: nat)
    requires from <= i < |s|
    ensures s[from..i + 1] == s[from..i] + [s[i]]
    ensures s[..i + 1] == s[..i] + [s[i]]
  {
  }

  lemma OnlyEntry(e: seq<nat>, a: int, n: nat)
    requires 1 <= n && |e| == 1
    ensures IsS([a], e, a, n)
  {
    assert Drop(e, 0) == [];
  }

  lemma NoExponents(a: int, n: nat)
    requires 1 <= n
    ensures Chain(a, [], n) == a
  {
  }

  /** `fast_gen`: each half is started from a raised to the exponents of the other half. None is the RecursionError
      of the empty list, which halves into itself for ever. */
  method FastGen(primes: seq<nat>, partialA: int, n: nat) returns (out: Option<seq<int>>)
    requires 1 <= n
    ensures out == None <==> primes == []
    ensures out.Some? ==> IsS(out.value, primes, partialA, n)
    decreases |primes|
  {
    hide Chain, Drop;
    if |primes| == 0 { return None; }
    if |primes| == 1 {
      OnlyEntry(primes, partialA, n);
      return Some([partialA]);
    }
    var half := |primes| / 2;
    var a1, a2 := [], [];
    var partialA1, partialA2 := partialA, partialA;
    NoExponents(partialA, n);
    for i := 0 to half
      invariant a1 == primes[..i] && partialA2 == Chain(partialA, primes[..i], n)
    {
      OneMore(primes, 0, i);
      ChainSnoc(partialA, primes[..i], primes[i], n);
      partialA2 := PowMod(partialA2, primes[i], n);
      a1 := a1 + [primes[i]];
    }
    for i := half to |primes|
      invariant a2 == primes[half..i] && partialA1 == Chain(partialA, primes[half..i], n)
    {
      OneMore(primes, half, i);
      ChainSnoc(partialA, primes[half..i], primes[i], n);
      partialA1 := PowMod(partialA1, primes[i], n);
      a2 := a2 + [primes[i]];
    }
    assert a2 == primes[half..];
    var r1 := FastGen(a1, partialA1, n);
    var r2 := FastGen(a2, partialA2, n);
    MergeHalves(primes, half, partialA, n, r1.value, r2.value);
    return Some(r1.value + r2.value);
  }

  lemma MergeHalves(e: seq<nat>, half: nat, a: int, n: nat, r1: seq<int>, r2: seq<int>)
    requires 1 <= n && half <= |e|
    requires IsS(r1, e[..half], Chain(a, e[half..], n), n) && IsS(r2, e[half..], Chain(a, e[..half], n), n)
    ensures IsS(r1 + r2, e, a, n)
  {
    hide Chain;
    var s, x, y := r1 + r2, e[..half], e[half..];
    forall i | 0 <= i < |e| ensures s[i] == Chain(a, Drop(e, i), n) {
      if i < half {
        assert Drop(e, i) == Drop(x, i) + y;
        ChainConcat(a, y, Drop(x, i), n);
        ChainSwap(a, y, Drop(x, i), n);
      } else {
        assert Drop(e, i) == x + Drop(y, i - half);
        ChainConcat(a, x, Drop(y, i - half), n);
      }
    }
  }

  // ---------------------------------------------------------------- committing

  /** One more factor: c * x^m. */
  function Times(c: int, x: int, m: nat, n: nat): int
    requires 1 <= n
  {
    c * PowMod(x, m, n) % n
  }

  lemma CommitSnoc(messages: seq<nat>, s: seq<int>, n: nat, k: nat)
    requires 1 <= n && |messages| == |s| && k < |s|
    ensures CommitValue(messages[..k + 1], s[..k + 1], n)
            == Times(CommitValue(messages[..k], s[..k], n), s[k], messages[k], n)
  {
    assert messages[..k + 1][..k] == messages[..k] && s[..k + 1][..k] == s[..k];
  }

  /** The product of S[j] ^ messages[j]. */
  function CommitValue(messages: seq<nat>, s: seq<int>, n: nat): int
    requires 1 <= n && |messages| == |s|
  {
    if s == [] then 1
    else
      var k := |s| - 1;
      Times(CommitValue(messages[..k], s[..k], n), s[k], messages[k], n)
  }

  /** `commit`. */
  method Commit(messages: seq<nat>, s: seq<int>, n: nat) returns (c: int)
    requires 1 <= n && |messages| == |s|
    ensures c == CommitValue(messages, s, n)
  {
    c := 1;
    for i := 0 to |messages|
      invariant c == CommitValue(messages[..i], s[..i], n)
    {
      CommitSnoc(messages, s, n, i);
      c := Times(c, s[i], messages[i], n);
    }
    assert messages[..|messages|] == messages && s[..|s|] == s;
  }

  /** The exponent of a in the first k factors of a commitment. */
  function Exponent(messages: seq<nat>, e: seq<nat>, k: nat): nat
    requires k <= |messages| == |e|
  {
    if k == 0 then 0 else Exponent(messages, e, k - 1) + Prod(Drop(e, k - 1)) * messages[k - 1]
  }

  lemma {:induction false} CommitIsPower(messages: seq<nat>, s: seq<int>, e: seq<nat>, a: int, n: nat, k: nat)
    requires 1 <= n && IsS(s, e, a, n) && k <= |messages| == |e|
    ensures Cong(CommitValue(messages[..k], s[..k], n), Power(a, Exponent(messages, e, k)), n)
  {
    if k > 0 {
      var j := k - 1;
      assert messages[..k][..j] == messages[..j] && s[..k][..j] == s[..j];
      CommitIsPower(messages, s, e, a, n, j);
      ChainIsPower(a, Drop(e, j), n);
      PowerCong(s[j], Power(a, Prod(Drop(e, j))), messages[j], n);
      PowerPower(a, Prod(Drop(e, j)), messages[j]);
      PowerAdd(a, Exponent(messages, e, j), Prod(Drop(e, j)) * messages[j]);
      Accumulate(n, CommitValue(messages[..j], s[..j], n), Power(a, Exponent(messages, e, j)),
                 Power(s[j], messages[j]), Power(a, Prod(Drop(e, j)) * messages[j]));
    }
  }

  lemma Accumulate(n: nat, c: int, x: int, f: int, y: int)
    requires 1 <= n && Cong(c, x, n) && Cong(f, y, n)
    ensures Cong(c * (f % n) % n, x * y, n)
  {
    CongMod(f, n);
    CongMul(c, x, f % n, y, n);
    CongMod(c * (f % n), n);
  }

  // ---------------------------------------------------------------- opening

  /** The S values of a list of exponents. */
  function SList(e: seq<nat>, a: int, n: nat): (s: seq<int>)
    requires 1 <= n
    ensures IsS(s, e, a, n)
  {
    seq(|e|, i requires 0 <= i < |e| => Chain(a, Drop(e, i), n))
  }

  /** The opening of entry i: a commitment to the other entries, without the i-th exponent. */
  function OpenValue(messages: seq<nat>, e: seq<nat>, a: int, n: nat, i: nat): int
    requires 1 <= n && |messages| == |e| && i < |e|
  {
    CommitValue(Drop(messages, i), SList(Drop(e, i), a, n), n)
  }

  /** Python's `list.remove`. */
  method RemoveFirst(s: seq<nat>, x: nat) returns (r: seq<nat>, ghost k: nat)
    requires x in s
    ensures k < |s| && s[k] == x && x !in s[..k] && r == Drop(s, k)
  {
    var i := 0;
    while s[i] != x
      invariant 0 <= i < |s| && x !in s[..i] && x in s[i..]
      decreases |s| - i
    {
      assert s[i..] == [s[i]] + s[i + 1..];
      assert s[..i + 1] == s[..i] + [s[i]];
      i := i + 1;
    }
    k := i;
    r := Drop(s, i);
  }

  /** Where `list.remove` finds x. */
  function FirstIndex(s: seq<nat>, x: nat): (k: nat)
    requires x in s
    ensures k < |s| && s[k] == x && x !in s[..k]
  {
    if s[0] == x then 0 else 1 + FirstIndex(s[1..], x)
  }

  /** The exponents that `open` works with: the first one equal to e[i] is gone. */
  function Remaining(e: seq<nat>, i: nat): (x: seq<nat>)
    requires i < |e|
    ensures |x| == |e| - 1
  {
    Drop(e, FirstIndex(e, e[i]))
  }

  /** The commitment to the other entries under the remaining exponents. */
  function OpenedValue(messages: seq<nat>, e: seq<nat>, a: int, n: nat, i: nat): int
    requires 1 <= n && |messages| == |e| && i < |e|
  {
    CommitValue(Drop(messages, i), SList(Remaining(e, i), a, n), n)
  }

  /** `open`, by fast_gen on the remaining exponents; the exponent taken out is the first one equal to e[i]. */
  method Open(messages: seq<nat>, e: seq<nat>, a: int, n: nat, i: nat) returns (prod: Option<int>)
    requires 1 <= n && |messages| == |e| && i < |e|
    ensures prod == None <==> |e| == 1
    ensures prod.Some? ==> prod.value == OpenedValue(messages, e, a, n, i)
    ensures prod.Some? && (forall j :: FirstIndex(e, e[i]) <= j <= i ==> e[j] == e[i]) ==>
              prod.value == OpenValue(messages, e, a, n, i)
  {
    hide CommitValue, Times, Chain;
    var newlist, k := RemoveFirst(e, e[i]);
    FirstIs(e, e[i], FirstIndex(e, e[i]), k);
    var fgen := FastGen(newlist, a, n);
    if fgen == None { return None; }
    SameS(fgen.value, SList(newlist, a, n), newlist, a, n);
    var value := CommitSkipping(messages, fgen.value, n, i);
    SameListIff(e, k, i);
    return Some(value);
  }

  lemma FirstIs(e: seq<nat>, x: nat, i: nat, k: nat)
    requires i < |e| && k < |e| && e[k] == e[i] == x && x !in e[..k] && x !in e[..i]
    ensures k == i
  {
  }

  /** Taking out entry k or entry i leaves the same list exactly when the entries between are all the same. */
  lemma SameListIff(e: seq<nat>, k: nat, i: nat)
    requires k <= i < |e|
    ensures Drop(e, k) == Drop(e, i) <==> forall j :: k <= j <= i ==> e[j] == e[i]
  {
    if Drop(e, k) == Drop(e, i) {
      forall j | k <= j <= i ensures e[j] == e[i] { AllSame(e, k, i, j); }
    }
  }

  lemma {:induction false} AllSame(e: seq<nat>, k: nat, i: nat, j: nat)
    requires k <= j <= i < |e| && Drop(e, k) == Drop(e, i)
    ensures e[j] == e[i]
    decreases i - j
  {
    if j < i {
      AllSame(e, k, i, j + 1);
      assert Drop(e, k)[j] == e[j + 1] && Drop(e, i)[j] == e[j];
    }
  }

  /** With exponents 3, 5, 3 the opening of the last entry is not the one `slow_open` computes. */
  lemma RepeatedExponent(messages: seq<nat>, e: seq<nat>)
    requires messages == [1, 0, 0] && e == [3, 5, 3]
    ensures OpenedValue(messages, e, 2, 101, 2) != OpenValue(messages, e, 2, 101, 2)
  {
    hide CommitValue, SList, Drop, Chain;
    SmallDrops(messages, e);
    SmallLists();
    FirstOnly(8, 32);
    FirstOnly(32, 8);
  }

  lemma SmallDrops(messages: seq<nat>, e: seq<nat>)
    requires messages == [1, 0, 0] && e == [3, 5, 3]
    ensures Drop(messages, 2) == [1, 0] && Drop(e, 0) == [5, 3] && Drop(e, 2) == [3, 5] && FirstIndex(e, e[2]) == 0
  {
  }

  lemma SmallLists()
    ensures SList([5, 3], 2, 101) == [8, 32] && SList([3, 5], 2, 101) == [32, 8]
  {
    hide Chain;
    SmallPowers();
    assert Drop([5, 3], 0) == [3] && Drop([5, 3], 1) == [5] && Drop([3, 5], 0) == [5] && Drop([3, 5], 1) == [3];
  }

  lemma SmallPowers()
    ensures Chain(2, [3], 101) == 8 && Chain(2, [5], 101) == 32
  {
    assert [3][..0] == [] && [5][..0] == [];
    assert Power(2, 3) == 8 && Power(2, 5) == 32;
  }

  lemma FirstOnly(x: nat, y: nat)
    requires x < 101
    ensures CommitValue([1, 0], [x, y], 101) == x
  {
    assert [1, 0][..1] == [1] && [x, y][..1] == [x] && [1][..0] == [] && [x][..0] == [];
    assert Power(x, 1) == x * Power(x, 0) == x;
    assert Power(y, 0) == 1;
    assert CommitValue([1], [x], 101) == Times(1, x, 1, 101) == x;
  }

  /** The loop of `open`: the message counter steps over entry i, whose S value is gone. */
  method CommitSkipping(messages: seq<nat>, fgen: seq<int>, n: nat, i: nat) returns (prod: int)
    requires 1 <= n && i < |messages| == |fgen| + 1
    ensures prod == CommitValue(Drop(messages, i), fgen, n)
  {
    hide CommitValue, Times;
    ghost var kept := Drop(messages, i);
    prod := 1;
    EmptyCommit(kept[..0], fgen[..0], n);
    var messageInc := 0;
    for j := 0 to |fgen|
      invariant messageInc == if j <= i then j else j + 1
      invariant prod == CommitValue(kept[..j], fgen[..j], n)
    {
      if messageInc == i { messageInc := messageInc + 1; }
      CommitSnoc(kept, fgen, n, j);
      prod := Times(prod, fgen[j], messages[messageInc], n);
      messageInc := messageInc + 1;
    }
    assert kept[..|fgen|] == kept && fgen[..|fgen|] == fgen;
  }

  lemma EmptyCommit(messages: seq<nat>, s: seq<int>, n: nat)
    requires 1 <= n && |messages| == |s| == 0
    ensures CommitValue(messages, s, n) == 1
  {
  }

  /** The entries before k other than lo and hi. */
  function Kept(e: seq<nat>, lo: nat, hi: nat, k: nat): seq<nat>
    requires lo < hi < |e| && k <= |e|
  {
    if k <= lo then e[..k] else if k <= hi then e[..lo] + e[lo + 1..k] else e[..lo] + e[lo + 1..hi] + e[hi + 1..k]
  }

  lemma KeptNext(e: seq<nat>, lo: nat, hi: nat, k: nat)
    requires lo < hi < |e| && k < |e|
    ensures Kept(e, lo, hi, k + 1) == if k == lo || k == hi then Kept(e, lo, hi, k) else Kept(e, lo, hi, k) + [e[k]]
  {
    if k < lo {
      OneMore(e, 0, k);
    } else if k == lo {
      assert e[lo + 1..lo + 1] == [];
    } else if k < hi {
      OneMore(e, lo + 1, k);
      assert e[..lo] + (e[lo + 1..k] + [e[k]]) == e[..lo] + e[lo + 1..k] + [e[k]];
    } else if k == hi {
      assert e[hi + 1..hi + 1] == [];
    } else {
      OneMore(e, hi + 1, k);
      var before := e[..lo] + e[lo + 1..hi];
      assert before + (e[hi + 1..k] + [e[k]]) == before + e[hi + 1..k] + [e[k]];
    }
  }

  lemma ChainNone(e: seq<nat>, lo: nat, hi: nat, a: int, n: nat)
    requires 1 <= n && lo < hi < |e|
    ensures Chain(a, Kept(e, lo, hi, 0), n) == a
  {
    assert Kept(e, lo, hi, 0) == [];
  }

  /** The position of entry j once entry i is gone. */
  function Shifted(i: nat, j: nat): (r: nat)
    requires i != j
  {
    if j < i then j else j - 1
  }

  lemma DropTwo(e: seq<nat>, i: nat, j: nat)
    requires i != j && i < |e| && j < |e|
    ensures var lo, hi := if i < j then i else j, if i < j then j else i;
            Kept(e, lo, hi, |e|) == Drop(Drop(e, i), Shifted(i, j)) == Drop(Drop(e, j), Shifted(j, i))
  {
    var lo, hi := if i < j then i else j, if i < j then j else i;
    DropLowThenHigh(e, lo, hi);
    DropHighThenLow(e, lo, hi);
  }

  lemma DropLowThenHigh(e: seq<nat>, lo: nat, hi: nat)
    requires lo < hi < |e|
    ensures Drop(Drop(e, lo), hi - 1) == Kept(e, lo, hi, |e|)
  {
  }

  lemma DropHighThenLow(e: seq<nat>, lo: nat, hi: nat)
    requires lo < hi < |e|
    ensures Drop(Drop(e, hi), lo) == Kept(e, lo, hi, |e|)
  {
  }

  /** `slow_open`: every factor computed by its own loop. */
  method SlowOpen(messages: seq<nat>, e: seq<nat>, a: int, n: nat, i: nat) returns (prod: int)
    requires 1 <= n && |messages| == |e| && i < |e|
    ensures prod == OpenValue(messages, e, a, n, i)
  {
    hide CommitValue, Times, Chain, SList;
    prod := 1;
    ghost var keptM, keptS := Drop(messages, i), SList(Drop(e, i), a, n);
    EmptyCommit(keptM[..0], keptS[..0], n);
    for j := 0 to |messages|
      invariant prod == (var c := if j <= i then j else j - 1; CommitValue(keptM[..c], keptS[..c], n))
    {
      if j == i { continue; }
      var alt := OtherPowers(e, a, n, i, j);
      ghost var c := Shifted(i, j);
      CommitSnoc(keptM, keptS, n, c);
      assert keptS[c] == alt && keptM[c] == messages[j];
      prod := Times(prod, alt, messages[j], n);
    }
    assert keptM[..|messages| - 1] == keptM && keptS[..|messages| - 1] == keptS;
  }

  /** The inner loop of `slow_open`: a raised to every exponent but two. */
  method OtherPowers(e: seq<nat>, a: int, n: nat, i: nat, j: nat) returns (alt: int)
    requires 1 <= n && i != j && i < |e| && j < |e|
    ensures alt == Chain(a, Drop(Drop(e, i), Shifted(i, j)), n)
  {
    hide Chain, Kept, Drop;
    alt := a;
    ghost var lo, hi := if i < j then i else j, if i < j then j else i;
    ChainNone(e, lo, hi, a, n);
    for k := 0 to |e|
      invariant alt == Chain(a, Kept(e, lo, hi, k), n)
    {
      KeptNext(e, lo, hi, k);
      if k == i || k == j { continue; }
      ChainSnoc(a, Kept(e, lo, hi, k), e[k], n);
      alt := PowMod(alt, e[k], n);
    }
    DropTwo(e, i, j);
  }

  // ---------------------------------------------------------------- verifying

  /** `verify`. */
  predicate Verify(c: int, m: nat, i: nat, proof: int, s: seq<int>, e: seq<nat>, n: nat)
    requires 1 <= n && i < |s| == |e|
  {
    c == PowMod(proof, e[i], n) * PowMod(s[i], m, n) % n
  }

  /** The exponent of a commitment, split at entry i. */
  lemma {:induction false} SplitExponent(messages: seq<nat>, e: seq<nat>, i: nat, k: nat)
    requires |messages| == |e| && i < |e| && k <= |e|
    ensures Exponent(messages, e, k) ==
            if k <= i then e[i] * Exponent(Drop(messages, i), Drop(e, i), k)
            else e[i] * Exponent(Drop(messages, i), Drop(e, i), k - 1) + Prod(Drop(e, i)) * messages[i]
  {
    hide Exponent, Prod, Drop;
    if k == 0 {
      EmptyExponent(messages, e);
      EmptyExponent(Drop(messages, i), Drop(e, i));
    } else {
      SplitExponent(messages, e, i, k - 1);
      ExponentNext(messages, e, k - 1);
      if k - 1 != i { SplitStep(messages, e, i, k - 1); }
    }
  }

  lemma EmptyExponent(messages: seq<nat>, e: seq<nat>)
    requires |messages| == |e|
    ensures Exponent(messages, e, 0) == 0
  {
  }

  lemma SplitStep(messages: seq<nat>, e: seq<nat>, i: nat, j: nat)
    requires |messages| == |e| && i < |e| && j < |e| && i != j
    ensures var m1, e1, c := Drop(messages, i), Drop(e, i), Shifted(i, j);
            Prod(Drop(e, j)) * messages[j] == e[i] * Exponent(m1, e1, c + 1) - e[i] * Exponent(m1, e1, c)
  {
    var m1, e1, c := Drop(messages, i), Drop(e, i), Shifted(i, j);
    assert m1[c] == messages[j];
    ProdWithout(e, i, j);
    ExponentNext(m1, e1, c);
    hide *;
    FactorOut(e[i], Exponent(m1, e1, c), Prod(Drop(e1, c)), messages[j], Exponent(m1, e1, c + 1), Prod(Drop(e, j)));
  }

  lemma ExponentNext(messages: seq<nat>, e: seq<nat>, k: nat)
    requires k < |messages| == |e|
    ensures Exponent(messages, e, k + 1) == Exponent(messages, e, k) + Prod(Drop(e, k)) * messages[k]
  {
  }

  lemma ProdWithout(e: seq<nat>, i: nat, j: nat)
    requires i != j && i < |e| && j < |e|
    ensures Prod(Drop(e, j)) == e[i] * Prod(Drop(Drop(e, i), Shifted(i, j)))
  {
    DropProd(Drop(e, j), Shifted(j, i));
    DropTwo(e, i, j);
    assert Drop(e, j)[Shifted(j, i)] == e[i];
  }

  lemma FactorOut(x: int, sum: int, p: int, m: int, next: int, xp: int)
    requires next == sum + p * m && xp == x * p
    ensures xp * m == x * next - x * sum
  {
    assert x * (sum + p * m) == x * sum + (x * p) * m;
  }

  /** Every honest opening verifies against the honest commitment. */
  lemma Completeness(messages: seq<nat>, e: seq<nat>, a: int, n: nat, i: nat)
    requires 1 <= n && |messages| == |e| && i < |e|
    ensures Verify(CommitValue(messages, SList(e, a, n), n), messages[i], i, OpenValue(messages, e, a, n, i),
                   SList(e, a, n), e, n)
  {
    hide CommitValue, OpenValue, Exponent, Prod, Chain, SList, IsS, Power, PowMod, Drop;
    var s, m1, e1 := SList(e, a, n), Drop(messages, i), Drop(e, i);
    WholeCommit(messages, e, a, n);
    OpenIsCommit(messages, e, a, n, i);
    CommitReduced(messages, s, n);
    SplitExponent(messages, e, i, |e|);
    VerifyFromPowers(a, n, CommitValue(messages, s, n), Exponent(messages, e, |e|), OpenValue(messages, e, a, n, i),
                     Exponent(m1, e1, |e1|), e[i], s[i], Prod(e1), messages[i]);
  }

  /** The opening and the i-th S value as powers of a. */
  lemma OpenIsCommit(messages: seq<nat>, e: seq<nat>, a: int, n: nat, i: nat)
    requires 1 <= n && |messages| == |e| && i < |e|
    ensures Cong(OpenValue(messages, e, a, n, i), Power(a, Exponent(Drop(messages, i), Drop(e, i), |e| - 1)), n)
    ensures |SList(e, a, n)| == |e| && Cong(SList(e, a, n)[i], Power(a, Prod(Drop(e, i))), n)
  {
    hide CommitValue, Exponent, Prod, Chain, Power;
    WholeCommit(Drop(messages, i), Drop(e, i), a, n);
    ChainIsPower(a, Drop(e, i), n);
  }

  lemma VerifyFromPowers(a: int, n: nat, c: int, total: nat, proof: int, x: nat, u: nat, h: int, y: nat, v: nat)
    requires 1 <= n && 0 <= c < n && Cong(c, Power(a, total), n) && Cong(proof, Power(a, x), n)
             && Cong(h, Power(a, y), n)
    requires total == u * x + y * v
    ensures c == PowMod(proof, u, n) * PowMod(h, v, n) % n
  {
    ProductOfPowers(a, n, proof, x, u, h, y, v);
    assert x * u == u * x;
    ResidueUnique(c, PowMod(proof, u, n) * PowMod(h, v, n) % n, n);
  }

  lemma WholeCommit(messages: seq<nat>, e: seq<nat>, a: int, n: nat)
    requires 1 <= n && |messages| == |e|
    ensures Cong(CommitValue(messages, SList(e, a, n), n), Power(a, Exponent(messages, e, |e|)), n)
  {
    var s := SList(e, a, n);
    assert messages[..|e|] == messages && s[..|e|] == s;
    CommitIsPower(messages, s, e, a, n, |e|);
  }

  /** (a^x)^u (a^y)^v is a^(x u + y v). */
  lemma ProductOfPowers(a: int, n: nat, g: int, x: nat, u: nat, h: int, y: nat, v: nat)
    requires 1 <= n && Cong(g, Power(a, x), n) && Cong(h, Power(a, y), n)
    ensures 0 <= PowMod(g, u, n) * PowMod(h, v, n) % n < n
    ensures Cong(PowMod(g, u, n) * PowMod(h, v, n) % n, Power(a, x * u + y * v), n)
  {
    PowerCong(g, Power(a, x), u, n);
    PowerPower(a, x, u);
    PowerCong(h, Power(a, y), v, n);
    PowerPower(a, y, v);
    PowerAdd(a, x * u, y * v);
    CongMod(Power(g, u), n);
    Accumulate(n, PowMod(g, u, n), Power(a, x * u), Power(h, v), Power(a, y * v));
  }

  lemma CommitReduced(messages: seq<nat>, s: seq<int>, n: nat)
    requires 1 <= n && |messages| == |s| > 0
    ensures 0 <= CommitValue(messages, s, n) < n
  {
  }
}
