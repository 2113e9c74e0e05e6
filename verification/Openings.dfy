// When the fast `open` of vc.py gives the opening of slow_open, and when verify accepts what it gives.
module Openings {
  import opened Arithmetic
  import opened PrimeFields
  import opened Polynomials
  import opened VectorCommitment

  /** `open` agrees with slow_open on all messages, bases and moduli. */
  ghost predicate AlwaysRight(e: seq<nat>, i: nat)
    requires i < |e|
  {
    forall messages: seq<nat>, a: int, n: nat | 1 <= n && |messages| == |e| ::
      OpenedValue(messages, e, a, n, i) == OpenValue(messages, e, a, n, i)
  }

  /** verify accepts the opening computed by `open` for an honest commitment. */
  predicate Accepted(messages: seq<nat>, e: seq<nat>, a: int, n: nat, i: nat)
    requires 1 <= n && |messages| == |e| && i < |e|
  {
    var s := SList(e, a, n);
    Verify(CommitValue(messages, s, n), messages[i], i, OpenedValue(messages, e, a, n, i), s, e, n)
  }

  ghost predicate AlwaysAccepted(e: seq<nat>, i: nat)
    requires i < |e|
  {
    forall messages: seq<nat>, a: int, n: nat | 1 <= n && |messages| == |e| :: Accepted(messages, e, a, n, i)
  }

  /** Leaving out any one entry leaves the same product. */
  ghost predicate SameProducts(x: seq<nat>, y: seq<nat>) {
    |x| == |y| && forall j :: 0 <= j < |x| ==> Prod(Drop(x, j)) == Prod(Drop(y, j))
  }

  // ---------------------------------------------------------------- equal products are enough

  lemma {:induction false} SameExponents(messages: seq<nat>, x: seq<nat>, y: seq<nat>, k: nat)
    requires |messages| == |x| && SameProducts(x, y) && k <= |x|
    ensures Exponent(messages, x, k) == Exponent(messages, y, k)
  {
    hide Prod, Drop;
    if k > 0 { SameExponents(messages, x, y, k - 1); }
  }

  /** The value of a commitment is determined by its exponent. */
  lemma CommitByExponent(messages: seq<nat>, x: seq<nat>, a: int, n: nat)
    requires 1 <= n && |messages| == |x|
    ensures x != [] ==>
              CommitValue(messages, SList(x, a, n), n) == Power(a, Exponent(messages, x, |x|)) % n
    ensures x == [] ==> CommitValue(messages, SList(x, a, n), n) == 1
  {
    hide CommitValue, SList, Exponent, Power;
    if x == [] {
      EmptyCommit(messages, SList(x, a, n), n);
    } else {
      WholeCommit(messages, x, a, n);
      CommitReduced(messages, SList(x, a, n), n);
      Reduced(CommitValue(messages, SList(x, a, n), n), Power(a, Exponent(messages, x, |x|)), n);
    }
  }

  lemma Reduced(c: int, x: int, n: nat)
    requires 1 <= n && 0 <= c < n && Cong(c, x, n)
    ensures c == x % n
  {
    DivModUnique(c, n, 0, c);
  }

  lemma SameValue(messages: seq<nat>, e: seq<nat>, a: int, n: nat, i: nat)
    requires 1 <= n && |messages| == |e| && i < |e| && SameProducts(Remaining(e, i), Drop(e, i))
    ensures OpenedValue(messages, e, a, n, i) == OpenValue(messages, e, a, n, i)
  {
    hide CommitValue, SList, Exponent, Power, SameProducts;
    var kept, x, y := Drop(messages, i), Remaining(e, i), Drop(e, i);
    SameExponents(kept, x, y, |x|);
    CommitByExponent(kept, x, a, n);
    CommitByExponent(kept, y, a, n);
  }

  // ---------------------------------------------------------------- and needed

  /** The message 1 at place j and 0 elsewhere. */
  function UnitMessage(len: nat, j: nat): (u: seq<nat>)
    ensures |u| == len
  {
    seq(len, k => if k == j then 1 else 0)
  }

  lemma {:induction false} UnitExponent(x: seq<nat>, j: nat, k: nat)
    requires j < |x| && k <= |x|
    ensures Exponent(UnitMessage(|x|, j), x, k) == if k <= j then 0 else Prod(Drop(x, j))
  {
    hide Prod, Drop;
    if k > 0 { UnitExponent(x, j, k - 1); }
  }

  /** The messages that leave the unit message once entry i is gone. */
  lemma WithZero(u: seq<nat>, i: nat) returns (messages: seq<nat>)
    requires i <= |u|
    ensures |messages| == |u| + 1 && messages[i] == 0 && Drop(messages, i) == u
  {
    messages := u[..i] + [0] + u[i..];
  }

  lemma {:induction false} PowersGrow(p: nat, q: nat)
    requires p < q
    ensures 1 <= Power(2, p) < Power(2, q)
    decreases q
  {
    if p > 0 {
      PowersGrow(p - 1, q - 1);
    } else if q > 1 {
      PowersGrow(0, q - 1);
    } else {
      assert Power(2, 0) == 1;
    }
  }

  /** A modulus above two different powers of 2 keeps them apart. */
  lemma KeptApart(p: nat, q: nat) returns (n: nat)
    requires p != q
    ensures 1 <= n && Power(2, p) % n != Power(2, q) % n
  {
    if p < q { PowersGrow(p, q); } else { PowersGrow(q, p); }
    var x, y := Power(2, p), Power(2, q);
    n := x + y;
    DivModUnique(x, n, 0, x);
    DivModUnique(y, n, 0, y);
  }

  /** A place where the products differ makes a unit message whose opening comes out wrong, with base 2. */
  lemma WrongValue(e: seq<nat>, i: nat, j: nat) returns (messages: seq<nat>, n: nat)
    requires i < |e| && j < |e| - 1 && Prod(Drop(Remaining(e, i), j)) != Prod(Drop(Drop(e, i), j))
    ensures 1 <= n && |messages| == |e|
            && OpenedValue(messages, e, 2, n, i) != OpenValue(messages, e, 2, n, i)
  {
    hide CommitValue, SList, Exponent, Power, Prod, Remaining;
    var x, y := Remaining(e, i), Drop(e, i);
    messages := WithZero(UnitMessage(|x|, j), i);
    n := KeptApart(Prod(Drop(x, j)), Prod(Drop(y, j)));
    UnitCommit(x, j, n);
    UnitCommit(y, j, n);
  }

  lemma UnitCommit(x: seq<nat>, j: nat, n: nat)
    requires 1 <= n && j < |x|
    ensures CommitValue(UnitMessage(|x|, j), SList(x, 2, n), n) == Power(2, Prod(Drop(x, j))) % n
  {
    hide *;
    CommitByExponent(UnitMessage(|x|, j), x, 2, n);
    UnitExponent(x, j, |x|);
  }

  /** For all exponents, repeated or zero: `open` is always right exactly when the remaining exponents have the products
      of the intended ones. */
  lemma AlwaysRightIff(e: seq<nat>, i: nat)
    requires i < |e|
    ensures AlwaysRight(e, i) <==> SameProducts(Remaining(e, i), Drop(e, i))
  {
    hide OpenedValue, OpenValue, Prod, Remaining;
    var x, y := Remaining(e, i), Drop(e, i);
    if SameProducts(x, y) {
      forall messages: seq<nat>, a: int, n: nat | 1 <= n && |messages| == |e|
        ensures OpenedValue(messages, e, a, n, i) == OpenValue(messages, e, a, n, i)
      {
        SameValue(messages, e, a, n, i);
      }
    } else {
      var j :| 0 <= j < |x| && Prod(Drop(x, j)) != Prod(Drop(y, j));
      var messages, n := WrongValue(e, i, j);
    }
  }

  // ---------------------------------------------------------------- what verify accepts

  /** For an honest commitment verify accepts exactly the proofs and messages that multiply to what the opening of
      slow_open and the committed message do. */
  lemma VerifyExactly(messages: seq<nat>, e: seq<nat>, a: int, n: nat, i: nat, m: nat, proof: int)
    requires 1 <= n && |messages| == |e| && i < |e|
    ensures var s := SList(e, a, n);
            Verify(CommitValue(messages, s, n), m, i, proof, s, e, n)
            <==> Cong(Power(proof, e[i]) * Power(s[i], m),
                      Power(OpenValue(messages, e, a, n, i), e[i]) * Power(s[i], messages[i]), n)
  {
    hide CommitValue, OpenValue, SList, Power;
    var s, right := SList(e, a, n), OpenValue(messages, e, a, n, i);
    Completeness(messages, e, a, n, i);
    ReducedProduct(Power(proof, e[i]), Power(s[i], m), n);
    ReducedProduct(Power(right, e[i]), Power(s[i], messages[i]), n);
  }

  lemma ReducedProduct(x: int, y: int, n: nat)
    requires 1 <= n
    ensures (x % n) * (y % n) % n == x * y % n
  {
    CongMod(x, n);
    CongMod(y, n);
    CongMul(x % n, x, y % n, y, n);
  }

  /** With a base that is a unit, as in RSA, the accepted proofs for the committed message are exactly the roots of the
      e[i]-th power of the right opening. */
  lemma AcceptedProofs(messages: seq<nat>, e: seq<nat>, a: int, n: nat, i: nat, proof: int, inverse: int)
    requires 1 <= n && |messages| == |e| && i < |e| && Cong(a * inverse, 1, n)
    ensures var s := SList(e, a, n);
            Verify(CommitValue(messages, s, n), messages[i], i, proof, s, e, n)
            <==> Cong(Power(proof, e[i]), Power(OpenValue(messages, e, a, n, i), e[i]), n)
  {
    hide CommitValue, OpenValue, SList, Power, Verify, Cong;
    VerifyExactly(messages, e, a, n, i, messages[i], proof);
    var h, m := SList(e, a, n)[i], messages[i];
    OpenIsCommit(messages, e, a, n, i);
    var k := Prod(Drop(e, i)) * m;
    PowerCong(h, Power(a, Prod(Drop(e, i))), m, n);
    PowerPower(a, Prod(Drop(e, i)), m);
    UnitPower(a, inverse, k, n);
    CancelUnit(Power(proof, e[i]), Power(OpenValue(messages, e, a, n, i), e[i]), Power(h, m), Power(a, k),
               Power(inverse, k), n);
  }

  lemma {:induction false} UnitPower(a: int, inverse: int, k: nat, n: nat)
    requires 1 <= n && Cong(a * inverse, 1, n)
    ensures Cong(Power(a, k) * Power(inverse, k), 1, n)
  {
    if k > 0 {
      UnitPower(a, inverse, k - 1, n);
      CongMul(a * inverse, 1, Power(a, k - 1) * Power(inverse, k - 1), 1, n);
      Regroup(a, Power(a, k - 1), inverse, Power(inverse, k - 1));
    }
  }

  lemma Regroup(a: int, x: int, b: int, y: int)
    ensures a * b * (x * y) == (a * x) * (b * y)
  {
  }

  lemma CancelUnit(x: int, y: int, h: int, u: int, v: int, n: nat)
    requires 1 <= n && Cong(h, u, n) && Cong(u * v, 1, n)
    ensures Cong(x * h, y * h, n) <==> Cong(x, y, n)
  {
    hide Cong;
    if Cong(x, y, n) { CongSelf(h, n); CongMul(x, y, h, h, n); }
    if Cong(x * h, y * h, n) {
      CongSelf(v, n);
      CongMul(h, u, v, v, n);
      CongTrans(h * v, u * v, 1, n);
      CongMul(x * h, y * h, v, v, n);
      TimesUnit(x, h, v, n);
      TimesUnit(y, h, v, n);
      CongTurn(x * h * v, x, n);
      CongTrans(x, x * h * v, y * h * v, n);
      CongTrans(x, y * h * v, y, n);
    }
  }

  lemma CongSelf(x: int, n: nat)
    requires 1 <= n
    ensures Cong(x, x, n)
  {
  }

  lemma CongTurn(x: int, y: int, n: nat)
    requires 1 <= n && Cong(x, y, n)
    ensures Cong(y, x, n)
  {
  }

  lemma TimesUnit(x: int, h: int, v: int, n: nat)
    requires 1 <= n && Cong(h * v, 1, n)
    ensures Cong(x * h * v, x, n)
  {
    CongSelf(x, n);
    CongMul(x, x, h * v, 1, n);
    assert x * (h * v) == x * h * v;
  }

  /** A wrong opening that verify rejects. */
  lemma Rejected(e: seq<nat>, i: nat, j: nat) returns (messages: seq<nat>, n: nat)
    requires i < |e| && j < |e| - 1 && Prod(Drop(Remaining(e, i), j)) != Prod(Drop(Drop(e, i), j)) && e[i] > 0
    ensures 1 <= n && |messages| == |e| && !Accepted(messages, e, 2, n, i)
  {
    hide CommitValue, SList, Power, Prod, Remaining, Accepted;
    var x, y, u := Remaining(e, i), Drop(e, i), e[i];
    var p, q := Prod(Drop(x, j)), Prod(Drop(y, j));
    messages := WithZero(UnitMessage(|x|, j), i);
    DifferentMultiples(p, q, u);
    n := KeptApart(p * u, q * u);
    UnitCommit(x, j, n);
    UnitCommit(y, j, n);
    PowersTellApart(p, q, u, n);
    AcceptedZero(messages, e, 2, n, i);
  }

  /** Without the factor of S[i], only the e[i]-th powers of the two openings are compared. */
  lemma AcceptedZero(messages: seq<nat>, e: seq<nat>, a: int, n: nat, i: nat)
    requires 1 <= n && |messages| == |e| && i < |e| && messages[i] == 0
    ensures Accepted(messages, e, a, n, i)
            <==> Cong(Power(OpenedValue(messages, e, a, n, i), e[i]), Power(OpenValue(messages, e, a, n, i), e[i]), n)
  {
    hide CommitValue, OpenedValue, OpenValue, SList, Power, Verify, Cong;
    VerifyExactly(messages, e, a, n, i, 0, OpenedValue(messages, e, a, n, i));
    ZeroPower(SList(e, a, n)[i]);
  }

  lemma PowersTellApart(p: nat, q: nat, u: nat, n: nat)
    requires 1 <= n && Power(2, p * u) % n != Power(2, q * u) % n
    ensures !Cong(Power(Power(2, p) % n, u), Power(Power(2, q) % n, u), n)
  {
    PowerOfResidue(p, u, n);
    PowerOfResidue(q, u, n);
  }

  lemma DifferentMultiples(p: nat, q: nat, u: nat)
    requires p != q && 0 < u
    ensures p * u != q * u
  {
    assert (p - q) * u != 0;
  }

  lemma PowerOfResidue(p: nat, u: nat, n: nat)
    requires 1 <= n
    ensures Cong(Power(Power(2, p) % n, u), Power(2, p * u), n)
  {
    CongMod(Power(2, p), n);
    PowerCong(Power(2, p) % n, Power(2, p), u, n);
    PowerPower(2, p, u);
  }

  lemma ZeroPower(x: int)
    ensures Power(x, 0) == 1
  {
  }

  /** For all exponents: what `open` computes is always accepted exactly when it is always right, or e[i] is 0. */
  lemma AlwaysAcceptedIff(e: seq<nat>, i: nat)
    requires i < |e|
    ensures AlwaysAccepted(e, i) <==> e[i] == 0 || AlwaysRight(e, i)
  {
    hide OpenedValue, OpenValue, Accepted, Prod, Remaining, SList, CommitValue, Verify, SameProducts;
    AlwaysRightIff(e, i);
    if e[i] == 0 || AlwaysRight(e, i) {
      forall messages: seq<nat>, a: int, n: nat | 1 <= n && |messages| == |e|
        ensures Accepted(messages, e, a, n, i)
      {
        RightIsAccepted(messages, e, a, n, i);
      }
    } else {
      var j := ProductDiffers(Remaining(e, i), Drop(e, i));
      var messages, n := Rejected(e, i, j);
    }
  }

  lemma ProductDiffers(x: seq<nat>, y: seq<nat>) returns (j: nat)
    requires |x| == |y| && !SameProducts(x, y)
    ensures j < |x| && Prod(Drop(x, j)) != Prod(Drop(y, j))
  {
    j :| 0 <= j < |x| && Prod(Drop(x, j)) != Prod(Drop(y, j));
  }

  lemma RightIsAccepted(messages: seq<nat>, e: seq<nat>, a: int, n: nat, i: nat)
    requires 1 <= n && |messages| == |e| && i < |e|
    requires e[i] == 0 || OpenedValue(messages, e, a, n, i) == OpenValue(messages, e, a, n, i)
    ensures Accepted(messages, e, a, n, i)
  {
    hide OpenedValue, OpenValue, SList, CommitValue, Verify;
    VerifyExactly(messages, e, a, n, i, messages[i], OpenedValue(messages, e, a, n, i));
  }

  // ---------------------------------------------------------------- positive exponents

  /** All entries from the one taken out up to the i-th are equal, as when no exponent occurs twice. */
  predicate RunOfEqual(e: seq<nat>, i: nat)
    requires i < |e|
  {
    forall j :: FirstIndex(e, e[i]) <= j <= i ==> e[j] == e[i]
  }

  lemma {:induction false} ProdPositive(e: seq<nat>)
    requires forall j :: 0 <= j < |e| ==> 1 <= e[j]
    ensures 1 <= Prod(e)
  {
    if e != [] { ProdPositive(e[..|e| - 1]); }
  }

  /** Positive exponents with the same products are the same list. */
  lemma ProductsDetermine(e: seq<nat>, k: nat, i: nat)
    requires k < |e| && i < |e| && e[k] == e[i] && forall j :: 0 <= j < |e| ==> 1 <= e[j]
    requires SameProducts(Drop(e, k), Drop(e, i))
    ensures Drop(e, k) == Drop(e, i)
  {
    hide Prod;
    var x, y := Drop(e, k), Drop(e, i);
    DropProd(e, k);
    DropProd(e, i);
    Cancel(e[i], Prod(x), Prod(y));
    ProdPositive(x);
    forall j | 0 <= j < |x| ensures x[j] == y[j] {
      DropProd(x, j);
      DropProd(y, j);
      CancelRight(x[j], y[j], Prod(Drop(x, j)));
    }
  }

  lemma Cancel(u: nat, x: int, y: int)
    requires 0 < u && u * x == u * y
    ensures x == y
  {
    assert u * (x - y) == 0;
  }

  lemma CancelRight(x: int, y: int, u: int)
    requires x * u == y * u && x * u != 0
    ensures x == y
  {
    assert (x - y) * u == 0;
  }

  /** With positive exponents: `open` is slow_open, and is always accepted, exactly when the entries from the first one
      equal to e[i] up to the i-th are all equal. */
  lemma OpenRightIff(e: seq<nat>, i: nat)
    requires i < |e| && forall j :: 0 <= j < |e| ==> 1 <= e[j]
    ensures RunOfEqual(e, i) <==> AlwaysRight(e, i)
    ensures RunOfEqual(e, i) <==> AlwaysAccepted(e, i)
  {
    hide AlwaysRight, AlwaysAccepted, Prod;
    var k := FirstIndex(e, e[i]);
    FirstNotAfter(e, i);
    SameListIff(e, k, i);
    AlwaysRightIff(e, i);
    AlwaysAcceptedIff(e, i);
    if SameProducts(Drop(e, k), Drop(e, i)) { ProductsDetermine(e, k, i); }
  }

  lemma FirstNotAfter(e: seq<nat>, i: nat)
    requires i < |e|
    ensures FirstIndex(e, e[i]) <= i
  {
    var k := FirstIndex(e, e[i]);
    assert forall j :: 0 <= j < k ==> e[j] == e[..k][j];
  }
}
