// Commutative groups written additively, integer multiples, and integer combinations of points.
module Groups {

  /** The operations of a curve group; the laws are IsGroup. */
  datatype Group<!T> = Group(zero: T, add: (T, T) -> T, neg: T -> T)

  ghost predicate LawsAt<T>(g: Group<T>, x: T, y: T, z: T) {
    && g.add(g.add(x, y), z) == g.add(x, g.add(y, z))
    && g.add(x, y) == g.add(y, x)
    && g.add(x, g.zero) == x
    && g.add(x, g.neg(x)) == g.zero
  }

  ghost predicate IsGroup<T(!new)>(g: Group<T>) { forall x, y, z :: LawsAt(g, x, y, z) }

  lemma Assoc<T(!new)>(g: Group<T>, x: T, y: T, z: T)
    requires IsGroup(g)
    ensures g.add(g.add(x, y), z) == g.add(x, g.add(y, z))
  {
    assert LawsAt(g, x, y, z);
  }

  lemma Comm<T(!new)>(g: Group<T>, x: T, y: T)
    requires IsGroup(g)
    ensures g.add(x, y) == g.add(y, x)
  {
    assert LawsAt(g, x, y, x);
  }

  lemma Zero<T(!new)>(g: Group<T>, x: T)
    requires IsGroup(g)
    ensures g.add(x, g.zero) == x && g.add(g.zero, x) == x
  {
    assert LawsAt(g, x, g.zero, x);
  }

  lemma Inverse<T(!new)>(g: Group<T>, x: T)
    requires IsGroup(g)
    ensures g.add(x, g.neg(x)) == g.zero && g.add(g.neg(x), x) == g.zero
  {
    assert LawsAt(g, x, g.neg(x), x);
  }

  /** Adding and taking away again. */
  lemma Undo<T(!new)>(g: Group<T>, x: T, y: T)
    requires IsGroup(g)
    ensures g.add(g.add(x, y), g.neg(y)) == x && g.add(g.add(x, g.neg(y)), y) == x
  {
    Assoc(g, x, y, g.neg(y));
    Assoc(g, x, g.neg(y), y);
    Inverse(g, y);
    Zero(g, x);
  }

  lemma Interchange<T(!new)>(g: Group<T>, a: T, b: T, c: T, d: T)
    requires IsGroup(g)
    ensures g.add(g.add(a, b), g.add(c, d)) == g.add(g.add(a, c), g.add(b, d))
  {
    Assoc(g, a, b, g.add(c, d));
    Assoc(g, b, c, d);
    Comm(g, b, c);
    Assoc(g, c, b, d);
    Assoc(g, a, c, g.add(b, d));
  }

  /** Only the opposite of x cancels x. */
  lemma NegUnique<T(!new)>(g: Group<T>, x: T, y: T)
    requires IsGroup(g) && g.add(x, y) == g.zero
    ensures y == g.neg(x)
  {
    Assoc(g, g.neg(x), x, y);
    Inverse(g, x);
    Zero(g, y);
    Zero(g, g.neg(x));
  }

  lemma NegAdd<T(!new)>(g: Group<T>, x: T, y: T)
    requires IsGroup(g)
    ensures g.neg(g.add(x, y)) == g.add(g.neg(x), g.neg(y))
  {
    Interchange(g, x, y, g.neg(x), g.neg(y));
    Inverse(g, x);
    Inverse(g, y);
    Zero(g, g.zero);
    NegUnique(g, g.add(x, y), g.add(g.neg(x), g.neg(y)));
  }

  // ---------------------------------------------------------------- integer multiples

  /** n * x. */
  function Times<T>(g: Group<T>, n: int, x: T): T
    decreases if n < 0 then -n else n
  {
    if n == 0 then g.zero
    else if n > 0 then g.add(Times(g, n - 1, x), x)
    else g.add(Times(g, n + 1, x), g.neg(x))
  }

  lemma TimesSucc<T(!new)>(g: Group<T>, n: int, x: T)
    requires IsGroup(g)
    ensures Times(g, n + 1, x) == g.add(Times(g, n, x), x)
    ensures Times(g, n - 1, x) == g.add(Times(g, n, x), g.neg(x))
  {
    if n < 0 { Undo(g, Times(g, n + 1, x), x); }
    if n > 0 { Undo(g, Times(g, n - 1, x), x); }
  }

  lemma TimesOne<T(!new)>(g: Group<T>, x: T)
    requires IsGroup(g)
    ensures Times(g, 1, x) == x && Times(g, -1, x) == g.neg(x) && Times(g, 2, x) == g.add(x, x)
  {
    TimesSucc(g, 0, x);
    TimesSucc(g, 1, x);
    Zero(g, x);
    Zero(g, g.neg(x));
  }

  lemma {:induction false} TimesAdd<T(!new)>(g: Group<T>, m: int, n: int, x: T)
    requires IsGroup(g)
    ensures Times(g, m + n, x) == g.add(Times(g, m, x), Times(g, n, x))
    decreases if n < 0 then -n else n
  {
    if n == 0 {
      Zero(g, Times(g, m, x));
    } else if n > 0 {
      TimesAdd(g, m, n - 1, x);
      TimesSucc(g, m + n - 1, x);
      Assoc(g, Times(g, m, x), Times(g, n - 1, x), x);
    } else {
      TimesAdd(g, m, n + 1, x);
      TimesSucc(g, m + n + 1, x);
      Assoc(g, Times(g, m, x), Times(g, n + 1, x), g.neg(x));
    }
  }

  lemma {:induction false} TimesTimes<T(!new)>(g: Group<T>, m: int, n: int, x: T)
    requires IsGroup(g)
    ensures Times(g, m * n, x) == Times(g, m, Times(g, n, x))
    decreases if m < 0 then -m else m
  {
    if m > 0 {
      TimesTimes(g, m - 1, n, x);
      TimesAdd(g, (m - 1) * n, n, x);
      assert (m - 1) * n + n == m * n;
    } else if m < 0 {
      TimesTimes(g, m + 1, n, x);
      TimesAdd(g, m * n, n, x);
      assert m * n + n == (m + 1) * n;
      Undo(g, Times(g, m * n, x), Times(g, n, x));
    }
  }

  lemma {:induction false} TimesSum<T(!new)>(g: Group<T>, n: int, x: T, y: T)
    requires IsGroup(g)
    ensures Times(g, n, g.add(x, y)) == g.add(Times(g, n, x), Times(g, n, y))
    decreases if n < 0 then -n else n
  {
    if n == 0 {
      Zero(g, g.zero);
    } else if n > 0 {
      TimesSum(g, n - 1, x, y);
      Interchange(g, Times(g, n - 1, x), Times(g, n - 1, y), x, y);
    } else {
      TimesSum(g, n + 1, x, y);
      NegAdd(g, x, y);
      Interchange(g, Times(g, n + 1, x), Times(g, n + 1, y), g.neg(x), g.neg(y));
    }
  }

  lemma {:induction false} TimesZero<T(!new)>(g: Group<T>, n: int)
    requires IsGroup(g)
    ensures Times(g, n, g.zero) == g.zero
    decreases if n < 0 then -n else n
  {
    Zero(g, g.zero);
    Inverse(g, g.zero);
    Zero(g, g.neg(g.zero));
    if n > 0 { TimesZero(g, n - 1); }
    if n < 0 { TimesZero(g, n + 1); }
  }

  // ---------------------------------------------------------------- integer combinations

  /** The sum of coeffs[k] * points[k]. */
  function Combine<T>(g: Group<T>, coeffs: seq<int>, points: seq<T>): T
    requires |coeffs| == |points|
  {
    if coeffs == [] then g.zero
    else
      var k := |coeffs| - 1;
      g.add(Combine(g, coeffs[..k], points[..k]), Times(g, coeffs[k], points[k]))
  }

  /** Combinations are linear: with c[k] == m * a[k] + b[k]. */
  lemma {:induction false} CombineLinear<T(!new)>(g: Group<T>, m: int, a: seq<int>, b: seq<int>, c: seq<int>,
          points: seq<T>)
    requires IsGroup(g) && |a| == |b| == |c| == |points|
    requires forall k :: 0 <= k < |a| ==> c[k] == m * a[k] + b[k]
    ensures Combine(g, c, points) == g.add(Times(g, m, Combine(g, a, points)), Combine(g, b, points))
  {
    if a == [] {
      TimesZero(g, m);
      Zero(g, g.zero);
    } else {
      var k := |a| - 1;
      var x := points[k];
      CombineLinear(g, m, a[..k], b[..k], c[..k], points[..k]);
      var ca, cb := Combine(g, a[..k], points[..k]), Combine(g, b[..k], points[..k]);
      TimesAdd(g, m * a[k], b[k], x);
      TimesTimes(g, m, a[k], x);
      TimesSum(g, m, ca, Times(g, a[k], x));
      Interchange(g, Times(g, m, ca), cb, Times(g, m, Times(g, a[k], x)), Times(g, b[k], x));
    }
  }

  function SumProducts(c: seq<int>, y: seq<int>): int
    requires |c| == |y|
  {
    if c == [] then 0 else SumProducts(c[..|c| - 1], y[..|c| - 1]) + c[|c| - 1] * y[|c| - 1]
  }

  /** A combination of multiples of one point. */
  lemma {:induction false} CombineMultiples<T(!new)>(g: Group<T>, c: seq<int>, y: seq<int>, points: seq<T>, h: T)
    requires IsGroup(g) && |c| == |y| == |points| && forall i :: 0 <= i < |y| ==> points[i] == Times(g, y[i], h)
    ensures Combine(g, c, points) == Times(g, SumProducts(c, y), h)
  {
    if c != [] {
      var k := |c| - 1;
      CombineMultiples(g, c[..k], y[..k], points[..k], h);
      TimesTimes(g, c[k], y[k], h);
      TimesAdd(g, SumProducts(c[..k], y[..k]), c[k] * y[k], h);
    }
  }
}
