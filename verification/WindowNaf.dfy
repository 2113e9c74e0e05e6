// Window non-adjacent forms of pairing/src/wnaf.rs; `m` stands for 2^window.
module WindowNaf {
  import opened Arithmetic
  import opened PrimeFields
  import opened Groups
  import opened SignedDigits

  // ---------------------------------------------------------------- one digit

  /** The digit taken off `c`: an odd number leaves its centred residue modulo 2m. */
  function Digit(c: nat, m: nat): int
    requires 1 <= m
  {
    if c % 2 == 0 then 0
    else
      var u := c % (2 * m);
      if u > m then u - 2 * m else u
  }

  /** c without its digit, halved; adding the absolute value of a negative digit wraps at `limit`. */
  function Rest(limit: nat, c: nat, m: nat): (r: int)
    requires 1 <= m && 1 <= limit
  {
    var u := Digit(c, m);
    (if u > 0 then c - u else (c - u) % limit) / 2
  }

  /** What a digit is: zero exactly for even numbers, else odd and below m in size, and 2m divides what is left. */
  lemma DigitFacts(c: nat, m: nat) returns (q: int)
    requires 2 <= m && m % 2 == 0
    ensures var u := Digit(c, m);
            && (u == 0 <==> c % 2 == 0) && (u != 0 ==> u % 2 == 1) && 0 < u + m && u < m && u <= c && (u < 0 ==> -u < c)
            && 0 <= q && (c % 2 == 1 ==> c - u == q * (2 * m))
  {
    var u := c % (2 * m);
    DivMod(c, 2 * m);
    q := c / (2 * m);
    ModBounds(c, 2 * m);
    if c % 2 == 1 {
      OddRemainder(c, q, u, m);
      if u > m {
        OneMore(q, m);
        q := q + 1;
      }
    } else {
      q := 0;
    }
  }

  lemma OneMore(q: int, m: int)
    ensures (q + 1) * (2 * m) == 2 * m * q + 2 * m
  {
  }

  lemma OddRemainder(c: int, q: int, u: int, m: int)
    requires c == u + 2 * m * q && c % 2 == 1
    ensures u % 2 == 1
  {
    EvenMultipleOf(q, m);
    assert 2 * m * q == q * (2 * m);
  }

  /** The number gets smaller. */
  lemma RestSmaller(limit: nat, c: nat, m: nat)
    requires 2 <= m && m % 2 == 0 && 0 < c < limit
    ensures 0 <= Rest(limit, c, m) < c
  {
    var q := DigitFacts(c, m);
    var u := Digit(c, m);
    if u <= 0 {
      ModBounds(c - u, limit);
    }
  }

  // ---------------------------------------------------------------- the form

  /** The digits, least significant first. */
  function Form(limit: nat, c: nat, m: nat): seq<int>
    requires 2 <= m && m % 2 == 0 && c < limit
    decreases c
  {
    if c == 0 then []
    else
      RestSmaller(limit, c, m);
      [Digit(c, m)] + Form(limit, Rest(limit, c, m), m)
  }

  /** Every digit is zero, or odd and smaller than 2^window. */
  lemma {:induction false} FormDigits(limit: nat, c: nat, m: nat)
    requires 2 <= m && m % 2 == 0 && c < limit
    ensures forall i :: 0 <= i < |Form(limit, c, m)| ==> IsDigit(m, Form(limit, c, m)[i])
    decreases c
  {
    if c != 0 {
      RestSmaller(limit, c, m);
      var q := DigitFacts(c, m);
      FormDigits(limit, Rest(limit, c, m), m);
      var s, t := Form(limit, c, m), Form(limit, Rest(limit, c, m), m);
      forall i | 0 <= i < |s| ensures IsDigit(m, s[i]) {
        if i > 0 { assert s[i] == t[i - 1]; }
      }
    }
  }

  predicate IsDigit(m: nat, u: int) { u == 0 || (u % 2 == 1 && 0 < u + m && u < m) }

  /** A multiple of 2^k below the limit starts with k zero digits. */
  lemma {:induction false} TrailingZeros(limit: nat, c: nat, m: nat, k: nat)
    requires 2 <= m && m % 2 == 0 && c < limit && 1 <= Pow(2, k) && c % Pow(2, k) == 0
    ensures forall i :: 0 <= i < |Form(limit, c, m)| && i < k ==> Form(limit, c, m)[i] == 0
    decreases k
  {
    if c != 0 && k > 0 {
      PowPositive(2, k - 1);
      EvenMultiple(c, Pow(2, k - 1));
      RestSmaller(limit, c, m);
      DivModUnique(c, limit, 0, c);
      assert Rest(limit, c, m) == c / 2;
      TrailingZeros(limit, c / 2, m, k - 1);
      var s, t := Form(limit, c, m), Form(limit, c / 2, m);
      assert s == [0] + t;
    }
  }

  lemma EvenMultiple(c: nat, w: nat)
    requires 1 <= w && c % (2 * w) == 0
    ensures c % 2 == 0 && c / 2 % w == 0
  {
    var q := c / (2 * w);
    DivMod(c, 2 * w);
    assert c == 2 * (w * q);
    DivModUnique(c / 2, w, q, 0);
  }

  /** Between two non-zero digits there are at least `window` zeros. */
  lemma {:induction false} FormSparse(limit: nat, c: nat, window: nat, i: nat, j: nat)
    requires 1 <= window && 2 <= Pow(2, window) && Pow(2, window) % 2 == 0 && c < limit
             && limit % (2 * Pow(2, window)) == 0
    requires i < j < |Form(limit, c, Pow(2, window))|
    requires Form(limit, c, Pow(2, window))[i] != 0 && Form(limit, c, Pow(2, window))[j] != 0
    ensures j - i > window
    decreases c
  {
    var m := Pow(2, window);
    RestSmaller(limit, c, m);
    var r := Rest(limit, c, m);
    var t := Form(limit, r, m);
    assert Form(limit, c, m) == [Digit(c, m)] + t;
    if i > 0 {
      FormSparse(limit, r, window, i - 1, j - 1);
    } else {
      RestDivisible(limit, c, m);
      TrailingZeros(limit, r, m, window);
      assert t[j - 1] != 0;
    }
  }

  /** After an odd number the rest is a multiple of 2^window. */
  lemma RestDivisible(limit: nat, c: nat, m: nat)
    requires 2 <= m && m % 2 == 0 && c < limit && limit % (2 * m) == 0 && c % 2 == 1
    ensures Rest(limit, c, m) % m == 0
  {
    var q := DigitFacts(c, m);
    var u := Digit(c, m);
    assert u != 0;
    if u > 0 {
      HalfMultiple(c - u, q, m);
    } else {
      var l := limit / (2 * m);
      DivMod(limit, 2 * m);
      DivMod(c - u, limit);
      var k := (c - u) / limit;
      Reduced(c - u, q, limit, l, k, m);
      HalfMultiple((c - u) % limit, q - l * k, m);
    }
  }

  lemma Reduced(x: int, q: int, limit: int, l: int, k: int, m: int)
    requires x == q * (2 * m) && limit == 2 * m * l
    ensures x - limit * k == (q - l * k) * (2 * m)
  {
    assert limit * k == (l * k) * (2 * m);
    SumOfMultiples(q, l * k, 2 * m);
  }

  lemma HalfMultiple(x: int, q: int, m: int)
    requires 1 <= m && x == q * (2 * m)
    ensures x / 2 % m == 0
  {
    assert x == 2 * (q * m);
    DivModUnique(x / 2, m, q, 0);
  }

  // ---------------------------------------------------------------- the sum

  /** Only the addition for a negative digit can overflow, and only when c is odd and within 2^window of the limit. */
  predicate Overflows(limit: nat, c: nat, m: nat) { c % 2 == 1 && limit < c + m }

  lemma OverflowIff(limit: nat, c: nat, m: nat)
    requires 2 <= m && m % 2 == 0 && c < limit && limit % (2 * m) == 0 && 1 <= limit
    ensures Overflows(limit, c, m) <==> limit <= c - Digit(c, m)
    ensures Overflows(limit, c, m) ==> c - Digit(c, m) == limit
    ensures !Overflows(limit, c, m) ==> c == Digit(c, m) + 2 * Rest(limit, c, m)
  {
    var q := DigitFacts(c, m);
    if c % 2 == 1 {
      OddOverflow(limit, c, m, Digit(c, m), q);
      if c - Digit(c, m) != limit { DivModUnique(c - Digit(c, m), limit, 0, c - Digit(c, m)); }
      EvenMultipleOf(q, m);
    } else {
      DivModUnique(c, limit, 0, c);
    }
  }

  lemma EvenMultipleOf(q: int, m: int)
    ensures q * (2 * m) % 2 == 0
  {
    assert q * (2 * m) == 2 * (q * m);
  }

  lemma OddOverflow(limit: nat, c: nat, m: nat, u: int, q: int)
    requires 2 <= m && c < limit && limit % (2 * m) == 0 && -(m as int) < u < m && c - u == q * (2 * m)
    ensures limit < c + m <==> limit <= c - u
    ensures limit <= c - u ==> c - u == limit
  {
    var l := limit / (2 * m);
    DivMod(limit, 2 * m);
    Gap(q, l, m);
    Gap(l, q, m);
  }

  /** Different multiples of 2m are 2m apart. */
  lemma Gap(q: int, l: int, m: int)
    requires 1 <= m
    ensures q * (2 * m) > 2 * m * l ==> q * (2 * m) >= 2 * m * l + 2 * m
  {
    if q <= l { MulMonotone(2 * m, q, l); } else { MulMonotone(2 * m, l + 1, q); }
  }

  /** The digits sum back to c exactly when the first addition does not overflow. */
  lemma {:induction false} FormSumIff(limit: nat, c: nat, m: nat)
    requires 2 <= m && m % 2 == 0 && c < limit && limit % (2 * m) == 0
    ensures Balanced(2, Form(limit, c, m)) == c <==> !Overflows(limit, c, m)
    decreases c
  {
    if c != 0 {
      RestSmaller(limit, c, m);
      OverflowIff(limit, c, m);
      var u, r := Digit(c, m), Rest(limit, c, m);
      var s, t := Form(limit, c, m), Form(limit, r, m);
      assert s == [u] + t;
      BalancedCons(2, s);
      assert s[1..] == t;
      if Overflows(limit, c, m) {
        DivModUnique(limit, limit, 1, 0);
        assert r == 0 && Balanced(2, t) == 0;
      } else {
        RestFits(limit, c, m);
        FormSumIff(limit, r, m);
      }
    } else {
      assert Balanced(2, []) == 0;
    }
  }

  /** With the overflow the first addition wraps to zero and leaves a single digit. */
  lemma OverflowForm(limit: nat, c: nat, m: nat)
    requires 2 <= m && m % 2 == 0 && c < limit && limit % (2 * m) == 0 && Overflows(limit, c, m)
    ensures Balanced(2, Form(limit, c, m)) == c - limit
  {
    RestSmaller(limit, c, m);
    OverflowIff(limit, c, m);
    DivModUnique(limit, limit, 1, 0);
    assert Rest(limit, c, m) == 0;
    assert Form(limit, c, m) == [Digit(c, m)];
    BalancedCons(2, [Digit(c, m)]);
  }

  /** After the first step nothing overflows. */
  lemma RestFits(limit: nat, c: nat, m: nat)
    requires 2 <= m && m % 2 == 0 && c < limit && limit % (2 * m) == 0 && !Overflows(limit, c, m)
    ensures 0 <= Rest(limit, c, m) < limit && !Overflows(limit, Rest(limit, c, m), m)
  {
    var q := DigitFacts(c, m);
    OverflowIff(limit, c, m);
    var u := Digit(c, m);
    assert 2 * Rest(limit, c, m) < limit;
    DivMod(limit, 2 * m);
    if limit < 2 * m { DivModUnique(limit, 2 * m, 0, limit); }
  }

  // ---------------------------------------------------------------- the procedures

  /** `wnaf_form`, for scalars of `words` 64-bit words. */
  method WnafForm(words: nat, scalar: nat, window: nat) returns (wnaf: seq<int>)
    requires 1 <= words && scalar < Pow(2, 64 * words) && 1 <= window <= 61
    ensures WindowSize(window) && LimitSize(words, window) && wnaf == Form(Pow(2, 64 * words), scalar, Pow(2, window))
  {
    SizeFacts(words, window);
    wnaf := [];
    var c: nat := scalar;
    ghost var m, limit := Pow(2, window), Pow(2, 64 * words);
    hide Pow, LimitSize;
    while c != 0
      invariant c < limit
      invariant Form(limit, scalar, m) == wnaf + Form(limit, c, m)
      decreases c
    {
      RestSmaller(limit, c, m);
      var u, next := TakeDigit(words, c, window);
      assert wnaf + ([u] + Form(limit, next, m)) == (wnaf + [u]) + Form(limit, next, m);
      wnaf := wnaf + [u];
      c := next;
    }
    assert wnaf + [] == wnaf;
  }

  /** The loop body of `wnaf_form`: one digit off, then halve. */
  method TakeDigit(words: nat, c: nat, window: nat) returns (u: int, next: nat)
    requires 1 <= words && 0 < c < Pow(2, 64 * words) && 1 <= window <= 61
    ensures 1 <= Pow(2, window) && 1 <= Pow(2, 64 * words)
    ensures u == Digit(c, Pow(2, window)) && next == Rest(Pow(2, 64 * words), c, Pow(2, window))
  {
    SizeFacts(words, window);
    var m, limit := Pow(2, window), Pow(2, 64 * words);
    hide Pow, LimitSize;
    RestSmaller(limit, c, m);
    var rest: int := c;
    u := 0;
    if c % 2 == 1 {
      u := LowWord(c) % (2 * m);
      LowWordMod(c, window);
      if u > m { u := u - 2 * m; }
      var q := DigitFacts(c, m);
      rest := if u > 0 then c - u else (c - u) % limit;
    } else {
      DivModUnique(c, limit, 0, c);
    }
    assert rest / 2 == Rest(limit, c, m);
    next := rest / 2;
  }

  /** The least significant word, from which the digit is read. */
  function LowWord(c: nat): int {
    PowPositive(2, 64);
    c % Pow(2, 64)
  }

  lemma LowWordMod(c: nat, window: nat)
    requires 1 <= window <= 61
    ensures 1 <= Pow(2, window) && LowWord(c) % (2 * Pow(2, window)) == c % (2 * Pow(2, window))
  {
    hide Pow;
    PowPositive(2, window);
    PowPositive(2, 64);
    PowPositive(2, 63 - window);
    PowSucc(2, window);
    PowAdd(2, window + 1, 63 - window);
    var n, k := 2 * Pow(2, window), Pow(2, 63 - window);
    DivMod(c, Pow(2, 64));
    SplitOff(c, c % Pow(2, 64), c / Pow(2, 64), n, k);
  }

  lemma SplitOff(c: int, r: int, q: int, n: int, k: int)
    requires 1 <= n && r + n * k * q == c
    ensures Cong(r, c, n)
  {
    assert n * k * q == (k * q) * n;
    CongFrom(c, r, n, k * q);
  }

  predicate WindowSize(window: nat) { 2 <= Pow(2, window) && Pow(2, window) % 2 == 0 }

  predicate LimitSize(words: nat, window: nat)
    requires WindowSize(window)
  {
    1 <= Pow(2, 64 * words) && Pow(2, 64 * words) % (2 * Pow(2, window)) == 0
  }

  lemma SizeFacts(words: nat, window: nat)
    requires 1 <= words && 1 <= window <= 61
    ensures WindowSize(window) && LimitSize(words, window)
  {
    hide Pow;
    var rest := 64 * words - window - 1;
    PowSucc(2, window - 1);
    PowSucc(2, window);
    PowPositive(2, window - 1);
    PowPositive(2, rest);
    PowPositive(2, 64 * words);
    PowAdd(2, window + 1, rest);
    DivModUnique(Pow(2, 64 * words), 2 * Pow(2, window), Pow(2, rest), 0);
  }

  /** `wnaf_table`: the odd multiples of the base. */
  method WnafTable<T(!new)>(g: Group<T>, base: T, window: nat) returns (table: seq<T>)
    requires IsGroup(g) && 1 <= window
    ensures |table| == Pow(2, window - 1) && forall i :: 0 <= i < |table| ==> table[i] == Times(g, 2 * i + 1, base)
  {
    table := [];
    var dbl := g.add(base, base);
    var current := base;
    TimesOne(g, base);
    for i := 0 to Pow(2, window - 1)
      invariant |table| == i && current == Times(g, 2 * i + 1, base)
      invariant forall k :: 0 <= k < i ==> table[k] == Times(g, 2 * k + 1, base)
    {
      table := table + [current];
      TimesAdd(g, 2 * i + 1, 2, base);
      current := g.add(current, dbl);
    }
  }

  /** `wnaf_exp`: double-and-add from the highest digit down. */
  method WnafExp<T(!new)>(g: Group<T>, table: seq<T>, wnaf: seq<int>, ghost base: T) returns (result: T)
    requires IsGroup(g) && forall i :: 0 <= i < |wnaf| ==> IsDigit(2 * |table|, wnaf[i])
    requires forall i :: 0 <= i < |table| ==> table[i] == Times(g, 2 * i + 1, base)
    ensures result == Times(g, Balanced(2, wnaf), base)
  {
    hide Balanced, IsGroup, Times;
    result := g.zero;
    var foundOne := false;
    var i := |wnaf|;
    NoDigits(g, wnaf[i..], base);
    while 0 < i
      invariant 0 <= i <= |wnaf|
      invariant result == Times(g, Balanced(2, wnaf[i..]), base)
      invariant !foundOne ==> Balanced(2, wnaf[i..]) == 0
    {
      ghost var above := Balanced(2, wnaf[i..]);
      i := i - 1;
      var n := wnaf[i];
      BalancedCons(2, wnaf[i..]);
      assert wnaf[i..][1..] == wnaf[i + 1..] && IsDigit(2 * |table|, n);
      if foundOne { result := g.add(result, result); }
      Doubling(g, above, base);
      if n != 0 {
        foundOne := true;
        result := AddDigit(g, table, n, result, 2 * above, base);
      }
    }
    assert wnaf[0..] == wnaf;
  }

  lemma NoDigits<T>(g: Group<T>, digits: seq<int>, base: T)
    requires digits == []
    ensures Balanced(2, digits) == 0 && Times(g, 0, base) == g.zero
  {
  }

  lemma Doubling<T(!new)>(g: Group<T>, n: int, base: T)
    requires IsGroup(g)
    ensures g.add(Times(g, n, base), Times(g, n, base)) == Times(g, 2 * n, base)
    ensures n == 0 ==> Times(g, 2 * n, base) == Times(g, n, base)
  {
    TimesAdd(g, n, n, base);
  }

  /** Adding or subtracting the table entry of one odd digit. */
  method AddDigit<T(!new)>(g: Group<T>, table: seq<T>, n: int, sum: T, ghost m: int, ghost base: T) returns (result: T)
    requires IsGroup(g) && n != 0 && IsDigit(2 * |table|, n) && sum == Times(g, m, base)
    requires forall i :: 0 <= i < |table| ==> table[i] == Times(g, 2 * i + 1, base)
    ensures result == Times(g, m + n, base)
  {
    TimesAdd(g, m, n, base);
    hide Times, IsGroup;
    if n > 0 {
      assert n == 2 * (n / 2) + 1;
      result := g.add(sum, table[n / 2]);
    } else {
      assert -n == 2 * (-n / 2) + 1;
      TimesTimes(g, -1, -n, base);
      TimesOne(g, Times(g, -n, base));
      result := g.add(sum, g.neg(table[-n / 2]));
    }
  }

  /** Table, form and exponentiation together multiply the base by the scalar, less the limit if the form overflows. */
  method WnafMultiply<T(!new)>(g: Group<T>, base: T, words: nat, scalar: nat, window: nat) returns (result: T)
    requires IsGroup(g) && 1 <= words && scalar < Pow(2, 64 * words) && 1 <= window <= 61
    ensures result == Times(g, if Overflows(Pow(2, 64 * words), scalar, Pow(2, window))
                               then scalar - Pow(2, 64 * words) else scalar, base)
  {
    var table := WnafTable(g, base, window);
    var wnaf := WnafForm(words, scalar, window);
    var limit, m := Pow(2, 64 * words), Pow(2, window);
    assert m == 2 * |table|;
    FormDigits(limit, scalar, m);
    FormSumIff(limit, scalar, m);
    if Overflows(limit, scalar, m) { OverflowForm(limit, scalar, m); }
    result := WnafExp(g, table, wnaf, base);
  }
}
