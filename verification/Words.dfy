// Shifts, masks and bitwise-or of machine words, and reading a window of bits out of a limb array.
module Words {
  import opened Arithmetic
  import opened Limbs
  import opened PrimeFields

  /** Bitwise or of naturals. */
  function BitOr(x: nat, y: nat): nat {
    if x == 0 && y == 0 then 0 else 2 * BitOr(x / 2, y / 2) + (if x % 2 == 1 || y % 2 == 1 then 1 else 0)
  }

  /** Bitwise and of naturals. */
  function BitAnd(x: nat, y: nat): nat {
    if x == 0 || y == 0 then 0 else 2 * BitAnd(x / 2, y / 2) + (if x % 2 == 1 && y % 2 == 1 then 1 else 0)
  }

  function ShiftRight(x: nat, k: nat): nat {
    PowPositive(2, k);
    DivNat(x, Pow(2, k));
    x / Pow(2, k)
  }

  /** Shifting a 64-bit word left drops the bits above it. */
  function ShiftLeft(x: nat, k: nat): nat {
    PowPositive(2, 64);
    x * Pow(2, k) % WordBase()
  }

  lemma DivNat(x: nat, n: nat)
    requires 1 <= n
    ensures 0 <= x / n
  {
  }

  /** Words without a common bit are or-ed by adding. */
  lemma {:induction false} OrIsSum(x: nat, y: nat, k: nat)
    requires x < Pow(2, k)
    ensures BitOr(x, y * Pow(2, k)) == x + y * Pow(2, k)
  {
    if k == 0 {
      OrZero(y);
    } else {
      var z := y * Pow(2, k - 1);
      PowSucc(2, k - 1);
      assert y * Pow(2, k) == 2 * z;
      assert x / 2 < Pow(2, k - 1);
      OrIsSum(x / 2, y, k - 1);
    }
  }

  lemma {:induction false} OrZero(y: nat)
    ensures BitOr(0, y) == y
  {
    if y > 0 { OrZero(y / 2); }
  }

  /** Masking with 2^k - 1 is the remainder modulo 2^k. */
  lemma {:induction false} MaskIsMod(x: nat, k: nat)
    ensures 1 <= Pow(2, k) && BitAnd(x, Pow(2, k) - 1) == x % Pow(2, k)
  {
    PowPositive(2, k);
    if k > 0 {
      MaskIsMod(x / 2, k - 1);
      PowSucc(2, k - 1);
      PowPositive(2, k - 1);
      assert (Pow(2, k) - 1) / 2 == Pow(2, k - 1) - 1 && (Pow(2, k) - 1) % 2 == 1;
      ModDouble(x, Pow(2, k - 1));
    }
  }

  lemma ModDouble(x: nat, m: nat)
    requires 1 <= m
    ensures x % (2 * m) == 2 * (x / 2 % m) + x % 2
  {
    DivMod(x, 2);
    DivMod(x / 2, m);
    assert x == x / 2 / m * (2 * m) + (2 * (x / 2 % m) + x % 2);
    DivModUnique(x, 2 * m, x / 2 / m, 2 * (x / 2 % m) + x % 2);
  }

  // ---------------------------------------------------------------- division facts

  lemma DivDiv(x: nat, a: nat, b: nat)
    requires 1 <= a && 1 <= b
    ensures 1 <= a * b && x / (a * b) == x / a / b
  {
    var q := x / a;
    DivMod(x, a);
    DivMod(q, b);
    MulMonotone(a, q % b, b - 1);
    MulMonotone(a, 1, b);
    assert x == q / b * (a * b) + (a * (q % b) + x % a);
    assert 0 <= a * (q % b);
    DivModUnique(x, a * b, q / b, a * (q % b) + x % a);
  }

  lemma AddMultiple(x: nat, a: nat, k: nat)
    requires 1 <= a
    ensures (x + a * k) / a == x / a + k
  {
    DivMod(x, a);
    assert x + a * k == (x / a + k) * a + x % a;
    DivModUnique(x + a * k, a, x / a + k, x % a);
  }

  /** Dropping low limbs divides. */
  lemma {:induction false} DropLimbs(b: nat, s: seq<nat>, u: nat)
    requires 1 <= b && Digits(b, s) && u <= |s|
    ensures 1 <= Pow(b, u) && Val(b, s) / Pow(b, u) == Val(b, s[u..])
  {
    PowPositive(b, u);
    if u == 0 {
      assert s[0..] == s;
    } else {
      DropLimbs(b, s[1..], u - 1);
      LowLimb(b, s);
      PowPositive(b, u - 1);
      DivDiv(Val(b, s), b, Pow(b, u - 1));
      PowSucc(b, u - 1);
      assert s[1..][u - 1..] == s[u..];
    }
  }

  lemma {:induction false} PowPow(b: nat, j: nat, k: nat)
    ensures Pow(Pow(b, j), k) == Pow(b, j * k)
  {
    if k > 0 {
      PowPow(b, j, k - 1);
      assert j * k == j + j * (k - 1);
      PowAdd(b, j, j * (k - 1));
    } else {
      assert j * k == 0;
    }
  }

  // ---------------------------------------------------------------- reading a window

  /** 2^64. */
  function WordBase(): nat { Pow(2, 64) }

  /** The bit buffer for the window of `w` bits at `offset`: one word, or two combined. */
  function ReadBits(limbs: seq<nat>, w: nat, offset: nat): nat
    requires |limbs| == 4 && offset < 256 && w <= 64
  {
    var u, bit := offset / 64, offset % 64;
    if bit < 64 - w || u == 3 then ShiftRight(limbs[u], bit)
    else BitOr(ShiftRight(limbs[u], bit), ShiftLeft(limbs[u + 1], 64 - bit))
  }

  /** Its low `w` bits are those of the whole number at that offset. */
  lemma WindowOfNumber(limbs: seq<nat>, w: nat, offset: nat)
    requires |limbs| == 4 && offset < 256 && w <= 64 && Digits(WordBase(), limbs)
    ensures 1 <= Pow(2, w) && 1 <= Pow(2, offset)
    ensures BitAnd(ReadBits(limbs, w, offset), Pow(2, w) - 1) == Val(WordBase(), limbs) / Pow(2, offset) % Pow(2, w)
  {
    hide *;
    PowPositive(2, w);
    PowPositive(2, offset);
    var u, bit, m := offset / 64, offset % 64, Pow(2, w);
    var bits := ReadBits(limbs, w, offset);
    var whole := ShiftRight(limbs[u], bit) + Pow(2, 64 - bit) * Val(WordBase(), limbs[u + 1..]);
    assert Val(WordBase(), limbs) / Pow(2, offset) == whole by { SplitAt(limbs, u, bit); }
    assert BitAnd(bits, Pow(2, w) - 1) == bits % m by { MaskIsMod(bits, w); }
    assert Cong(bits, whole, m) by { BufferBits(limbs, w, offset); }
    CongIsMod(bits, whole, m);
  }

  lemma CongIsMod(x: int, y: int, m: int)
    requires 1 <= m && Cong(x, y, m)
    ensures x % m == y % m
  {
  }

  lemma BufferBits(limbs: seq<nat>, w: nat, offset: nat)
    requires |limbs| == 4 && offset < 256 && w <= 64 && Digits(WordBase(), limbs) && 1 <= Pow(2, w)
    ensures Cong(ReadBits(limbs, w, offset),
                 ShiftRight(limbs[offset / 64], offset % 64)
                 + Pow(2, 64 - offset % 64) * Val(WordBase(), limbs[offset / 64 + 1..]), Pow(2, w))
  {
    hide Pow, Val, BitOr, WordBase, ShiftRight, ShiftLeft;
    var u, bit := offset / 64, offset % 64;
    var low, rest := ShiftRight(limbs[u], bit), Val(WordBase(), limbs[u + 1..]);
    if u == 3 {
      NothingAbove(WordBase(), limbs[u + 1..], Pow(2, 64 - bit));
    } else if bit < 64 - w {
      DropHigh(low, w, 64 - bit, rest);
    } else {
      CombinedWords(limbs, u, bit, w);
    }
  }

  lemma NothingAbove(b: nat, s: seq<nat>, w: nat)
    requires s == []
    ensures w * Val(b, s) == 0
  {
  }

  lemma SplitAt(limbs: seq<nat>, u: nat, bit: nat)
    requires |limbs| == 4 && u < 4 && bit < 64 && Digits(WordBase(), limbs)
    ensures 1 <= Pow(2, 64 * u + bit)
    ensures Val(WordBase(), limbs) / Pow(2, 64 * u + bit)
            == ShiftRight(limbs[u], bit) + Pow(2, 64 - bit) * Val(WordBase(), limbs[u + 1..])
  {
    var b, rest := WordBase(), Val(WordBase(), limbs[u + 1..]);
    PowPositive(2, 64);
    PowPositive(2, bit);
    PowPositive(2, 64 * u);
    PowPositive(2, 64 * u + bit);
    PowAdd(2, 64 * u, bit);
    PowPow(2, 64, u);
    DropLimbs(b, limbs, u);
    DivDiv(Val(b, limbs), Pow(2, 64 * u), Pow(2, bit));
    ValCons(b, limbs[u..]);
    assert limbs[u..][1..] == limbs[u + 1..];
    PowAdd(2, bit, 64 - bit);
    assert ShiftRight(limbs[u], bit) == limbs[u] / Pow(2, bit);
    hide *;
    SplitWord(b, limbs[u], rest, Pow(2, bit), Pow(2, 64 - bit));
  }

  lemma SplitWord(b: nat, low: nat, rest: nat, p: nat, q: nat)
    requires 1 <= p && b == p * q
    ensures (low + b * rest) / p == low / p + q * rest
  {
    assert b * rest == p * (q * rest);
    AddMultiple(low, p, q * rest);
  }

  lemma DropHigh(x: nat, w: nat, k: nat, rest: nat)
    requires w <= k && 1 <= Pow(2, w)
    ensures Cong(x + Pow(2, k) * rest, x, Pow(2, w))
  {
    PowAdd(2, w, k - w);
    HighTerm(x, Pow(2, k), Pow(2, w), Pow(2, k - w), rest);
  }

  lemma HighTerm(x: nat, q: nat, m: nat, h: nat, rest: nat)
    requires 1 <= m && q == m * h
    ensures Cong(x + q * rest, x, m)
  {
    assert q * rest == (h * rest) * m;
    CongFrom(x + q * rest, x, m, h * rest);
  }

  lemma CombinedWords(limbs: seq<nat>, u: nat, bit: nat, w: nat)
    requires |limbs| == 4 && u < 3 && w <= 64 && 64 - w <= bit < 64 && Digits(WordBase(), limbs)
    requires 1 <= Pow(2, w)
    ensures Cong(BitOr(ShiftRight(limbs[u], bit), ShiftLeft(limbs[u + 1], 64 - bit)),
                 ShiftRight(limbs[u], bit) + Pow(2, 64 - bit) * Val(WordBase(), limbs[u + 1..]), Pow(2, w))
  {
    var rest := Val(WordBase(), limbs[u + 2..]);
    assert Val(WordBase(), limbs[u + 1..]) == limbs[u + 1] + WordBase() * rest by {
      ValCons(WordBase(), limbs[u + 1..]);
      assert limbs[u + 1..][1..] == limbs[u + 2..];
    }
    PowAdd(2, bit, 64 - bit);
    PowPositive(2, 64 - bit);
    PowPositive(2, bit);
    PowPositive(2, 64);
    assert WordBase() == Pow(2, bit) * Pow(2, 64 - bit);
    assert limbs[u] < Pow(2, bit) * Pow(2, 64 - bit);
    hide *;
    TwoWords(limbs[u], limbs[u + 1], rest, bit, w);
  }

  lemma TwoWords(word: nat, next: nat, rest: nat, bit: nat, w: nat)
    requires bit < 64 && w <= 64 && 1 <= Pow(2, bit) && 1 <= Pow(2, 64 - bit) && 1 <= WordBase() && 1 <= Pow(2, w)
    requires WordBase() == Pow(2, bit) * Pow(2, 64 - bit) && word < Pow(2, bit) * Pow(2, 64 - bit)
    ensures Cong(BitOr(ShiftRight(word, bit), ShiftLeft(next, 64 - bit)),
                 ShiftRight(word, bit) + Pow(2, 64 - bit) * (next + WordBase() * rest), Pow(2, w))
  {
    hide Pow, WordBase, BitOr;
    var b, p, q := WordBase(), Pow(2, bit), Pow(2, 64 - bit);
    assert ShiftRight(word, bit) == word / p && ShiftLeft(next, 64 - bit) == next * q % b;
    hide ShiftLeft, ShiftRight;
    QuotientBound(word, p, q);
    ShiftDrops(next, p, q, b);
    var low, kept := word / p, next % p;
    OrIsSum(low, kept, 64 - bit);
    CombinedValue(low, next, kept, p, q, b, rest, w);
  }

  /** A left shift keeps the low part of the word. */
  lemma ShiftDrops(next: nat, p: nat, q: nat, b: nat)
    requires 1 <= p && 1 <= q && b == p * q
    ensures next * q % b == next % p * q
  {
    DivMod(next, p);
    var h, l := next / p, next % p;
    assert (l + p * h) * q == h * (p * q) + l * q;
    MulMonotone(q, l, p - 1);
    assert 0 <= l * q;
    DivModUnique(next * q, b, h, l * q);
  }

  lemma CombinedValue(low: nat, next: nat, kept: nat, p: nat, q: nat, b: nat, rest: nat, w: nat)
    requires 1 <= p && b == p * q && b == WordBase() && w <= 64 && kept == next % p && 1 <= Pow(2, w)
    ensures Cong(low + kept * q, low + q * (next + b * rest), Pow(2, w))
  {
    var h := next / p;
    DivMod(next, p);
    assert low + q * (next + b * rest) == low + kept * q + b * (h + q * rest) by {
      ExpandWords(q, next, kept, p, h, b, rest);
    }
    DropHigh(low + kept * q, w, 64, h + q * rest);
  }

  lemma ExpandWords(q: int, next: int, kept: int, p: int, h: int, b: int, rest: int)
    requires next == kept + p * h && b == p * q
    ensures q * (next + b * rest) == kept * q + b * (h + q * rest)
  {
    assert q * (p * h) == b * h;
    assert q * (b * rest) == b * (q * rest);
  }
}
