// to_radix_2w of pairing/src/lib.rs: a 256-bit scalar as signed digits in radix 2^w.
module SignedDigits {
  import opened Arithmetic
  import opened Limbs
  import opened Words

  /** The value of signed digits in radix `b`, least significant first. */
  function Balanced(b: nat, s: seq<int>): int {
    if s == [] then 0 else Balanced(b, s[..|s| - 1]) + s[|s| - 1] * Pow(b, |s| - 1)
  }

  lemma BalancedSnoc(b: nat, s: seq<int>, d: int)
    ensures Balanced(b, s + [d]) == Balanced(b, s) + d * Pow(b, |s|)
  {
    assert (s + [d])[..|s|] == s;
  }

  lemma {:induction false} BalancedCons(b: nat, s: seq<int>)
    requires s != []
    ensures Balanced(b, s) == s[0] + b * Balanced(b, s[1..])
  {
    if |s| == 1 {
      assert s[1..] == [] && s[..0] == [];
    } else {
      var k := |s| - 1;
      BalancedCons(b, s[..k]);
      assert s[1..] == s[..k][1..] + [s[k]];
      BalancedSnoc(b, s[..k][1..], s[k]);
      PullOut(b, Balanced(b, s[..k][1..]), s[k], Pow(b, k - 1));
    }
  }

  /** Recentring a coefficient in 0..b: the carry is a bit and the digit lies in [-b/2, b/2). */
  lemma Recentred(b: nat, coef: nat)
    requires 2 <= b && b % 2 == 0 && coef <= b
    ensures var carry := (coef + b / 2) / b;
            0 <= carry <= 1 && -(b / 2) <= coef - carry * b < b / 2
  {
    if coef + b / 2 < b {
      DivModUnique(coef + b / 2, b, 0, coef + b / 2);
    } else {
      DivModUnique(coef + b / 2, b, 1, coef + b / 2 - b);
    }
  }

  /** One more base-b digit of a number. */
  lemma ModStep(v: nat, p: nat, b: nat)
    requires 1 <= p && 1 <= b
    ensures 1 <= b * p && v % (b * p) == v % p + (v / p % b) * p
  {
    var q := v / p;
    DivMod(v, p);
    DivMod(q, b);
    MulMonotone(p, q % b, b - 1);
    MulMonotone(p, 1, b);
    assert v == q / b * (b * p) + (v % p + (q % b) * p);
    assert 0 <= (q % b) * p;
    DivModUnique(v, b * p, q / b, v % p + (q % b) * p);
  }

  /** The digits so far and the carry make up the low part of `v`. */
  ghost predicate LowPart(b: nat, s: seq<int>, carry: int, v: nat) {
    1 <= Pow(b, |s|) && Balanced(b, s) + carry * Pow(b, |s|) == v % Pow(b, |s|)
  }

  /** A digit and a carry keep the running value. */
  lemma DigitStep(b: nat, s: seq<int>, carry: int, window: int, next: int, v: nat)
    requires 1 <= b && LowPart(b, s, carry, v) && 1 <= Pow(b, |s|) && window == v / Pow(b, |s|) % b
    ensures LowPart(b, s + [carry + window - next * b], next, v)
  {
    var p, d := Pow(b, |s|), carry + window - next * b;
    BalancedSnoc(b, s, d);
    PowSucc(b, |s|);
    ModStep(v, p, b);
    hide *;
    DigitSum(Balanced(b, s), carry, window, next, b, p, d);
  }

  lemma DigitSum(low: int, carry: int, window: int, next: int, b: int, p: int, d: int)
    requires d == carry + window - next * b
    ensures low + d * p + next * (b * p) == low + carry * p + window * p
  {
  }

  /** How many windows of `w` bits cover 256 bits. */
  function Windows(w: nat): (n: nat)
    requires 6 <= w <= 8
    ensures n == if w == 6 then 43 else if w == 7 then 37 else 32
    ensures 256 <= w * n < 256 + w
  {
    assert w == 6 || w == 7 || w == 8;
    (256 + w - 1) / w
  }

  /** How many digits are in use (`to_radix_2w_size_hint`). */
  function DigitsCount(w: nat): nat
    requires 6 <= w <= 8
  {
    if w == 8 then Windows(w) + 1 else Windows(w)
  }

  /** `as i8`. */
  function ToI8(x: int): int { (x + 128) % 256 - 128 }

  lemma FitsI8(x: int)
    requires -128 <= x < 128
    ensures ToI8(x) == x
  {
    DivModUnique(x + 128, 256, 0, x + 128);
  }

  lemma RadixSize(w: nat)
    requires 6 <= w <= 8
    ensures Pow(2, w) == if w == 6 then 64 else if w == 7 then 128 else 256
  {
    assert Pow(2, 6) == 64 && Pow(2, 7) == 128 && Pow(2, 8) == 256;
  }

  /** The scalar has 256 bits, so the digits used cover it and, for w < 8, the last window has four bits. */
  lemma ScalarSize(limbs: seq<nat>, w: nat)
    requires |limbs| == 4 && Digits(WordBase(), limbs) && 6 <= w <= 8
    ensures 1 <= Pow(2, 252) && Val(WordBase(), limbs) / Pow(2, 252) < 16
    ensures Val(WordBase(), limbs) < Pow(Pow(2, w), Windows(w))
  {
    hide *;
    var v, n := Val(WordBase(), limbs), Windows(w);
    assert v < Pow(2, 256) by { FourWords(limbs); }
    PowPositive(2, 252);
    PowAdd(2, 252, 4);
    Sixteen();
    QuotientBound(v, Pow(2, 252), 16);
    PowPow(2, w, n);
    PowAdd(2, 256, w * n - 256);
    PowPositive(2, w * n - 256);
    MulMonotone(Pow(2, 256), 1, Pow(2, w * n - 256));
  }

  lemma FourWords(limbs: seq<nat>)
    requires |limbs| == 4 && Digits(WordBase(), limbs)
    ensures Val(WordBase(), limbs) < Pow(2, 256)
  {
    var b := WordBase();
    assert b == Pow(2, 64);
    hide Val, WordBase, Pow;
    PowPositive(2, 64);
    PowPow(2, 64, 4);
    ValBound(b, limbs);
  }

  lemma Sixteen()
    ensures Pow(2, 4) == 16
  {
  }

  /** A digit in [-2^(w-1), 2^(w-1)). */
  predicate Centred(w: nat, d: int)
    requires 1 <= w
  {
    0 <= d + Pow(2, w - 1) && d < Pow(2, w - 1)
  }

  /** One digit: the window plus the carry, recentred. */
  method NextDigit(limbs: seq<nat>, w: nat, i: nat, carry: nat) returns (digit: int, next: nat)
    requires |limbs| == 4 && Digits(WordBase(), limbs) && 6 <= w <= 8 && i < Windows(w) && carry <= 1
    ensures next <= 1 && Centred(w, digit) && -128 <= digit < 128
    ensures 1 <= Pow(2, w) && 1 <= Pow(Pow(2, w), i)
    ensures var window := Val(WordBase(), limbs) / Pow(Pow(2, w), i) % Pow(2, w);
            && digit == carry + window - next * Pow(2, w)
            && (window < 16 && w < 8 ==> next == 0)
  {
    hide *;
    var offset := i * w;
    Offsets(w, i);
    RadixSize(w);
    RadixSizeBelow(w);
    var radix := Pow(2, w);
    var buffer := ReadBits(limbs, w, offset);
    WindowOfNumber(limbs, w, offset);
    PowPow(2, w, i);
    assert i * w == w * i;
    var window := BitAnd(buffer, radix - 1);
    var coef := carry + window;
    Recentred(radix, coef);
    next := (coef + radix / 2) / radix;
    digit := ToI8(coef - next * radix);
    FitsI8(coef - next * radix);
    assert Centred(w, digit) by { CentredIff(w, digit); }
    if window < 16 && w < 8 { DivModUnique(coef + radix / 2, radix, 0, coef + radix / 2); }
  }

  lemma CentredIff(w: nat, d: int)
    requires 1 <= w
    ensures Centred(w, d) <==> 0 <= d + Pow(2, w - 1) && d < Pow(2, w - 1)
  {
  }

  lemma Offsets(w: nat, i: nat)
    requires 6 <= w <= 8 && i < Windows(w)
    ensures i * w < 256
  {
    MulMonotone(w, i, Windows(w) - 1);
  }

  lemma RadixSizeBelow(w: nat)
    requires 6 <= w <= 8
    ensures 2 * Pow(2, w - 1) == Pow(2, w)
  {
    PowSucc(2, w - 1);
  }

  /** Below radix 2^8 the last window holds the top four bits. */
  lemma LastWindow(limbs: seq<nat>, w: nat, i: nat)
    requires |limbs| == 4 && Digits(WordBase(), limbs) && 6 <= w < 8 && i + 1 == Windows(w)
    ensures 1 <= Pow(2, w) && 1 <= Pow(Pow(2, w), i) && Val(WordBase(), limbs) / Pow(Pow(2, w), i) % Pow(2, w) < 16
  {
    hide *;
    PowPositive(2, w);
    PowPow(2, w, i);
    assert w * i == 252;
    ScalarSize(limbs, w);
    ModBounds(Val(WordBase(), limbs) / Pow(2, 252), Pow(2, w));
  }

  lemma ToI8OfCarry(carry: nat)
    requires carry <= 1
    ensures ToI8(0 + ToI8(carry)) == carry && Centred(8, carry)
  {
    FitsI8(carry);
    assert Pow(2, 7) == 128;
  }

  lemma ZeroCarry(w: nat, d: int)
    requires 6 <= w < 8 && Centred(w, d)
    ensures ToI8(d + ToI8(0 * Pow(2, w))) == d
  {
    assert Pow(2, 5) == 32 && Pow(2, 6) == 64;
    FitsI8(0);
    FitsI8(d);
  }

  /** The digit loop of `to_radix_2w`. */
  method FillDigits(limbs: seq<nat>, w: nat, digits: array<int>) returns (carry: nat)
    requires |limbs| == 4 && Digits(WordBase(), limbs) && 6 <= w <= 8 && digits.Length == 43
    requires forall k :: 0 <= k < 43 ==> digits[k] == 0
    modifies digits
    ensures carry <= 1 && (w < 8 ==> carry == 0)
    ensures forall k :: 0 <= k < 43 ==> Centred(w, digits[k])
    ensures var count := Windows(w);
            && (forall k :: count <= k < 43 ==> digits[k] == 0)
            && LowPart(Pow(2, w), digits[..count], carry, Val(WordBase(), limbs))
  {
    carry := 0;
    var count := Windows(w);
    ghost var b, v := Pow(2, w), Val(WordBase(), limbs);
    assert forall k :: 0 <= k < 43 ==> Centred(w, digits[k]) by { PowPositive(2, w - 1); CentredIff(w, 0); }
    assert LowPart(b, [], 0, v) by { PowPositive(b, 0); }
    PowPositive(2, w);
    hide *;
    for i := 0 to count
      invariant carry <= 1
      invariant forall k :: 0 <= k < 43 ==> Centred(w, digits[k])
      invariant forall k :: i <= k < 43 ==> digits[k] == 0
      invariant LowPart(b, digits[..i], carry, v)
      invariant i == count && w < 8 ==> carry == 0
    {
      ghost var low := digits[..i];
      var digit, next := NextDigit(limbs, w, i, carry);
      DigitStep(b, low, carry, v / Pow(b, i) % b, next, v);
      if i + 1 == count && w < 8 { LastWindow(limbs, w, i); }
      digits[i] := digit;
      carry := next;
      assert digits[..i + 1] == low + [digit];
    }
  }

  /** `to_radix_2w`: signed digits in [-2^(w-1), 2^(w-1)) that sum back to the scalar. */
  method ToRadix2w(limbs: seq<nat>, w: nat) returns (digits: array<int>)
    requires |limbs| == 4 && Digits(WordBase(), limbs) && 6 <= w <= 8
    ensures digits.Length == 43 && fresh(digits)
    ensures forall k :: 0 <= k < 43 ==> Centred(w, digits[k])
    ensures Balanced(Pow(2, w), digits[..DigitsCount(w)]) == Val(WordBase(), limbs)
  {
    digits := new int[43](_ => 0);
    var carry := FillDigits(limbs, w, digits);
    var count := Windows(w);
    ghost var b, low := Pow(2, w), digits[..count];
    assert DigitsCount(w) == if w == 8 then count + 1 else count;
    hide *;
    WholeScalar(limbs, w, low, carry);
    match w {
      case 8 =>
        ToI8OfCarry(carry);
        digits[count] := ToI8(digits[count] + ToI8(carry));
        assert digits[..count + 1] == low + [carry];
      case _ =>
        ZeroCarry(w, digits[count - 1]);
        digits[count - 1] := ToI8(digits[count - 1] + ToI8(carry * Pow(2, w)));
        assert digits[..count] == low;
    }
  }

  /** After the loop the digits and the terminal carry make up the whole scalar. */
  lemma WholeScalar(limbs: seq<nat>, w: nat, low: seq<int>, carry: nat)
    requires |limbs| == 4 && Digits(WordBase(), limbs) && 6 <= w <= 8 && |low| == Windows(w)
    requires LowPart(Pow(2, w), low, carry, Val(WordBase(), limbs))
    ensures Balanced(Pow(2, w), low + [carry]) == Val(WordBase(), limbs)
    ensures carry == 0 ==> Balanced(Pow(2, w), low) == Val(WordBase(), limbs)
  {
    var b, v := Pow(2, w), Val(WordBase(), limbs);
    BalancedSnoc(b, low, carry);
    ScalarSize(limbs, w);
    DivModUnique(v, Pow(b, |low|), 0, v);
    hide Pow, Val, WordBase, Balanced;
  }
}
