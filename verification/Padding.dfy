// The padding of `encode` in honeybadgerbft/core/reliablebroadcast.py: which messages it confuses, and what
// `decode_output` then makes of an honest leader's message.
module Padding {
  import opened Arithmetic
  import opened Options
  import opened Merkle
  import opened Erasure

  /** The two messages are padded to the same blocks, so they have the same stripes. */
  ghost predicate SamePadding(k: nat, a: Bytes, b: Bytes)
    requires 1 <= k <= 256
  {
    Blocks(k, Pad(k, a)) == Blocks(k, Pad(k, b))
  }

  /** Messages whose encodings share k stripes have the same blocks. */
  lemma SharedStripes(code: Code, k: nat, n: nat, a: Bytes, b: Bytes, nums: seq<nat>)
    requires IsErasureCode(code, k, n) && |nums| == k && Increasing(nums, n)
    requires |Encode(code, k, a)| == n && |Encode(code, k, b)| == n
    requires forall i :: 0 <= i < k ==> Encode(code, k, a)[nums[i]] == Encode(code, k, b)[nums[i]]
    ensures SamePadding(k, a, b)
  {
    BlocksSameLength(k, Pad(k, a));
    BlocksSameLength(k, Pad(k, b));
    assert Rebuilds(code, k, n, Blocks(k, Pad(k, a)), nums);
    assert Rebuilds(code, k, n, Blocks(k, Pad(k, b)), nums);
    assert Pick(Encode(code, k, a), nums) == Pick(Encode(code, k, b), nums);
  }

  // ---------------------------------------------------------------- when the padding is injective

  /** The k for which no two messages are padded to the same blocks. */
  predicate NoCollision(k: nat) { k <= 130 || k == 193 || k == 194 }

  /** Symbol j of what survives of the padding. */
  lemma PadSymbol(k: nat, m: Bytes, j: nat)
    requires 1 <= k <= 256 && j < k - |m| % k
    ensures var x := Join(Blocks(k, Pad(k, m)));
            |x| == |m| + (k - |m| % k) && x[..|m|] == m && x[|m| + j] == Chr(|m| % k)[j % |Chr(|m| % k)|]
  {
    hide Blocks, Join, Chr;
    PaddedBlocks(k, m);
  }

  /** Two paddings of different length that end alike are one symbol and an odd number of symbols from the same 64. */
  lemma PadEndsAlike(k: nat, a: Bytes, b: Bytes)
    requires 1 <= k <= 256 && SamePadding(k, a, b) && |a| < |b|
    ensures |b| % k == k - 1 && 128 <= |a| % k <= k - 3 && (|a| % k) / 64 == (k - 1) / 64 && (k - |a| % k) % 2 == 1
  {
    hide Blocks, Join, Pad, Chr;
    var ca, cb := |a| % k, |b| % k;
    ModBounds(|a|, k);
    ModBounds(|b|, k);
    PadSymbol(k, a, k - ca - 1);
    PadSymbol(k, b, k - cb - 1);
    if k - cb >= 2 {
      PadSymbol(k, a, k - ca - 2);
      PadSymbol(k, b, k - cb - 2);
      SameChar(ca, cb, k - ca - 1, k - cb - 1);
      assert false;
    }
    OneAgainstMany(k, ca);
  }

  /** One symbol of padding that is also the last of a longer padding. */
  lemma OneAgainstMany(k: nat, c: nat)
    requires c < k - 1 < 256 && Chr(c)[(k - c - 1) % |Chr(c)|] == Chr(k - 1)[0 % |Chr(k - 1)|]
    ensures 128 <= c <= k - 3 && c / 64 == (k - 1) / 64 && (k - c) % 2 == 1
  {
  }

  /** The last two symbols of a padding tell its character, except for one-byte characters, where one does. */
  lemma SameChar(c: nat, d: nat, i: nat, j: nat)
    requires c < 256 && d < 256 && 1 <= i && 1 <= j
    requires Chr(c)[i % |Chr(c)|] == Chr(d)[j % |Chr(d)|] && Chr(c)[(i - 1) % |Chr(c)|] == Chr(d)[(j - 1) % |Chr(d)|]
    ensures c == d
  {
  }

  /** Padding is injective for those k. */
  lemma PaddingInjective(k: nat, a: Bytes, b: Bytes)
    requires 1 <= k <= 256 && NoCollision(k) && SamePadding(k, a, b)
    ensures a == b
  {
    if |a| < |b| {
      PadEndsAlike(k, a, b);
      assert false;
    } else if |b| < |a| {
      PadEndsAlike(k, b, a);
      assert false;
    }
    ModBounds(|a|, k);
    PadSymbol(k, a, 0);
    PadSymbol(k, b, 0);
  }

  /** A short message is followed by two-byte characters. */
  lemma ShortPad(k: nat, m: Bytes)
    requires 128 <= |m| < k <= 256
    ensures |Pad(k, m)| == |m| + 2 * (k - |m|) && Pad(k, m)[..|m|] == m
    ensures |Chr(|m|)| == 2 && Pad(k, m)[|m|] == Chr(|m|)[0] && Pad(k, m)[|m| + 1] == Chr(|m|)[1]
    ensures |m| + 1 < k ==> Pad(k, m)[|m| + 2] == Chr(|m|)[0]
  {
    SmallMod(|m|, k);
    TwoByteRepeat(|m|, k - |m|);
    hide Repeat, Chr;
    var pad := Repeat(Chr(|m|), k - |m|);
    assert Pad(k, m) == m + pad;
  }

  lemma SmallMod(a: nat, k: nat)
    requires a < k
    ensures a % k == a
  {
  }

  lemma TwoByteRepeat(c: nat, n: nat)
    requires 128 <= c
    ensures |Chr(c)| == 2 && |Repeat(Chr(c), n)| == 2 * n
    ensures forall j :: 0 <= j < 2 * n ==> Repeat(Chr(c), n)[j] == Chr(c)[j % 2]
  {
  }

  /** One character of padding: only its first byte survives. */
  lemma OneCharacter(k: nat, a: Bytes)
    requires 129 <= k <= 256 && |a| == k - 1
    ensures k <= |Pad(k, a)| < 2 * k && Pad(k, a)[..k] == a + [Chr(k - 1)[0]]
  {
    ShortPad(k, a);
    hide Pad;
    var p := Pad(k, a);
    assert p[..k] == p[..|a|] + [p[|a|]];
  }

  /** Three characters of padding: one and a half survive. */
  lemma ThreeCharacters(k: nat, b: Bytes)
    requires 131 <= k <= 256 && |b| == k - 3
    ensures k <= |Pad(k, b)| < 2 * k && Pad(k, b)[..k] == b + Chr(k - 3) + [Chr(k - 3)[0]]
  {
    hide Pad, Chr;
    ShortPad(k, b);
    ThreeMore(Pad(k, b), |b|, b, Chr(|b|));
  }

  lemma ThreeMore(p: Bytes, n: nat, b: Bytes, x: Bytes)
    requires n + 3 <= |p| && p[..n] == b && |x| == 2 && p[n] == x[0] && p[n + 1] == x[1] && p[n + 2] == x[0]
    ensures p[..n + 3] == b + x + [x[0]]
  {
  }

  lemma OneStep(len: nat, k: nat)
    requires 1 <= k <= len < 2 * k
    ensures len / k == 1
  {
  }

  /** For every other k the message of k - 3 zeros and the one with its first pad character get the same blocks. */
  lemma PaddingCollides(k: nat) returns (a: Bytes, b: Bytes)
    requires 1 <= k <= 256 && !NoCollision(k)
    ensures a != b && SamePadding(k, a, b)
  {
    hide Pad, Blocks;
    b := seq(k - 3, _ => Byte(0));
    a := b + Chr(k - 3);
    OneCharacter(k, a);
    ThreeCharacters(k, b);
    assert Chr(k - 1)[0] == Chr(k - 3)[0];
    OneStep(|Pad(k, a)|, k);
    OneStep(|Pad(k, b)|, k);
    SameBlocks(k, Pad(k, a), Pad(k, b));
  }

  /** Padding is injective exactly for those k. */
  lemma PaddingInjectiveIff(k: nat)
    requires 1 <= k <= 256
    ensures NoCollision(k) <==> forall a, b :: SamePadding(k, a, b) ==> a == b
  {
    hide SamePadding;
    if NoCollision(k) {
      forall a, b | SamePadding(k, a, b) ensures a == b { PaddingInjective(k, a, b); }
    } else {
      var a, b := PaddingCollides(k);
    }
  }

  /** Blocks are cut from the first k * step symbols. */
  lemma SameBlocks(k: nat, x: Bytes, y: Bytes)
    requires 1 <= k && |x| / k == |y| / k && k * (|x| / k) <= |x| && k * (|x| / k) <= |y|
    requires x[..k * (|x| / k)] == y[..k * (|x| / k)]
    ensures Blocks(k, x) == Blocks(k, y)
  {
    var step := |x| / k;
    forall i: nat | i < k ensures Blocks(k, x)[i] == Blocks(k, y)[i] {
      StepBounds(k, |x|, i);
      StepEnd(k, step, i);
      SameSlice(x, y, i * step, (i + 1) * step, k * step);
    }
  }

  lemma StepEnd(k: nat, step: nat, i: nat)
    requires i < k
    ensures 0 <= i * step <= (i + 1) * step <= k * step
  {
  }

  lemma SameSlice(x: Bytes, y: Bytes, i: nat, j: nat, end: nat)
    requires i <= j <= end <= |x| && end <= |y| && x[..end] == y[..end]
    ensures x[i .. j] == y[i .. j]
  {
    assert x[i .. j] == x[..end][i .. j] && y[i .. j] == y[..end][i .. j];
  }

  // ---------------------------------------------------------------- what becomes of an honest leader's message

  /** The message that decoding makes of the padded m. */
  function Decoded(k: nat, m: Bytes): Bytes
    requires 1 <= k <= 256
  {
    DropLast(Join(Blocks(k, Pad(k, m))), k - CodeByte(k, |m| % k))
  }

  /** The lengths and endings for which the decoded message is another one with the same stripes. */
  predicate Mimics(k: nat, m: Bytes)
    requires 1 <= k <= 256
  {
    || (k == 196 && |m| % k == 193)
    || (&& k >= 198 && k % 2 == 0 && |m| % k == k - 1 && k - 196 <= |m|
        && m[|m| - (k - 196)..] == Repeat(Chr(195), (k - 196) / 2))
  }

  /** What the broadcast of m ends in: m itself, its mimic, or the failure of the re-encoding check. */
  function HonestOutput(k: nat, m: Bytes): Option<Bytes>
    requires 1 <= k <= 256
  {
    if PadRecoverable(k, |m|) then Some(m)
    else if Mimics(k, m) then Some(if k == 196 then m + Chr(193) else m[..|m| - (k - 196)])
    else None
  }

  lemma HonestOutputIff(k: nat, m: Bytes)
    requires 1 <= k <= 256
    ensures HonestOutput(k, m) == Some(m) <==> PadRecoverable(k, |m|)
  {
    if k == 196 { assert |m + Chr(193)| == |m| + 2; }
  }

  /** With the honest root the re-encoding check asks for the same padding. */
  lemma OutputOfRoot(code: Code, k: nat, n: nat, m: Bytes, stripes: seq<Option<Bytes>>)
    requires IsErasureCode(code, k, n) && |stripes| == n
    requires Encode(code, k, m) != [] && AllVerified(Root(Encode(code, k, m)), stripes)
    requires k <= PresentFrom(stripes, 0)
    ensures DecodeOutput(code, k, Root(Encode(code, k, m)), stripes)
            == if SamePadding(k, Decoded(k, m), m) then Some(Decoded(k, m)) else None
  {
    hide Encode, Decode, Root, SamePadding, Decoded;
    var d := Decoded(k, m);
    EncodeShape(code, k, n, m);
    EncodeShape(code, k, n, d);
    DecodesTo(code, k, n, m, stripes);
    if Root(Encode(code, k, d)) == Root(Encode(code, k, m)) { SameRoot(code, k, n, d, m); }
    if SamePadding(k, d, m) { SameEncoding(code, k, d, m); }
  }

  lemma UnpadIs(k: nat, m: Bytes)
    requires 1 <= k <= 256
    ensures Unpad(k, Join(Blocks(k, Pad(k, m)))) == Some(Decoded(k, m))
  {
    hide Join, Blocks, Pad, CodeByte, DropLast;
    var x, c := DecodedBlocks(k, m);
    ModBounds(|m|, k);
  }

  lemma DecodesTo(code: Code, k: nat, n: nat, m: Bytes, stripes: seq<Option<Bytes>>)
    requires IsErasureCode(code, k, n) && |stripes| == n
    requires Encode(code, k, m) != [] && AllVerified(Root(Encode(code, k, m)), stripes)
    requires 1 <= k <= 256 && k <= PresentFrom(stripes, 0)
    ensures Decode(code, k, stripes) == Some(Decoded(k, m))
  {
    hide *;
    EncodeShape(code, k, n, m);
    VerifiedAreLeaves(Encode(code, k, m), stripes);
    DecodeEncoded(code, k, n, m, stripes);
    UnpadIs(k, m);
  }

  lemma SameEncoding(code: Code, k: nat, a: Bytes, b: Bytes)
    requires 1 <= k <= 256 && SamePadding(k, a, b)
    ensures Encode(code, k, a) == Encode(code, k, b)
  {
  }

  /** Encodings with the same root are the same, so their messages have the same padding. */
  lemma SameRoot(code: Code, k: nat, n: nat, a: Bytes, b: Bytes)
    requires IsErasureCode(code, k, n) && |Encode(code, k, a)| == n && |Encode(code, k, b)| == n
    requires Root(Encode(code, k, a)) == Root(Encode(code, k, b))
    ensures SamePadding(k, a, b)
  {
    hide Encode, Root, Verifies, Branch;
    forall i: nat | i < n ensures Encode(code, k, a)[i] == Encode(code, k, b)[i] {
      var bottom := BottomRow(n);
      HonestBranchVerifies(Encode(code, k, a), i);
      AcceptedIsLeaf(Encode(code, k, b), i, Encode(code, k, a)[i], Branch(Encode(code, k, a), bottom, bottom + i));
    }
    SharedStripes(code, k, n, a, b, seq(k, i requires 0 <= i < k => i));
  }

  /** The decoded message has another length than m unless the padding is recoverable. */
  lemma DecodedLength(k: nat, m: Bytes) returns (c: nat, d: int)
    requires 1 <= k <= 256
    ensures c == |m| % k && c < k && d == CodeByte(k, c) && (d == c <==> PadRecoverable(k, |m|))
    ensures d == c ==> Decoded(k, m) == m
    ensures d < k ==> |Decoded(k, m)| == |m| + d - c && Decoded(k, m) == Join(Blocks(k, Pad(k, m)))[..|m| + d - c]
    ensures k <= d ==> |Decoded(k, m)| <= d - k
  {
    var x;
    x, c := DecodedBlocks(k, m);
    ModBounds(|m|, k);
    CodeByteIff(k, c);
    d := CodeByte(k, c);
  }

  /** The symbols that survive of the padding determine the blocks. */
  lemma JoinIs(k: nat, a: Bytes, x: Bytes)
    requires 1 <= k <= 256 && |x| == |a| + (k - |a| % k) && x[..|a|] == a
    requires forall j: nat :: j < k - |a| % k ==> x[|a| + j] == Chr(|a| % k)[j % |Chr(|a| % k)|]
    ensures Join(Blocks(k, Pad(k, a))) == x
  {
    hide Blocks, Join, Chr, Pad;
    var y := Join(Blocks(k, Pad(k, a)));
    forall i | 0 <= i < |x| ensures |y| == |x| && y[i] == x[i] {
      if i < |a| {
        PadSymbol(k, a, 0);
        assert x[i] == x[..|a|][i] && y[i] == y[..|a|][i];
      } else {
        PadSymbol(k, a, i - |a|);
        assert x[|a| + (i - |a|)] == x[i];
      }
    }
    PadSymbol(k, a, 0);
  }

  lemma SameJoin(k: nat, a: Bytes, b: Bytes)
    requires 1 <= k <= 256 && |a| / k == |b| / k
    requires Join(Blocks(k, Pad(k, a))) == Join(Blocks(k, Pad(k, b)))
    ensures SamePadding(k, a, b)
  {
    hide Blocks, Join, Pad;
    PaddedSteps(k, a);
    PaddedSteps(k, b);
    PaddedBlocks(k, a);
    PaddedBlocks(k, b);
    SameBlocks(k, Pad(k, a), Pad(k, b));
  }

  /** A decoded message with the padding of m, but not m, is a mimic. */
  lemma OnlyMimics(k: nat, m: Bytes)
    requires 1 <= k <= 256 && !PadRecoverable(k, |m|) && SamePadding(k, Decoded(k, m), m)
    ensures Mimics(k, m)
  {
    var c, d := DecodedLength(k, m);
    var e := Decoded(k, m);
    ModBounds(|m|, k);
    ModBounds(|e|, k);
    hide Decoded, SamePadding, Join, Blocks, Pad;
    if k <= d {
      if |e| < |m| { PadEndsAlike(k, e, m); } else { PadEndsAlike(k, m, e); }
      assert false;
    }
    hide CodeByte;
    ShiftedResidue(|m|, k, d);
    if |e| > |m| {
      PadEndsAlike(k, m, e);
      LongerMimic(k, c);
    } else {
      PadEndsAlike(k, e, m);
      ShorterMimic(k, d);
      MimicTail(k, m, e);
    }
  }

  lemma LongerMimic(k: nat, c: nat)
    requires c < k <= 256 && CodeByte(k, c) == k - 1 && 128 <= c <= k - 3 && c / 64 == (k - 1) / 64 && (k - c) % 2 == 1
    ensures k == 196 && c == 193
  {
  }

  lemma ShorterMimic(k: nat, d: nat)
    requires 1 <= k <= 256 && CodeByte(k, k - 1) == d && 128 <= d <= k - 3 && (k - d) % 2 == 1
    ensures k >= 198 && k % 2 == 0 && d == 195
  {
  }

  lemma ShiftedResidue(len: nat, k: nat, d: nat)
    requires 0 < k && d < k && 0 <= len + d - len % k
    ensures (len + d - len % k) % k == d && (len + d - len % k) / k == len / k
  {
    DivModUnique(len + d - len % k, k, len / k, d);
  }

  /** The end of the longer message is the padding of the shorter. */
  lemma MimicTail(k: nat, m: Bytes, e: Bytes)
    requires 198 <= k <= 256 && k % 2 == 0 && |m| % k == k - 1 && |e| % k == 195 && |e| == |m| - (k - 196)
    requires SamePadding(k, e, m)
    ensures m[|m| - (k - 196)..] == Repeat(Chr(195), (k - 196) / 2)
  {
    hide Pad, Blocks, Join;
    TwoByteRepeat(195, (k - 196) / 2);
    PadSymbol(k, m, 0);
    var x := Join(Blocks(k, Pad(k, m)));
    var tail, pad := m[|m| - (k - 196)..], Repeat(Chr(195), (k - 196) / 2);
    forall j | 0 <= j < k - 196 ensures tail[j] == pad[j] {
      PadSymbol(k, e, j);
      assert tail[j] == x[..|m|][|e| + j];
    }
  }

  lemma MimicLonger(k: nat, m: Bytes)
    requires k == 196 && Mimics(k, m)
    ensures Decoded(k, m) == m + Chr(193) && SamePadding(k, Decoded(k, m), m)
  {
    hide Pad, Blocks, Join;
    var c, d := DecodedLength(k, m);
    ModBounds(|m|, k);
    ShiftedResidue(|m|, k, d);
    PadSymbol(k, m, 0);
    PadSymbol(k, m, 1);
    PadSymbol(k, m, 2);
    var x, e := Join(Blocks(k, Pad(k, m))), Decoded(k, m);
    assert e == x[..|m|] + [x[|m|], x[|m| + 1]];
    assert x[..|e|] == e;
    JoinIs(k, e, x);
    SameJoin(k, e, m);
  }

  lemma MimicShorter(k: nat, m: Bytes)
    requires 1 <= k <= 256 && k != 196 && Mimics(k, m)
    ensures Decoded(k, m) == m[..|m| - (k - 196)] && SamePadding(k, Decoded(k, m), m)
  {
    hide Pad, Blocks, Join, Repeat;
    var c, d := DecodedLength(k, m);
    ModBounds(|m|, k);
    ShiftedResidue(|m|, k, d);
    PadSymbol(k, m, 0);
    TwoByteRepeat(195, (k - 196) / 2);
    var x, e := Join(Blocks(k, Pad(k, m))), Decoded(k, m);
    assert e == x[..|m|][..|m| - (k - 196)];
    forall j: nat | j < k - 195 ensures x[|e| + j] == Chr(195)[j % 2] {
      if j < k - 196 { assert x[|e| + j] == x[..|m|][|e| + j] == m[|m| - (k - 196)..][j]; }
    }
    JoinIs(k, e, x);
    SameJoin(k, e, m);
  }

  /** What `decode_output` makes of verified stripes under an honest root, in all cases. */
  lemma OutputIs(code: Code, k: nat, n: nat, m: Bytes, stripes: seq<Option<Bytes>>)
    requires IsErasureCode(code, k, n) && |stripes| == n
    requires Encode(code, k, m) != [] && AllVerified(Root(Encode(code, k, m)), stripes)
    requires k <= PresentFrom(stripes, 0)
    ensures DecodeOutput(code, k, Root(Encode(code, k, m)), stripes) == HonestOutput(k, m)
  {
    OutputOfRoot(code, k, n, m, stripes);
    hide Decoded, Mimics, DecodeOutput, Encode, Root, AllVerified;
    var c, d := DecodedLength(k, m);
    if PadRecoverable(k, |m|) {
      assert SamePadding(k, Decoded(k, m), m);
    } else if Mimics(k, m) {
      if k == 196 { MimicLonger(k, m); } else { MimicShorter(k, m); }
    } else if SamePadding(k, Decoded(k, m), m) {
      OnlyMimics(k, m);
    }
  }
}
