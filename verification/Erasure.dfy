// Padding, splitting and erasure coding: `encode` and `decode` of
// honeybadgerbft/core/reliablebroadcast.py, over any code with the zfec contract.
module Erasure {
  import opened Options
  import opened Merkle
  import opened Arithmetic

  /** The two zfec calls: `enc` makes stripes of K equally long blocks; `dec` gets K stripes and their
      numbers, in increasing order, and gives back K blocks or raises. */
  datatype Code = Code(enc: seq<Bytes> -> seq<Bytes>, dec: (seq<Bytes>, seq<nat>) -> Option<seq<Bytes>>)

  predicate SameLength(blocks: seq<Bytes>) {
    forall i, j :: 0 <= i < |blocks| && 0 <= j < |blocks| ==> |blocks[i]| == |blocks[j]|
  }

  predicate Increasing(nums: seq<nat>, n: nat) {
    && (forall i :: 0 <= i < |nums| ==> nums[i] < n)
    && (forall i, j :: 0 <= i < j < |nums| ==> nums[i] < nums[j])
  }

  function Pick(stripes: seq<Bytes>, nums: seq<nat>): seq<Bytes>
    requires forall i :: 0 <= i < |nums| ==> nums[i] < |stripes|
  {
    seq(|nums|, i requires 0 <= i < |nums| => stripes[nums[i]])
  }

  predicate Rebuilds(code: Code, k: nat, n: nat, blocks: seq<Bytes>, nums: seq<nat>) {
    |blocks| == k && SameLength(blocks) ==>
      && |code.enc(blocks)| == n
      && (|nums| == k && Increasing(nums, n) ==> code.dec(Pick(code.enc(blocks), nums), nums) == Some(blocks))
  }

  /** The number of stripes that zfec makes at most. */
  const ZFEC_LIMIT := 256

  /** Any k of the n stripes rebuild the blocks. */
  ghost predicate IsErasureCode(code: Code, k: nat, n: nat) {
    && 1 <= k <= n && k <= 256
    && forall blocks, nums :: Rebuilds(code, k, n, blocks, nums)
  }

  // ---------------------------------------------------------------- padding

  /** `chr(c).encode()` for c < 2048: one byte below 128, two bytes from there on. */
  function Chr(c: nat): Bytes {
    if c < 128 then [Byte(c)] else [Byte(0xC0 + c / 64), Byte(0x80 + c % 64)]
  }

  /** `k * x` on strings. */
  function Repeat(x: Bytes, k: nat): (r: Bytes)
    requires x != []
    ensures |r| == k * |x|
  {
    assert 0 <= k * |x|;
    seq(k * |x|, i requires 0 <= i < k * |x| => x[i % |x|])
  }

  function Pad(k: nat, m: Bytes): Bytes
    requires 1 <= k <= 256
  {
    m + Repeat(Chr(|m| % k), k - |m| % k)
  }

  /** `m[i*step : (i+1)*step]` for i in range(k). */
  function Blocks(k: nat, m: Bytes): (blocks: seq<Bytes>)
    requires 1 <= k
    ensures |blocks| == k
  {
    var step := |m| / k;
    seq(k, i requires 0 <= i < k => StepBounds(k, |m|, i); m[i * step .. (i + 1) * step])
  }

  lemma StepBounds(k: nat, len: nat, i: nat)
    requires 1 <= k && i < k
    ensures 0 <= i * (len / k) <= (i + 1) * (len / k) <= len
  {
    var step := len / k;
    DivMod(len, k);
    StepProducts(k, i, step);
  }

  lemma StepProducts(k: int, i: int, step: int)
    requires 0 <= i < k && 0 <= step
    ensures 0 <= i * step <= (i + 1) * step <= k * step
  {
    MulMonotone(step, i, i + 1);
    MulMonotone(step, i + 1, k);
    assert 0 <= i * step;
  }

  lemma BlocksSameLength(k: nat, m: Bytes)
    requires 1 <= k
    ensures SameLength(Blocks(k, m))
    ensures forall i :: 0 <= i < k ==> |Blocks(k, m)[i]| == |m| / k
  {
    forall i | 0 <= i < k ensures |Blocks(k, m)[i]| == |m| / k {
      StepBounds(k, |m|, i);
      assert (i + 1) * (|m| / k) == i * (|m| / k) + |m| / k;
    }
  }

  function Join(blocks: seq<Bytes>): Bytes {
    if blocks == [] then [] else Join(blocks[..|blocks| - 1]) + blocks[|blocks| - 1]
  }

  lemma {:induction false} JoinPrefix(k: nat, m: Bytes, i: nat)
    requires 1 <= k && i <= k
    ensures i * (|m| / k) <= |m|
    ensures Join(Blocks(k, m)[..i]) == m[..i * (|m| / k)]
  {
    var blocks, step := Blocks(k, m), |m| / k;
    if i > 0 {
      JoinPrefix(k, m, i - 1);
      StepBounds(k, |m|, i - 1);
      assert blocks[..i][..i - 1] == blocks[..i - 1];
      assert m[..(i - 1) * step] + m[(i - 1) * step .. i * step] == m[..i * step];
    }
  }

  /** Joining the blocks gives back all but the bytes beyond the last whole step. */
  lemma JoinBlocks(k: nat, m: Bytes)
    requires 1 <= k
    ensures k * (|m| / k) <= |m|
    ensures Join(Blocks(k, m)) == m[..k * (|m| / k)]
  {
    JoinPrefix(k, m, k);
    assert Blocks(k, m)[..k] == Blocks(k, m);
  }

  /** The value of a byte; a digest's own bytes are not part of this model. */
  function ByteVal(s: Sym): int {
    match s
    case Byte(b) => b
    case Dig(_) => 0
  }

  /** Python's `m[:-p]` for any integer p. */
  function DropLast(m: Bytes, p: int): Bytes {
    if p > |m| then []
    else if p > 0 then m[..|m| - p]
    else if -p <= |m| then m[..-p]
    else m
  }

  /** `padlen = K - m[-1]; m[:-padlen]`; None is the IndexError of an empty string. */
  function Unpad(k: nat, m: Bytes): Option<Bytes> {
    if m == [] then None else Some(DropLast(m, k - ByteVal(m[|m| - 1])))
  }

  // ---------------------------------------------------------------- encode and decode

  function Encode(code: Code, k: nat, m: Bytes): seq<Bytes>
    requires 1 <= k <= 256
  {
    code.enc(Blocks(k, Pad(k, m)))
  }

  /** The indices of the first k stripes present at or after `from`. */
  function FirstStripes(k: nat, stripes: seq<Option<Bytes>>, from: nat): (nums: seq<nat>)
    requires from <= |stripes|
    ensures |nums| <= k
    ensures forall i :: 0 <= i < |nums| ==> from <= nums[i] < |stripes| && stripes[nums[i]].Some?
    decreases |stripes| - from
  {
    if k == 0 || from == |stripes| then []
    else if stripes[from] == None then FirstStripes(k, stripes, from + 1)
    else [from] + FirstStripes(k - 1, stripes, from + 1)
  }

  function Values(stripes: seq<Option<Bytes>>, nums: seq<nat>): seq<Bytes>
    requires Present(stripes, nums)
  {
    seq(|nums|, i requires 0 <= i < |nums| => stripes[nums[i]].value)
  }

  /** None stands for an exception. */
  function Decode(code: Code, k: nat, stripes: seq<Option<Bytes>>): Option<Bytes> {
    var nums := FirstStripes(k, stripes, 0);
    if |nums| < k then None
    else
      match code.dec(Values(stripes, nums), nums)
      case None => None
      case Some(rec) => Unpad(k, Join(rec))
  }

  lemma TakeOneMore(k: nat, stripes: seq<Option<Bytes>>, nums: seq<nat>, i: nat)
    requires |nums| < k && i < |stripes| && stripes[i].Some?
    requires nums + FirstStripes(k - |nums|, stripes, i) == FirstStripes(k, stripes, 0)
    ensures nums + [i] + FirstStripes(k - |nums + [i]|, stripes, i + 1) == FirstStripes(k, stripes, 0)
    ensures |nums + [i]| == k ==> nums + [i] == FirstStripes(k, stripes, 0)
  {
    var rest := FirstStripes(k - |nums + [i]|, stripes, i + 1);
    assert nums + ([i] + rest) == nums + [i] + rest;
    if |nums + [i]| == k { assert rest == []; }
  }

  predicate Present(stripes: seq<Option<Bytes>>, nums: seq<nat>) {
    forall j :: 0 <= j < |nums| ==> nums[j] < |stripes| && stripes[nums[j]].Some?
  }

  /** The scanning loop of `decode`; None is its ValueError. The source assumes k >= 1. */
  method TakeStripes(k: nat, stripes: seq<Option<Bytes>>) returns (taken: Option<(seq<Bytes>, seq<nat>)>)
    requires 1 <= k
    ensures var nums := FirstStripes(k, stripes, 0);
            taken == if |nums| == k then Some((Values(stripes, nums), nums)) else None
  {
    var blocks: seq<Bytes>, nums: seq<nat>, i := [], [], 0;
    while i < |stripes|
      invariant 0 <= i <= |stripes| && |nums| < k
      invariant Present(stripes, nums) && blocks == Values(stripes, nums)
      invariant nums + FirstStripes(k - |nums|, stripes, i) == FirstStripes(k, stripes, 0)
    {
      if stripes[i] != None {
        TakeOneMore(k, stripes, nums, i);
        assert Values(stripes, nums + [i]) == blocks + [stripes[i].value];
        blocks, nums := blocks + [stripes[i].value], nums + [i];
        if |blocks| == k {
          return Some((blocks, nums));
        }
      }
      i := i + 1;
    }
    return None;
  }

  // ---------------------------------------------------------------- what decoding gives back

  /** The stripes present are stripes of `m`. */
  predicate StripesOf(strs: seq<Bytes>, stripes: seq<Option<Bytes>>) {
    |stripes| == |strs| && forall i :: 0 <= i < |stripes| && stripes[i].Some? ==> stripes[i].value == strs[i]
  }

  lemma {:induction false} FirstIncreasing(k: nat, stripes: seq<Option<Bytes>>, from: nat)
    requires from <= |stripes|
    ensures Increasing(FirstStripes(k, stripes, from), |stripes|)
    decreases |stripes| - from
  {
    if k != 0 && from < |stripes| {
      FirstIncreasing(if stripes[from] == None then k else k - 1, stripes, from + 1);
    }
  }

  function PresentFrom(stripes: seq<Option<Bytes>>, from: nat): nat
    requires from <= |stripes|
    decreases |stripes| - from
  {
    if from == |stripes| then 0
    else (if stripes[from].Some? then 1 else 0) + PresentFrom(stripes, from + 1)
  }

  lemma {:induction false} OneMorePresent(stripes: seq<Option<Bytes>>, i: nat, v: Bytes, from: nat)
    requires i < |stripes| && stripes[i] == None && from <= |stripes|
    ensures PresentFrom(stripes[i := Some(v)], from) == PresentFrom(stripes, from) + if from <= i then 1 else 0
    decreases |stripes| - from
  {
    if from < |stripes| { OneMorePresent(stripes, i, v, from + 1); }
  }

  lemma {:induction false} NonePresent(n: nat, from: nat)
    requires from <= n
    ensures PresentFrom(seq(n, _ => None), from) == 0
    decreases n - from
  {
    if from < n { NonePresent(n, from + 1); }
  }

  function PresentSet(stripes: seq<Option<Bytes>>, from: nat): set<nat> {
    set i: nat | from <= i < |stripes| && stripes[i].Some?
  }

  lemma {:induction false} PresentCount(stripes: seq<Option<Bytes>>, from: nat)
    requires from <= |stripes|
    ensures |PresentSet(stripes, from)| == PresentFrom(stripes, from)
    decreases |stripes| - from
  {
    if from < |stripes| {
      PresentCount(stripes, from + 1);
      var rest := PresentSet(stripes, from + 1);
      assert PresentSet(stripes, from) == if stripes[from].Some? then rest + {from} else rest;
    } else {
      assert PresentSet(stripes, from) == {};
    }
  }

  lemma {:induction false} EnoughStripes(k: nat, stripes: seq<Option<Bytes>>, from: nat)
    requires from <= |stripes|
    ensures |FirstStripes(k, stripes, from)|
            == if k <= PresentFrom(stripes, from) then k else PresentFrom(stripes, from)
    decreases |stripes| - from
  {
    if k != 0 && from < |stripes| {
      EnoughStripes(if stripes[from] == None then k else k - 1, stripes, from + 1);
    }
  }

  lemma EncodeShape(code: Code, k: nat, n: nat, m: Bytes)
    requires IsErasureCode(code, k, n)
    ensures |Encode(code, k, m)| == n
  {
    BlocksSameLength(k, Pad(k, m));
    assert Rebuilds(code, k, n, Blocks(k, Pad(k, m)), []);
  }

  /** Any k stripes of an encoding decode to the same thing: the unpadded padding of `m`. */
  lemma DecodeEncoded(code: Code, k: nat, n: nat, m: Bytes, stripes: seq<Option<Bytes>>)
    requires IsErasureCode(code, k, n) && |Encode(code, k, m)| == n
    requires StripesOf(Encode(code, k, m), stripes) && k <= PresentFrom(stripes, 0)
    ensures Decode(code, k, stripes) == Unpad(k, Join(Blocks(k, Pad(k, m))))
  {
    var blocks, nums := Blocks(k, Pad(k, m)), FirstStripes(k, stripes, 0);
    EnoughStripes(k, stripes, 0);
    FirstIncreasing(k, stripes, 0);
    BlocksSameLength(k, Pad(k, m));
    assert Rebuilds(code, k, n, blocks, nums);
    assert Values(stripes, nums) == Pick(code.enc(blocks), nums);
  }

  // ---------------------------------------------------------------- when decoding undoes encoding

  /** With c = |m| mod k and k - c bytes or characters of padding: the pad character is one byte,
      or the last byte that survives the truncation to k blocks happens to be c. */
  predicate PadRecoverable(k: nat, len: nat)
    requires 1 <= k
  {
    var c := len % k;
    c < 128 || (c < 192 && (k - c) % 2 == 0) || (c == 195 && (k - c) % 2 == 1)
  }

  lemma SmallPadRecoverable(k: nat, len: nat)
    requires 1 <= k <= 128
    ensures PadRecoverable(k, len)
  {
  }

  /** Two-byte pad characters make the string longer, but never by another k bytes. */
  lemma PaddedSteps(k: nat, m: Bytes)
    requires 1 <= k <= 256
    ensures |Pad(k, m)| / k == |m| / k + 1
    ensures k * (|m| / k + 1) == |m| + (k - |m| % k) <= |Pad(k, m)|
  {
    var c, t := |m| % k, |m| / k;
    assert |m| == k * t + c;
    assert k * (t + 1) == k * t + k;
    DivModUnique(|Pad(k, m)|, k, t + 1, if c < 128 then 0 else k - c);
  }

  /** What is left of the padded message after splitting it into k blocks. */
  lemma PaddedBlocks(k: nat, m: Bytes)
    requires 1 <= k <= 256
    ensures var len := |m| + (k - |m| % k);
            len <= |Pad(k, m)| && Join(Blocks(k, Pad(k, m))) == Pad(k, m)[..len]
  {
    PaddedSteps(k, m);
    JoinBlocks(k, Pad(k, m));
  }

  /** The byte that survives in the last place, for c = |m| mod k. */
  function CodeByte(k: nat, c: nat): int
    requires c < k
  {
    if c < 128 then c else if (k - c) % 2 == 1 then 0xC0 + c / 64 else 0x80 + c % 64
  }

  lemma CodeByteIff(k: nat, c: nat)
    requires c < k <= 256
    ensures CodeByte(k, c) == c <==> c < 128 || (c < 192 && (k - c) % 2 == 0) || (c == 195 && (k - c) % 2 == 1)
    ensures 128 <= c ==> 128 <= CodeByte(k, c) <= 195
  {
  }

  lemma LastPadByte(k: nat, c: nat)
    requires c < k <= 256
    ensures k - c <= |Repeat(Chr(c), k - c)|
    ensures ByteVal(Repeat(Chr(c), k - c)[k - c - 1]) == CodeByte(k, c)
  {
    var pad := Repeat(Chr(c), k - c);
    assert pad[k - c - 1] == Chr(c)[(k - c - 1) % |Chr(c)|];
  }

  /** The joined blocks: m, then k - c bytes of padding, the last of them read as the length code. */
  lemma DecodedBlocks(k: nat, m: Bytes) returns (x: Bytes, c: nat)
    requires 1 <= k <= 256
    ensures c == |m| % k && c <= |m| && x == Join(Blocks(k, Pad(k, m)))
    ensures |x| == |m| + (k - c) && x[..|m|] == m && ByteVal(x[|x| - 1]) == CodeByte(k, c)
  {
    c := |m| % k;
    ModBounds(|m|, k);
    PaddedBlocks(k, m);
    LastPadByte(k, c);
    x := Join(Blocks(k, Pad(k, m)));
    TakePadded(m, Repeat(Chr(c), k - c), k - c);
  }

  lemma TakePadded(m: Bytes, pad: Bytes, j: nat)
    requires 1 <= j <= |pad|
    ensures var x := (m + pad)[..|m| + j]; |x| == |m| + j && x[..|m|] == m && x[|x| - 1] == pad[j - 1]
  {
  }

  /** Taking p symbols off the padded message gives m only when p symbols of padding survived. */
  lemma DropIff(k: nat, c: nat, m: Bytes, x: Bytes, p: int)
    requires c < k && c <= |m| && |x| == |m| + (k - c) && x[..|m|] == m
    requires if c < 128 then p == k - c else k - 195 <= p <= k - 128
    ensures DropLast(x, p) == m <==> p == k - c
  {
    if p == k - c {
      assert DropLast(x, p) == m;
    } else {
      assert |DropLast(x, p)| != |m|;
    }
  }

  /** `decode` after `encode` is the identity exactly when the padding is recoverable. */
  lemma RoundTripIff(code: Code, k: nat, n: nat, m: Bytes, stripes: seq<Option<Bytes>>)
    requires IsErasureCode(code, k, n) && |Encode(code, k, m)| == n
    requires StripesOf(Encode(code, k, m), stripes) && k <= PresentFrom(stripes, 0)
    ensures Decode(code, k, stripes) == Some(m) <==> PadRecoverable(k, |m|)
  {
    DecodeEncoded(code, k, n, m, stripes);
    var x, c := DecodedBlocks(k, m);
    CodeByteIff(k, c);
    DropIff(k, c, m, x, k - CodeByte(k, c));
  }

  /** So it always is for k <= 128. */
  lemma RoundTrip(code: Code, k: nat, n: nat, m: Bytes, stripes: seq<Option<Bytes>>)
    requires IsErasureCode(code, k, n) && k <= 128 && |Encode(code, k, m)| == n
    requires StripesOf(Encode(code, k, m), stripes) && k <= PresentFrom(stripes, 0)
    ensures Decode(code, k, stripes) == Some(m)
  {
    RoundTripIff(code, k, n, m, stripes);
  }

  // ---------------------------------------------------------------- decode_output

  /** `decode_output`: decode, re-encode, and accept only if the Merkle root is the same. */
  function DecodeOutput(code: Code, k: nat, root: Bytes, stripes: seq<Option<Bytes>>): Option<Bytes>
    requires 1 <= k <= 256
  {
    match Decode(code, k, stripes)
    case None => None
    case Some(m) => if Encode(code, k, m) != [] && Root(Encode(code, k, m)) == root then Some(m) else None
  }

  /** Every stripe present was accepted for its index under `root`. */
  ghost predicate AllVerified(root: Bytes, stripes: seq<Option<Bytes>>) {
    forall i :: 0 <= i < |stripes| && stripes[i].Some? ==> Accepted(|stripes|, root, i, stripes[i].value)
  }

  ghost predicate Accepted(n: nat, root: Bytes, i: nat, v: Bytes) {
    1 <= n && exists branch :: Verifies(n, v, root, branch, i)
  }

  lemma VerifiedAreLeaves(strs: seq<Bytes>, stripes: seq<Option<Bytes>>)
    requires strs != [] && |stripes| == |strs| && AllVerified(Root(strs), stripes)
    ensures StripesOf(strs, stripes)
  {
    forall i | 0 <= i < |stripes| && stripes[i].Some? ensures stripes[i].value == strs[i] {
      var branch :| Verifies(|stripes|, stripes[i].value, Root(strs), branch, i);
      AcceptedIsLeaf(strs, i, stripes[i].value, branch);
    }
  }

  lemma OutputSpreads(code: Code, k: nat, n: nat, root: Bytes, a: seq<Option<Bytes>>, b: seq<Option<Bytes>>)
    requires IsErasureCode(code, k, n) && |a| == n && |b| == n
    requires AllVerified(root, a) && AllVerified(root, b)
    requires k <= PresentFrom(a, 0) && k <= PresentFrom(b, 0)
    requires DecodeOutput(code, k, root, a).Some?
    ensures DecodeOutput(code, k, root, b) == DecodeOutput(code, k, root, a)
  {
    var m := DecodeOutput(code, k, root, a).value;
    EncodeShape(code, k, n, m);
    VerifiedAreLeaves(Encode(code, k, m), a);
    VerifiedAreLeaves(Encode(code, k, m), b);
    DecodeEncoded(code, k, n, m, a);
    DecodeEncoded(code, k, n, m, b);
  }

  /** `decode_output` depends only on the root: any two sets of k verified stripes agree,
      on the message or on the failure. */
  lemma OutputDependsOnRoot(code: Code, k: nat, n: nat, root: Bytes, a: seq<Option<Bytes>>, b: seq<Option<Bytes>>)
    requires IsErasureCode(code, k, n) && |a| == n && |b| == n
    requires AllVerified(root, a) && AllVerified(root, b)
    requires k <= PresentFrom(a, 0) && k <= PresentFrom(b, 0)
    ensures DecodeOutput(code, k, root, a) == DecodeOutput(code, k, root, b)
  {
    if DecodeOutput(code, k, root, a).Some? {
      OutputSpreads(code, k, n, root, a, b);
    } else if DecodeOutput(code, k, root, b).Some? {
      OutputSpreads(code, k, n, root, b, a);
    }
  }

  /** Under the root of m's own encoding, `decode_output` gives m exactly when m's padding is recoverable. */
  lemma OutputOfHonestRoot(code: Code, k: nat, n: nat, m: Bytes, stripes: seq<Option<Bytes>>)
    requires IsErasureCode(code, k, n) && |stripes| == n
    requires Encode(code, k, m) != [] && AllVerified(Root(Encode(code, k, m)), stripes)
    requires k <= PresentFrom(stripes, 0)
    ensures DecodeOutput(code, k, Root(Encode(code, k, m)), stripes) == Some(m) <==> PadRecoverable(k, |m|)
  {
    EncodeShape(code, k, n, m);
    VerifiedAreLeaves(Encode(code, k, m), stripes);
    RoundTripIff(code, k, n, m, stripes);
  }
}
