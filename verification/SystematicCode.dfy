// A code of the kind that `encode` and `decode` ask for: the first k stripes are the blocks themselves, and every
// other stripe holds them all.
module SystematicCode {
  import opened Options
  import opened Merkle
  import opened Arithmetic
  import opened Erasure

  function Stripe(k: nat, blocks: seq<Bytes>, i: nat): Bytes {
    if i < k && i < |blocks| then blocks[i] else Join(blocks)
  }

  function Rebuild(k: nat, stripes: seq<Bytes>, nums: seq<nat>): Option<seq<Bytes>>
    requires 1 <= k
  {
    if nums == [] || stripes == [] then None
    else if nums[|nums| - 1] < k then Some(stripes)
    else Some(Blocks(k, stripes[|stripes| - 1]))
  }

  function Systematic(k: nat, n: nat): Code
    requires 1 <= k
  {
    Code(blocks => seq(n, i requires 0 <= i < n => Stripe(k, blocks, i)), (stripes, nums) => Rebuild(k, stripes, nums))
  }

  /** The joined blocks, cut again. */
  lemma {:induction false} JoinAt(blocks: seq<Bytes>, step: nat, i: nat)
    requires i < |blocks| && forall j :: 0 <= j < |blocks| ==> |blocks[j]| == step
    ensures |Join(blocks)| == |blocks| * step && 0 <= i * step <= (i + 1) * step <= |blocks| * step
    ensures Join(blocks)[i * step .. (i + 1) * step] == blocks[i]
  {
    var last := |blocks| - 1;
    var front := blocks[..last];
    if last > 0 { JoinAt(front, step, if i < last then i else 0); }
    assert Join(blocks) == Join(front) + blocks[last];
    hide Join;
    LastStep(last, i, step);
    if i < last {
      CutFront(Join(front), blocks[last], i * step, (i + 1) * step);
    }
  }

  lemma LastStep(last: nat, i: nat, step: nat)
    requires i <= last
    ensures (last + 1) * step == last * step + step && 0 <= i * step <= (i + 1) * step <= (last + 1) * step
    ensures last == 0 ==> last * step == 0
    ensures i == last ==> i * step == last * step && (i + 1) * step == last * step + step
  {
    StepProducts(last + 1, i, step);
  }

  lemma CutFront(x: Bytes, y: Bytes, i: nat, j: nat)
    requires i <= j <= |x|
    ensures (x + y)[i .. j] == x[i .. j]
  {
  }

  lemma BlocksOfJoin(k: nat, blocks: seq<Bytes>)
    requires 1 <= k == |blocks| && SameLength(blocks)
    ensures Blocks(k, Join(blocks)) == blocks
  {
    var step := |blocks[0]|;
    JoinAt(blocks, step, 0);
    DivModUnique(k * step, k, step, 0);
    forall i: nat | i < k ensures Blocks(k, Join(blocks))[i] == blocks[i] { JoinAt(blocks, step, i); }
  }

  /** k increasing numbers below k are all of them. */
  lemma {:induction false} AllBelow(nums: seq<nat>, n: nat, i: nat)
    requires Increasing(nums, n) && i < |nums| && nums[|nums| - 1] < |nums|
    ensures nums[i] == i
  {
    AtLeastIndex(nums, n, i);
    AtMostIndex(nums, n, i);
  }

  lemma {:induction false} AtLeastIndex(nums: seq<nat>, n: nat, i: nat)
    requires Increasing(nums, n) && i < |nums|
    ensures i <= nums[i]
  {
    if i > 0 { AtLeastIndex(nums, n, i - 1); }
  }

  lemma {:induction false} AtMostIndex(nums: seq<nat>, n: nat, i: nat)
    requires Increasing(nums, n) && i < |nums| && nums[|nums| - 1] < |nums|
    ensures nums[i] <= i
    decreases |nums| - i
  {
    if i < |nums| - 1 { AtMostIndex(nums, n, i + 1); }
  }

  lemma SystematicRebuilds(k: nat, n: nat, blocks: seq<Bytes>, nums: seq<nat>)
    requires 1 <= k <= n
    ensures Rebuilds(Systematic(k, n), k, n, blocks, nums)
  {
    if |blocks| == k && SameLength(blocks) && |nums| == k && Increasing(nums, n) {
      var stripes := Systematic(k, n).enc(blocks);
      var picked := Pick(stripes, nums);
      if nums[k - 1] < k {
        forall i: nat | i < k ensures picked[i] == blocks[i] { AllBelow(nums, n, i); }
        assert picked == blocks;
      } else {
        BlocksOfJoin(k, blocks);
      }
    }
  }

  /** Any k of its n stripes rebuild the blocks, for all sizes that zfec allows. */
  lemma SystematicIsCode(k: nat, n: nat)
    requires 1 <= k <= n && k <= 256
    ensures IsErasureCode(Systematic(k, n), k, n)
  {
    forall blocks, nums ensures Rebuilds(Systematic(k, n), k, n, blocks, nums) {
      SystematicRebuilds(k, n, blocks, nums);
    }
  }
}
