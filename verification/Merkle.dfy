// Hashing and Merkle trees of honeybadgerbft/core/reliablebroadcast.py.
module Merkle {
  import opened Arithmetic
  import opened Options

  /** A string is a sequence of bytes and digests. SHA-256 is the constructor of digests: every digest
      is one symbol long, and two strings have the same digest only when they are equal. */
  datatype Sym = Byte(b: int) | Dig(d: Digest)
  datatype Digest = Sha256(pre: seq<Sym>)
  type Bytes = seq<Sym>

  function Hash(x: Bytes): Bytes { [Dig(Sha256(x))] }

  /** The exact value of `ceil(math.log(n, 2))`. */
  function CeilLog2(n: nat): (k: nat)
    requires 1 <= n
    ensures n <= TwoTo(k)
    ensures k == 0 || TwoTo(k - 1) < n
  {
    if n == 1 then 0 else CeilLog2((n + 1) / 2) + 1
  }

  function BottomRow(n: nat): nat
    requires 1 <= n
  {
    TwoTo(CeilLog2(n))
  }

  lemma RowHolds(n: nat)
    requires 1 <= n
    ensures n <= BottomRow(n) && 1 <= BottomRow(n)
  {
  }

  // ---------------------------------------------------------------- the tree

  /** Entry `i` of the tree over `strs` whose leaves start at `bottom`: heap order, blanks past the end. */
  function Entry(strs: seq<Bytes>, bottom: nat, i: nat): Bytes
    requires 1 <= i < 2 * bottom
    decreases 2 * bottom - i
  {
    if bottom <= i then (if i - bottom < |strs| then Hash(strs[i - bottom]) else [])
    else Hash(Entry(strs, bottom, 2 * i) + Entry(strs, bottom, 2 * i + 1))
  }

  /** The row of leaves. */
  lemma LeafRow(strs: seq<Bytes>, bottom: nat, i: nat)
    requires 1 <= bottom <= i < 2 * bottom
    ensures Entry(strs, bottom, i) == if i - bottom < |strs| then Hash(strs[i - bottom]) else []
  {
  }

  lemma InnerEntry(strs: seq<Bytes>, bottom: nat, i: nat)
    requires 1 <= i < bottom
    ensures Entry(strs, bottom, i) == Hash(Entry(strs, bottom, 2 * i) + Entry(strs, bottom, 2 * i + 1))
  {
  }

  function Root(strs: seq<Bytes>): Bytes
    requires strs != []
  {
    Entry(strs, BottomRow(|strs|), 1)
  }

  /** The hash tree over the 2^k leaves from number `from` on, from the top: a leaf is the hash of its string or blank,
      a tree the hash of its left and then its right half. */
  function Balanced(strs: seq<Bytes>, from: nat, k: nat): Bytes
    decreases k
  {
    if k == 0 then (if from < |strs| then Hash(strs[from]) else [])
    else Hash(Balanced(strs, from, k - 1) + Balanced(strs, from + TwoTo(k - 1), k - 1))
  }

  lemma {:induction false} EntryIsBalanced(strs: seq<Bytes>, top: nat, k: nat, j: nat)
    requires k <= top && j < TwoTo(top - k)
    ensures 1 <= TwoTo(top - k) + j < 2 * TwoTo(top)
    ensures Entry(strs, TwoTo(top), TwoTo(top - k) + j) == Balanced(strs, j * TwoTo(k), k)
    decreases k
  {
    hide Entry, Hash;
    RowSize(top, k, j);
    if k == 0 {
      LeafRow(strs, TwoTo(top), TwoTo(top) + j);
    } else {
      RowSize(top, k - 1, 2 * j);
      EntryIsBalanced(strs, top, k - 1, 2 * j);
      EntryIsBalanced(strs, top, k - 1, 2 * j + 1);
      InnerEntry(strs, TwoTo(top), TwoTo(top - k) + j);
      HalfOffsets(j, TwoTo(k - 1), TwoTo(k));
    }
  }

  lemma HalfOffsets(j: nat, half: nat, whole: nat)
    requires whole == 2 * half
    ensures (2 * j) * half == j * whole && (2 * j + 1) * half == j * whole + half
  {
  }

  /** The rows of the heap: row k from below has 2^(top - k) entries. */
  lemma RowSize(top: nat, k: nat, j: nat)
    requires k <= top && j < TwoTo(top - k)
    ensures TwoTo(top - k) + j < 2 * TwoTo(top)
    ensures 0 < k ==> TwoTo(k) == 2 * TwoTo(k - 1) && TwoTo(top - k + 1) == 2 * TwoTo(top - k)
    ensures 0 < k ==> TwoTo(top - k) + j < TwoTo(top)
    ensures k == 0 ==> TwoTo(k) == 1
  {
    PowAdd(2, top - k, k);
    if 0 < k {
      PowSucc(2, k - 1);
      PowSucc(2, top - k);
      MulMonotone(TwoTo(top - k), 2, TwoTo(k));
    }
  }

  /** The root is that of the balanced tree, so left and right cannot be exchanged. */
  lemma RootIsBalanced(strs: seq<Bytes>)
    requires strs != []
    ensures Root(strs) == Balanced(strs, 0, CeilLog2(|strs|))
  {
    hide Entry, Balanced;
    EntryIsBalanced(strs, CeilLog2(|strs|), CeilLog2(|strs|), 0);
  }

  /** `mt` is the list that `merkleTree` returns for `strs`. */
  ghost predicate IsTree(strs: seq<Bytes>, mt: seq<Bytes>)
    requires strs != []
  {
    && |mt| == 2 * BottomRow(|strs|)
    && mt[0] == []
    && forall i :: 1 <= i < |mt| ==> mt[i] == Entry(strs, BottomRow(|strs|), i)
  }

  method MerkleTree(strs: seq<Bytes>) returns (mt: array<Bytes>)
    requires strs != []
    ensures fresh(mt) && IsTree(strs, mt[..])
  {
    hide Entry, Hash, BottomRow;
    var bottom := BottomRow(|strs|);
    RowHolds(|strs|);
    mt := new Bytes[2 * bottom](_ => []);
    for i := 0 to |strs|
      invariant forall j :: 0 <= j < mt.Length ==>
                  mt[j] == if bottom <= j < bottom + i then Hash(strs[j - bottom]) else []
    {
      mt[bottom + i] := Hash(strs[i]);
    }
    forall j | bottom <= j < mt.Length ensures mt[j] == Entry(strs, bottom, j) { LeafRow(strs, bottom, j); }
    for i := bottom downto 1
      invariant 1 <= i
      invariant forall j :: 0 <= j < i ==> mt[j] == []
      invariant forall j :: i <= j < mt.Length ==> mt[j] == Entry(strs, bottom, j)
    {
      InnerEntry(strs, bottom, i);
      mt[i] := Hash(mt[2 * i] + mt[2 * i + 1]);
    }
  }

  function Sibling(t: nat): nat { if t % 2 == 0 then t + 1 else t - 1 }

  /** The siblings on the way from entry `t` up to the root. */
  function Branch(strs: seq<Bytes>, bottom: nat, t: nat): seq<Bytes>
    requires 1 <= t < 2 * bottom
  {
    if t <= 1 then [] else [Entry(strs, bottom, Sibling(t))] + Branch(strs, bottom, t / 2)
  }

  lemma BranchEnd(strs: seq<Bytes>, bottom: nat)
    requires 1 <= bottom
    ensures Branch(strs, bottom, 1) == []
  {
  }

  lemma BranchStep(strs: seq<Bytes>, bottom: nat, t: nat)
    requires 1 < t < 2 * bottom
    ensures Branch(strs, bottom, t) == [Entry(strs, bottom, Sibling(t))] + Branch(strs, bottom, t / 2)
  {
  }

  method GetMerkleBranch(index: nat, mt: seq<Bytes>, ghost strs: seq<Bytes>) returns (res: seq<Bytes>)
    requires strs != [] && index < |strs| && IsTree(strs, mt)
    ensures res == Branch(strs, BottomRow(|strs|), BottomRow(|strs|) + index)
  {
    hide Entry, BottomRow, Branch;
    ghost var bottom := BottomRow(|strs|);
    RowHolds(|strs|);
    res := [];
    var t := index + |mt| / 2;
    assert [] + Branch(strs, bottom, t) == Branch(strs, bottom, t);
    while 1 < t
      invariant 1 <= t < 2 * bottom
      invariant res + Branch(strs, bottom, t) == Branch(strs, bottom, bottom + index)
    {
      BranchStep(strs, bottom, t);
      assert res + ([mt[Sibling(t)]] + Branch(strs, bottom, t / 2))
          == (res + [mt[Sibling(t)]]) + Branch(strs, bottom, t / 2);
      res := res + [mt[Sibling(t)]];
      t := t / 2;
    }
    BranchEnd(strs, bottom);
    assert res + [] == res;
  }

  // ---------------------------------------------------------------- verification of a branch

  /** The loop of `merkleVerify`: hash `tmp` with one sibling after the other. */
  function Climb(tmp: Bytes, index: nat, branch: seq<Bytes>): Bytes
    decreases |branch|
  {
    if branch == [] then tmp
    else Climb(Hash(if index % 2 == 1 then branch[0] + tmp else tmp + branch[0]), index / 2, branch[1..])
  }

  /** `merkleVerify` neither raises nor returns False. */
  predicate Verifies(n: nat, val: Bytes, root: Bytes, branch: seq<Bytes>, index: nat)
    requires 1 <= n
  {
    index < n && |branch| == CeilLog2(n) && Climb(Hash(val), index, branch) == root
  }

  /** None stands for a failed assertion. */
  method MerkleVerify(n: nat, val: Bytes, root: Bytes, branch: seq<Bytes>, index: nat) returns (ok: Option<bool>)
    requires 1 <= n
    ensures ok == Some(true) <==> Verifies(n, val, root, branch, index)
    ensures ok == None <==> n <= index || |branch| != CeilLog2(n)
  {
    if n <= index || |branch| != CeilLog2(n) {
      return None;
    }
    var tmp, tindex, i := Hash(val), index, 0;
    while i < |branch|
      invariant 0 <= i <= |branch|
      invariant Climb(tmp, tindex, branch[i..]) == Climb(Hash(val), index, branch)
    {
      tmp, tindex := Hash(if tindex % 2 == 1 then branch[i] + tmp else tmp + branch[i]), tindex / 2;
      i := i + 1;
    }
    return Some(tmp == root);
  }

  // ---------------------------------------------------------------- completeness and binding

  lemma {:induction false} BranchClimbs(strs: seq<Bytes>, bottom: nat, k: nat, index: nat)
    requires index < TwoTo(k) && 2 * TwoTo(k) <= 2 * bottom
    ensures |Branch(strs, bottom, TwoTo(k) + index)| == k
    ensures Climb(Entry(strs, bottom, TwoTo(k) + index), index, Branch(strs, bottom, TwoTo(k) + index))
            == Entry(strs, bottom, 1)
  {
    if k == 0 {
      BranchEnd(strs, bottom);
    } else {
      BranchClimbs(strs, bottom, k - 1, index / 2);
      ClimbStep(strs, bottom, k, index);
    }
  }

  /** One level of the climb: the entry hashed with its sibling is the entry above. */
  lemma ClimbStep(strs: seq<Bytes>, bottom: nat, k: nat, index: nat)
    requires 0 < k && index < TwoTo(k) && 2 * TwoTo(k) <= 2 * bottom
    ensures var t, up := TwoTo(k) + index, TwoTo(k - 1) + index / 2;
            && |Branch(strs, bottom, t)| == 1 + |Branch(strs, bottom, up)|
            && Climb(Entry(strs, bottom, t), index, Branch(strs, bottom, t))
               == Climb(Entry(strs, bottom, up), index / 2, Branch(strs, bottom, up))
  {
    var t, up := TwoTo(k) + index, TwoTo(k - 1) + index / 2;
    assert t / 2 == up && t % 2 == index % 2;
    hide Entry, Branch, TwoTo, Climb;
    BranchStep(strs, bottom, t);
    InnerEntry(strs, bottom, up);
    ClimbUnfold(Entry(strs, bottom, t), index, Entry(strs, bottom, Sibling(t)), Branch(strs, bottom, up));
  }

  lemma ClimbUnfold(tmp: Bytes, index: nat, sibling: Bytes, rest: seq<Bytes>)
    ensures Climb(tmp, index, [sibling] + rest)
            == Climb(Hash(if index % 2 == 1 then sibling + tmp else tmp + sibling), index / 2, rest)
  {
    assert ([sibling] + rest)[1..] == rest;
  }

  lemma LeafEntry(strs: seq<Bytes>, bottom: nat, index: nat)
    requires index < |strs| && index < bottom
    ensures Entry(strs, bottom, bottom + index) == Hash(strs[index])
  {
  }

  lemma RowIs(n: nat)
    requires 1 <= n
    ensures BottomRow(n) == TwoTo(CeilLog2(n)) && n <= BottomRow(n)
  {
  }

  lemma ClimbVerifies(strs: seq<Bytes>, index: nat)
    requires index < |strs|
    requires var bottom := BottomRow(|strs|);
             1 <= bottom && |Branch(strs, bottom, bottom + index)| == CeilLog2(|strs|) &&
             Climb(Hash(strs[index]), index, Branch(strs, bottom, bottom + index)) == Entry(strs, bottom, 1)
    ensures var bottom := BottomRow(|strs|);
            Verifies(|strs|, strs[index], Root(strs), Branch(strs, bottom, bottom + index), index)
  {
    hide Entry, Branch, Climb, CeilLog2, Hash;
  }

  /** The branch that `getMerkleBranch` computes is accepted, for every leaf. */
  lemma HonestBranchVerifies(strs: seq<Bytes>, index: nat)
    requires index < |strs|
    ensures var bottom := BottomRow(|strs|);
            Verifies(|strs|, strs[index], Root(strs), Branch(strs, bottom, bottom + index), index)
  {
    hide *;
    var bottom := BottomRow(|strs|);
    RowIs(|strs|);
    LeafEntry(strs, bottom, index);
    BranchClimbs(strs, bottom, CeilLog2(|strs|), index);
    ClimbVerifies(strs, index);
  }

  /** Two climbs of equal length and index that meet started from the same digest. */
  lemma {:induction false} ClimbBinds(x: Digest, y: Digest, index: nat, bx: seq<Bytes>, cy: seq<Bytes>)
    requires |bx| == |cy|
    requires Climb([Dig(x)], index, bx) == Climb([Dig(y)], index, cy)
    ensures x == y
    decreases |bx|
  {
    if bx != [] {
      var px := if index % 2 == 1 then bx[0] + [Dig(x)] else [Dig(x)] + bx[0];
      var py := if index % 2 == 1 then cy[0] + [Dig(y)] else [Dig(y)] + cy[0];
      ClimbBinds(Sha256(px), Sha256(py), index / 2, bx[1..], cy[1..]);
      assert px == py;
      assert Dig(x) == if index % 2 == 1 then px[|px| - 1] else px[0];
      assert Dig(y) == if index % 2 == 1 then py[|py| - 1] else py[0];
    }
  }

  /** A root commits to at most one string at each index. */
  lemma RootBinds(n: nat, root: Bytes, index: nat, v: Bytes, bv: seq<Bytes>, w: Bytes, bw: seq<Bytes>)
    requires 1 <= n && Verifies(n, v, root, bv, index) && Verifies(n, w, root, bw, index)
    ensures v == w
  {
    ClimbBinds(Sha256(v), Sha256(w), index, bv, bw);
  }

  /** Whatever is accepted under the root of a tree is that tree's leaf. */
  lemma AcceptedIsLeaf(strs: seq<Bytes>, index: nat, v: Bytes, branch: seq<Bytes>)
    requires strs != [] && Verifies(|strs|, v, Root(strs), branch, index)
    ensures v == strs[index]
  {
    HonestBranchVerifies(strs, index);
    var bottom := BottomRow(|strs|);
    RootBinds(|strs|, Root(strs), index, v, branch, strs[index], Branch(strs, bottom, bottom + index));
  }
}
