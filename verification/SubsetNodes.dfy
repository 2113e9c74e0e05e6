// What one node of the common subset keeps, given what its broadcasts and agreements output.
module SubsetNodes {
  import opened Options
  import opened Merkle
  import opened CommonSubset

  predicate Called(node: NodeState, j: nat, v: int) {
    exists i :: 0 <= i < |node.calls| && node.calls[i] == (j, v)
  }

  /** `aba_in[j]` is called at most once, and only when `aba_inputted[j]` gets set. */
  ghost predicate CallsOk(node: NodeState) {
    && (forall i, k :: 0 <= i < k < |node.calls| ==> node.calls[i].0 != node.calls[k].0)
    && (forall i :: 0 <= i < |node.calls| ==> node.calls[i].0 < |node.abaInputted| && node.abaInputted[node.calls[i].0])
    && (forall i :: 0 <= i < |node.calls| ==> node.calls[i].1 == 0 || node.calls[i].1 == 1)
  }

  /** Input 1 follows a delivery, input 0 follows n - f positive agreements. */
  ghost predicate CallsJustified(n: nat, f: nat, outs: seq<Option<Bytes>>, node: NodeState) {
    && (forall j: nat :: j < |outs| && Called(node, j, 1) ==> outs[j].Some?)
    && (forall j {:trigger Called(node, j, 0)} :: Called(node, j, 0) ==> Sum(node.abaValues) >= n - f)
  }

  /** What a node holds is what its instances gave it: `outs` the broadcasts, `decs` the agreements. */
  ghost predicate ValuesOk(outs: seq<Option<Bytes>>, decs: seq<Option<int>>, node: NodeState)
    requires |node.rbcValues| == |node.abaDone| == |node.abaValues| == |outs| == |decs|
  {
    && (forall j :: 0 <= j < |outs| && node.rbcValues[j].Some? ==> outs[j] == node.rbcValues[j])
    && (forall j :: 0 <= j < |decs| ==>
          if node.abaDone[j] then decs[j] == Some(node.abaValues[j]) else node.abaValues[j] == 0)
  }

  /** A failed assertion means too few ones, or an included broadcast that raised. */
  ghost predicate OutcomeOk(n: nat, f: nat, node: NodeState)
    requires Sized(n, node)
  {
    node.outcome != Waiting ==>
      && (forall j :: 0 <= j < n ==> node.abaDone[j])
      && match node.outcome
         case Waiting => true
         case AssertFailed => Sum(node.abaValues) < n - f || exists j :: IncludedDead(n, node, j)
         case Returned(values) =>
           && values == node.rbcValues && Sum(node.abaValues) >= n - f
           && forall j :: 0 <= j < n ==> (node.abaValues[j] != 0 <==> node.rbcValues[j].Some?)
  }

  predicate IncludedDead(n: nat, node: NodeState, j: int)
    requires Sized(n, node)
  {
    0 <= j < n && node.abaValues[j] != 0 && node.rbcDead[j]
  }

  ghost predicate NodeInv(n: nat, f: nat, outs: seq<Option<Bytes>>, decs: seq<Option<int>>, node: NodeState) {
    && Sized(n, node) && |outs| == n && |decs| == n
    && CallsOk(node) && CallsJustified(n, f, outs, node) && ValuesOk(outs, decs, node) && OutcomeOk(n, f, node)
  }

  lemma FreshInv(n: nat, f: nat, outs: seq<Option<Bytes>>, decs: seq<Option<int>>)
    requires |outs| == n && |decs| == n
    ensures NodeInv(n, f, outs, decs, FreshNode(n))
  {
  }

  /** Outputs and decisions are never taken back. */
  predicate Later<T(==)>(a: seq<Option<T>>, b: seq<Option<T>>) {
    |a| == |b| && forall j :: 0 <= j < |a| && a[j].Some? ==> b[j] == a[j]
  }

  lemma NodeInvGrows(n: nat, f: nat, outs: seq<Option<Bytes>>, decs: seq<Option<int>>,
                     outs': seq<Option<Bytes>>, decs': seq<Option<int>>, node: NodeState)
    requires NodeInv(n, f, outs, decs, node) && Later(outs, outs') && Later(decs, decs')
    ensures NodeInv(n, f, outs', decs', node)
  {
  }

  // ---------------------------------------------------------------- what the handlers do to the calls

  ghost predicate KeepsCalls(s: NodeState, t: NodeState) {
    forall j, w :: Called(s, j, w) ==> Called(t, j, w)
  }

  /** Only inputs were added, each of them `v`. */
  ghost predicate OnlyCalls(s: NodeState, v: int, t: NodeState) {
    && t == s.(abaInputted := t.abaInputted, calls := t.calls)
    && |t.abaInputted| == |s.abaInputted|
    && KeepsCalls(s, t)
    && (forall j, w :: Called(t, j, w) ==> Called(s, j, w) || w == v)
  }

  lemma CallOnce(s: NodeState, j: nat, v: int, t: NodeState)
    requires CallsOk(s) && j < |s.abaInputted| && !s.abaInputted[j] && (v == 0 || v == 1)
    requires t == s.(abaInputted := s.abaInputted[j := true], calls := s.calls + [(j, v)])
    ensures CallsOk(t) && OnlyCalls(s, v, t)
    ensures forall k :: Called(t, k, v) ==> Called(s, k, v) || k == j
  {
    forall k: nat, w | Called(t, k, w) ensures Called(s, k, w) || (k == j && w == v) {
      var i :| 0 <= i < |t.calls| && t.calls[i] == (k, w);
      if i < |s.calls| { assert s.calls[i] == (k, w); }
    }
    forall k: nat, w | Called(s, k, w) ensures Called(t, k, w) {
      var i :| 0 <= i < |s.calls| && s.calls[i] == (k, w);
      assert t.calls[i] == (k, w);
    }
  }

  lemma {:induction false} FillOnce(s: NodeState, k: nat)
    requires CallsOk(s)
    ensures CallsOk(FillZeros(s, k)) && OnlyCalls(s, 0, FillZeros(s, k))
    decreases |s.abaInputted| - k
  {
    if k < |s.abaInputted| {
      if s.abaInputted[k] {
        FillOnce(s, k + 1);
      } else {
        var t := s.(abaInputted := s.abaInputted[k := true], calls := s.calls + [(k, 0)]);
        CallOnce(s, k, 0, t);
        FillOnce(t, k + 1);
      }
    }
  }

  lemma {:induction false} SumGrows(xs: seq<int>, ys: seq<int>)
    requires |xs| == |ys| && forall i :: 0 <= i < |xs| ==> xs[i] <= ys[i]
    ensures Sum(xs) <= Sum(ys)
  {
    if xs != [] { SumGrows(xs[..|xs| - 1], ys[..|ys| - 1]); }
  }

  lemma {:induction false} SumOfOnes(xs: seq<int>)
    requires forall i :: 0 <= i < |xs| ==> xs[i] == 1
    ensures Sum(xs) == |xs|
  {
    if xs != [] { SumOfOnes(xs[..|xs| - 1]); }
  }

  // ---------------------------------------------------------------- the handlers keep the invariant

  lemma RbcKeeps(n: nat, f: nat, outs: seq<Option<Bytes>>, decs: seq<Option<int>>, s: NodeState, j: nat, v: Bytes)
    requires NodeInv(n, f, outs, decs, s) && s.outcome == Waiting && j < n && outs[j] == Some(v)
    ensures NodeInv(n, f, outs, decs, OnRbc(s, j, v)) && KeepsCalls(s, OnRbc(s, j, v))
  {
    var t := s.(rbcValues := s.rbcValues[j := Some(v)]);
    assert forall k, w :: Called(t, k, w) == Called(s, k, w);
    if !s.abaInputted[j] {
      CallOnce(t, j, 1, OnRbc(s, j, v));
    }
  }

  lemma AbaKeeps(n: nat, f: nat, outs: seq<Option<Bytes>>, decs: seq<Option<int>>, s: NodeState, j: nat, v: int)
    requires NodeInv(n, f, outs, decs, s) && s.outcome == Waiting
    requires j < n && !s.abaDone[j] && decs[j] == Some(v) && 0 <= v
    ensures NodeInv(n, f, outs, decs, OnAba(n, f, s, j, v)) && KeepsCalls(s, OnAba(n, f, s, j, v))
    ensures OnAba(n, f, s, j, v).rbcDead == s.rbcDead
  {
    var t := s.(abaValues := s.abaValues[j := v], abaDone := s.abaDone[j := true]);
    SumGrows(s.abaValues, t.abaValues);
    assert forall k, w :: Called(t, k, w) == Called(s, k, w);
    FillOnce(t, 0);
  }

  /** What the joining loop does. */
  lemma {:induction false} JoinIs(n: nat, s: NodeState, j: nat)
    requires Sized(n, s) && j <= n && JoinsReturn(s, j)
    ensures var t := JoinFrom(s, j);
            && |t.rbcValues| == n && t == s.(rbcValues := t.rbcValues, outcome := t.outcome)
            && (forall i :: 0 <= i < n ==> t.rbcValues[i] == s.rbcValues[i] || t.rbcValues[i] == None)
            && (forall i :: 0 <= i < j ==> t.rbcValues[i] == s.rbcValues[i])
            && (t.outcome == AssertFailed || t.outcome == Returned(t.rbcValues))
            && (t.outcome == AssertFailed ==> exists i :: IncludedDead(n, s, i))
            && (t.outcome != AssertFailed ==>
                  forall i :: j <= i < n ==> (s.abaValues[i] != 0 <==> t.rbcValues[i].Some?))
    decreases n - j
  {
    if j < n {
      if s.abaValues[j] == 0 {
        var u := s.(rbcValues := s.rbcValues[j := None]);
        JoinsKept(n, s, j, j + 1);
        JoinIs(n, u, j + 1);
        assert forall i :: IncludedDead(n, u, i) == IncludedDead(n, s, i);
      } else if s.rbcValues[j].Some? {
        JoinIs(n, s, j + 1);
      } else {
        assert IncludedDead(n, s, j);
      }
    }
  }

  lemma {:induction false} JoinsKept(n: nat, s: NodeState, i: nat, j: nat)
    requires Sized(n, s) && i < j <= n && s.abaValues[i] == 0
    ensures JoinsReturn(s.(rbcValues := s.rbcValues[i := None]), j) == JoinsReturn(s, j)
    decreases n - j
  {
    if j < n { JoinsKept(n, s, i, j + 1); }
  }

  lemma AllDoneKeeps(n: nat, f: nat, outs: seq<Option<Bytes>>, decs: seq<Option<int>>, s: NodeState)
    requires NodeInv(n, f, outs, decs, s) && s.outcome == Waiting && CanConclude(n, f, s)
    ensures NodeInv(n, f, outs, decs, OnAllDone(n, f, s)) && KeepsCalls(s, OnAllDone(n, f, s))
  {
    var t := OnAllDone(n, f, s);
    if Sum(s.abaValues) >= n - f { JoinIs(n, s, 0); }
    assert forall k, w :: Called(t, k, w) == Called(s, k, w);
    assert forall j :: IncludedDead(n, t, j) == IncludedDead(n, s, j);
  }

  lemma RbcRaisedKeeps(n: nat, f: nat, outs: seq<Option<Bytes>>, decs: seq<Option<int>>, s: NodeState, j: nat)
    requires NodeInv(n, f, outs, decs, s) && s.outcome == Waiting && j < n
    ensures NodeInv(n, f, outs, decs, OnRbcRaised(s, j)) && KeepsCalls(s, OnRbcRaised(s, j))
  {
    assert forall k, w :: Called(OnRbcRaised(s, j), k, w) == Called(s, k, w);
  }
}
