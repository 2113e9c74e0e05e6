// Safety of the common subset, for every run.
module SubsetTheorems {
  import opened Options
  import opened Quorums
  import opened Merkle
  import Erasure
  import Padding
  import Rbc = ReliableBroadcast
  import RbcRuns = BroadcastRuns
  import RbcTheorems = BroadcastTheorems
  import AbaRuns = AgreementRuns
  import AbaTheorems = AgreementTheorems
  import opened CommonSubset
  import opened SubsetNodes
  import opened SubsetRuns

  /** Two nodes that know the outcome of an agreement know the same one. */
  lemma SameDecision(c: Config, coin: int -> AbaRuns.Bit, s: AbaRuns.System, p: nat, q: nat)
    requires c.Valid() && AbaRuns.Inv(c, coin, s) && p in c.honest && q in c.honest
    requires s.nodes[p].decided.Some? && s.nodes[q].decided.Some?
    ensures s.nodes[p].decided == s.nodes[q].decided
  {
    hide AbaRuns.NodeInv, AbaRuns.EstBacked, AbaRuns.ConfOnce, AbaRuns.FinishedInv, AbaRuns.EnteredInv,
         AbaRuns.InputsInv;
    var v, w := s.nodes[p].decided.value, s.nodes[q].decided.value;
    assert AbaRuns.HasDecided(s, p, v) && AbaRuns.HasDecided(s, q, w);
    var r :| AbaRuns.Decided(s, p, r, v);
    var k :| AbaRuns.Decided(s, q, k, w);
    if r <= k {
      AbaTheorems.AgreementInState(c, coin, s, p, r, v, q, k, w);
    } else {
      AbaTheorems.AgreementInState(c, coin, s, q, k, w, p, r, v);
    }
  }

  /** A decided bit was passed to `aba_in` by an honest node. */
  lemma DecisionWasCalled(c: Config, coin: int -> AbaRuns.Bit, s: AbaRuns.System, p: nat) returns (h: nat)
    requires c.Valid() && AbaRuns.Inv(c, coin, s) && p in c.honest && s.nodes[p].decided.Some?
    ensures h in c.honest && h in s.inputs && s.inputs[h] == s.nodes[p].decided.value
  {
    hide AbaRuns.NodeInv, AbaRuns.EstBacked, AbaRuns.ConfOnce, AbaRuns.FinishedInv, AbaRuns.EnteredInv,
         AbaRuns.InputsInv;
    var v := s.nodes[p].decided.value;
    assert AbaRuns.HasDecided(s, p, v);
    var r :| AbaRuns.Decided(s, p, r, v);
    AbaTheorems.ValidityInState(c, coin, s, p, r, v);
    h :| h in c.honest && h in s.inputs && s.inputs[h] == v;
  }

  /** At two nodes, bits of the same agreement that both have received are equal. */
  lemma SameBits(c: Config, g: Setting, s: System, p: nat, q: nat, j: nat)
    requires Inv(c, g, s) && p in c.honest && q in c.honest && j < c.n
    requires s.nodes[p].abaDone[j] && s.nodes[q].abaDone[j]
    ensures s.nodes[p].abaValues[j] == s.nodes[q].abaValues[j]
    ensures s.nodes[p].abaValues[j] == 0 || s.nodes[p].abaValues[j] == 1
  {
    hide AbaRuns.Inv, RbcOk;
    assert NodeOk(c, s, p) && NodeOk(c, s, q) && AbaOk(c, g, j, s.aba[j]);
    assert Decisions(c, s, p)[j] == s.aba[j].nodes[p].decided && Decisions(c, s, q)[j] == s.aba[j].nodes[q].decided;
    SameDecision(c, g.coin(j), s.aba[j], p, q);
    DecisionIsBit(c, g.coin(j), s.aba[j], p);
  }

  /** Another node's sum of received bits never exceeds the complete one. */
  lemma CompleteSum(c: Config, g: Setting, s: System, p: nat, q: nat)
    requires Inv(c, g, s) && p in c.honest && q in c.honest
    requires forall j :: 0 <= j < c.n ==> s.nodes[p].abaDone[j]
    ensures Sum(s.nodes[q].abaValues) <= Sum(s.nodes[p].abaValues)
  {
    hide AbaOk, RbcOk;
    forall j: nat | j < c.n ensures s.nodes[q].abaValues[j] <= s.nodes[p].abaValues[j] {
      SameBits(c, g, s, p, p, j);
      if s.nodes[q].abaDone[j] {
        SameBits(c, g, s, p, q, j);
      } else {
        assert NodeOk(c, s, q);
      }
    }
    SumGrows(s.nodes[q].abaValues, s.nodes[p].abaValues);
  }

  /** Who decided 0 in an agreement got it from a node that had n - f positive agreements. */
  lemma ZeroMeansEnough(c: Config, g: Setting, s: System, p: nat, j: nat) returns (h: nat)
    requires Inv(c, g, s) && p in c.honest && j < c.n
    requires s.nodes[p].abaDone[j] && s.nodes[p].abaValues[j] == 0
    ensures h in c.honest && Sum(s.nodes[h].abaValues) >= c.n - c.f
  {
    hide AbaRuns.Inv, RbcOk;
    assert NodeOk(c, s, p) && AbaOk(c, g, j, s.aba[j]);
    assert Decisions(c, s, p)[j] == s.aba[j].nodes[p].decided;
    h := DecisionWasCalled(c, g.coin(j), s.aba[j], p);
    assert Called(s.nodes[h], j, s.aba[j].inputs[h]);
    assert NodeOk(c, s, h);
  }

  /** Once all agreements are in, at least n - f of them are positive. */
  lemma EnoughCommitted(c: Config, g: Setting, s: System, p: nat)
    requires Inv(c, g, s) && p in c.honest
    requires forall j :: 0 <= j < c.n ==> s.nodes[p].abaDone[j]
    ensures Sum(s.nodes[p].abaValues) >= c.n - c.f
  {
    hide AbaOk, RbcOk, NodeOk;
    if j: nat :| j < c.n && s.nodes[p].abaValues[j] == 0 {
      var h := ZeroMeansEnough(c, g, s, p, j);
      CompleteSum(c, g, s, p, h);
    } else {
      forall j: nat | j < c.n ensures s.nodes[p].abaValues[j] == 1 { SameBits(c, g, s, p, p, j); }
      SumOfOnes(s.nodes[p].abaValues);
    }
  }

  /** The broadcast of an included slot has delivered to some honest node, so it raises at none. */
  lemma IncludedNotRaised(c: Config, g: Setting, s: System, p: nat, j: nat)
    requires Inv(c, g, s) && p in c.honest && j < c.n && s.nodes[p].abaDone[j] && s.nodes[p].abaValues[j] != 0
    ensures s.rbc[j].nodes[p].outcome != Rbc.Raised
  {
    hide AbaRuns.Inv, RbcRuns.Inv, RbcRuns.Fits;
    SameBits(c, g, s, p, p, j);
    assert NodeOk(c, s, p) && AbaOk(c, g, j, s.aba[j]) && RbcOk(c, g, j, s.rbc[j]);
    assert Decisions(c, s, p)[j] == s.aba[j].nodes[p].decided;
    var h := DecisionWasCalled(c, g.coin(j), s.aba[j], p);
    assert Called(s.nodes[h], j, s.aba[j].inputs[h]);
    assert NodeOk(c, s, h);
    assert Outputs(c, s, h)[j] == Delivered(s.rbc[j].nodes[h].outcome);
    if s.rbc[j].nodes[p].outcome == Rbc.Raised {
      RbcTheorems.AgreementInState(c, Broadcast(c, g, j), s.rbc[j], p, h);
    }
  }

  lemma NotFailed(c: Config, g: Setting, s: System, p: nat)
    requires Inv(c, g, s) && p in c.honest
    ensures s.nodes[p].outcome != AssertFailed
  {
    hide AbaOk, RbcOk;
    assert NodeOk(c, s, p);
    if s.nodes[p].outcome == AssertFailed {
      EnoughCommitted(c, g, s, p);
      forall j: nat | IncludedDead(c.n, s.nodes[p], j) ensures false { IncludedNotRaised(c, g, s, p, j); }
    }
  }

  /** Neither assertion ever fails: not "at least N - f committed", and not that of an included broadcast's value. */
  lemma NeverFails(c: Config, g: Setting, run: seq<System>, i: nat, p: nat)
    requires Fits(c, g) && IsRun(c, g, run) && i < |run| && p in c.honest && p in run[i].nodes
    ensures run[i].nodes[p].outcome != AssertFailed
  {
    hide Inv, IsRun, Fits;
    RunInv(c, g, run, i);
    NotFailed(c, g, run[i], p);
  }

  /** Every agreement gets at most one input per node. */
  lemma InputAtMostOnce(c: Config, g: Setting, run: seq<System>, i: nat, p: nat, a: nat, b: nat)
    requires Fits(c, g) && IsRun(c, g, run) && i < |run| && p in c.honest && p in run[i].nodes
    requires a < |run[i].nodes[p].calls| && b < |run[i].nodes[p].calls|
    requires run[i].nodes[p].calls[a].0 == run[i].nodes[p].calls[b].0
    ensures a == b
  {
    RunInv(c, g, run, i);
    hide AbaOk, RbcOk, IsRun;
    assert NodeOk(c, run[i], p);
  }

  lemma SameRbcValue(c: Config, g: Setting, s: System, p: nat, q: nat, j: nat)
    requires Inv(c, g, s) && p in c.honest && q in c.honest && j < c.n
    requires s.rbc[j].nodes[p].outcome.Returned? && s.rbc[j].nodes[q].outcome.Returned?
    ensures s.rbc[j].nodes[p].outcome == s.rbc[j].nodes[q].outcome
  {
    hide RbcRuns.Inv, AbaOk, RbcRuns.Fits;
    assert RbcOk(c, g, j, s.rbc[j]);
    RbcTheorems.AgreementInState(c, Broadcast(c, g, j), s.rbc[j], p, q);
  }

  /** What a returned tuple holds in slot j. */
  lemma SlotMeans(c: Config, g: Setting, s: System, p: nat, values: seq<Option<Bytes>>, j: nat)
    requires Inv(c, g, s) && p in c.honest && s.nodes[p].outcome == Returned(values) && j < c.n
    ensures |values| == c.n && s.nodes[p].abaDone[j]
    ensures values[j].Some? <==> s.nodes[p].abaValues[j] != 0
    ensures values[j].Some? ==> s.rbc[j].nodes[p].outcome == Rbc.Returned(values[j].value)
  {
    hide AbaOk, RbcOk;
    assert NodeOk(c, s, p);
    assert Outputs(c, s, p)[j] == Delivered(s.rbc[j].nodes[p].outcome);
  }

  lemma AgreementInState(c: Config, g: Setting, s: System, p: nat, v: seq<Option<Bytes>>, q: nat, w: seq<Option<Bytes>>)
    requires Inv(c, g, s) && p in c.honest && q in c.honest
    requires s.nodes[p].outcome == Returned(v) && s.nodes[q].outcome == Returned(w)
    ensures v == w
  {
    hide AbaOk, RbcOk, NodeOk;
    forall j: nat | j < c.n ensures |v| == c.n == |w| && v[j] == w[j] {
      SlotMeans(c, g, s, p, v, j);
      SlotMeans(c, g, s, q, w, j);
      SameBits(c, g, s, p, q, j);
      if v[j].Some? { SameRbcValue(c, g, s, p, q, j); }
    }
    assert c.n > 0;
    SlotMeans(c, g, s, p, v, 0);
  }

  lemma OutcomeStays(c: Config, g: Setting, s: System, s': System, p: nat)
    requires Fits(c, g) && Next(c, g, s, s') && p in s.nodes && p in s'.nodes && s.nodes[p].outcome != Waiting
    ensures s'.nodes[p] == s.nodes[p]
  {
    hide Fits, RbcRuns.Enabled, RbcRuns.Apply, AbaRuns.Enabled, AbaRuns.Apply;
  }

  lemma {:induction false} OutcomesStay(c: Config, g: Setting, run: seq<System>, i: nat, j: nat, p: nat)
    requires Fits(c, g) && IsRun(c, g, run) && i <= j < |run|
    requires forall k :: 0 <= k < |run| ==> p in run[k].nodes
    requires run[i].nodes[p].outcome != Waiting
    ensures run[j].nodes[p].outcome == run[i].nodes[p].outcome
  {
    hide Fits, Next, Init;
    if i < j {
      OutcomesStay(c, g, run, i, j - 1, p);
      OutcomeStays(c, g, run[j - 1], run[j], p);
    }
  }

  /** Agreement: all honest nodes that return, whenever they do, return the same tuple. */
  lemma Agreement(c: Config, g: Setting, run: seq<System>, i: nat, j: nat, p: nat, v: seq<Option<Bytes>>, q: nat,
          w: seq<Option<Bytes>>)
    requires Fits(c, g) && IsRun(c, g, run) && i < |run| && j < |run|
    requires p in c.honest && q in c.honest && p in run[i].nodes && q in run[j].nodes
    requires run[i].nodes[p].outcome == Returned(v) && run[j].nodes[q].outcome == Returned(w)
    ensures v == w
  {
    hide Fits, Next, Init, AbaOk, RbcOk, NodeOk;
    var last := |run| - 1;
    forall k | 0 <= k < |run| ensures Inv(c, g, run[k]) { RunInv(c, g, run, k); }
    OutcomesStay(c, g, run, i, last, p);
    OutcomesStay(c, g, run, j, last, q);
    AgreementInState(c, g, run[last], p, v, q, w);
  }

  function Filled(values: seq<Option<Bytes>>): nat {
    if values == [] then 0 else Filled(values[..|values| - 1]) + if values[|values| - 1].Some? then 1 else 0
  }

  lemma {:induction false} FilledSum(values: seq<Option<Bytes>>, xs: seq<int>)
    requires |values| == |xs|
    requires forall j :: 0 <= j < |xs| ==> (xs[j] == 0 || xs[j] == 1) && (values[j].Some? <==> xs[j] != 0)
    ensures Filled(values) == Sum(xs)
  {
    if xs != [] { FilledSum(values[..|values| - 1], xs[..|xs| - 1]); }
  }

  /** Every filled slot was delivered to an honest node, which had asked for its inclusion,
      and at least n - f slots are filled. */
  lemma Inclusion(c: Config, g: Setting, run: seq<System>, i: nat, p: nat, v: seq<Option<Bytes>>)
    requires Fits(c, g) && IsRun(c, g, run) && i < |run|
    requires p in c.honest && p in run[i].nodes && run[i].nodes[p].outcome == Returned(v)
    ensures |v| == c.n && Filled(v) >= c.n - c.f
    ensures forall j: nat :: j < c.n && v[j].Some? ==> DeliveredSomewhere(c, run[i], j, v[j].value)
  {
    RunInv(c, g, run, i);
    hide Fits, IsRun, AbaOk, RbcOk, NodeOk;
    var s := run[i];
    forall j: nat | j < c.n
      ensures |v| == c.n && s.nodes[p].abaDone[j] && (v[j].Some? <==> s.nodes[p].abaValues[j] != 0)
      ensures s.nodes[p].abaValues[j] == 0 || s.nodes[p].abaValues[j] == 1
    {
      SlotMeans(c, g, s, p, v, j);
      SameBits(c, g, s, p, p, j);
    }
    assert 0 < c.n;
    SlotMeans(c, g, s, p, v, 0);
    FilledSum(v, s.nodes[p].abaValues);
    EnoughCommitted(c, g, s, p);
    forall j: nat | j < c.n && v[j].Some? ensures DeliveredSomewhere(c, s, j, v[j].value) {
      SlotMeans(c, g, s, p, v, j);
      SlotDelivered(c, g, s, p, j, v[j].value);
    }
  }

  /** An honest node got `v` from broadcast j and then passed 1 to `aba_in[j]`. */
  ghost predicate DeliveredSomewhere(c: Config, s: System, j: nat, v: Bytes) {
    j < |s.rbc| && exists h :: h in c.honest && AskedAfterDelivery(s, j, h, v)
  }

  predicate AskedAfterDelivery(s: System, j: nat, h: nat, v: Bytes)
    requires j < |s.rbc|
  {
    && h in s.nodes && h in s.rbc[j].nodes
    && Called(s.nodes[h], j, 1) && s.rbc[j].nodes[h].outcome == Rbc.Returned(v)
  }

  lemma SlotDelivered(c: Config, g: Setting, s: System, p: nat, j: nat, v: Bytes)
    requires Inv(c, g, s) && p in c.honest && j < c.n
    requires s.nodes[p].abaDone[j] && s.nodes[p].abaValues[j] == 1 && s.rbc[j].nodes[p].outcome == Rbc.Returned(v)
    ensures DeliveredSomewhere(c, s, j, v)
  {
    hide AbaRuns.Inv, RbcOk;
    assert NodeOk(c, s, p) && AbaOk(c, g, j, s.aba[j]);
    assert Decisions(c, s, p)[j] == s.aba[j].nodes[p].decided;
    var h := DecisionWasCalled(c, g.coin(j), s.aba[j], p);
    assert Called(s.nodes[h], j, s.aba[j].inputs[h]);
    assert NodeOk(c, s, h);
    assert Outputs(c, s, h)[j] == Delivered(s.rbc[j].nodes[h].outcome);
    SameRbcValue(c, g, s, p, h, j);
    assert AskedAfterDelivery(s, j, h, v);
  }

  lemma HonestSlotInState(c: Config, g: Setting, s: System, p: nat, v: seq<Option<Bytes>>, j: nat)
    requires Inv(c, g, s) && p in c.honest && s.nodes[p].outcome == Returned(v)
    requires j in c.honest && j < c.n && j < |v| && v[j].Some?
    ensures s.rbc[j].input.Some? && c.n - 2 * c.f <= 256
    ensures v[j] == Padding.HonestOutput(c.n - 2 * c.f, s.rbc[j].input.value)
    ensures v[j] == s.rbc[j].input <==> Erasure.PadRecoverable(c.n - 2 * c.f, |s.rbc[j].input.value|)
    ensures c.n - 2 * c.f <= 128 ==> v[j] == s.rbc[j].input
  {
    hide AbaOk, NodeOk, RbcRuns.Inv, Erasure.PadRecoverable, Padding.HonestOutput;
    assert RbcOk(c, g, j, s.rbc[j]);
    SlotMeans(c, g, s, p, v, j);
    RbcTheorems.ValidityInState(c, Broadcast(c, g, j), s.rbc[j], p);
    if c.n - 2 * c.f <= 128 { Erasure.SmallPadRecoverable(c.n - 2 * c.f, |s.rbc[j].input.value|); }
  }

  /** A filled slot of an honest proposer holds its proposal exactly when the padding of the proposal is
      recoverable, which it always is for K <= 128; otherwise it holds the proposal's mimic. */
  lemma HonestSlot(c: Config, g: Setting, run: seq<System>, i: nat, p: nat, v: seq<Option<Bytes>>, j: nat)
    requires Fits(c, g) && IsRun(c, g, run) && i < |run|
    requires p in c.honest && p in run[i].nodes && run[i].nodes[p].outcome == Returned(v)
    requires j in c.honest && j < c.n && j < |v| && v[j].Some? && j < |run[i].rbc|
    ensures run[i].rbc[j].input.Some? && c.n - 2 * c.f <= 256
    ensures v[j] == Padding.HonestOutput(c.n - 2 * c.f, run[i].rbc[j].input.value)
    ensures v[j] == run[i].rbc[j].input <==> Erasure.PadRecoverable(c.n - 2 * c.f, |run[i].rbc[j].input.value|)
    ensures c.n - 2 * c.f <= 128 ==> v[j] == run[i].rbc[j].input
  {
    hide Inv, IsRun, Fits, Erasure.PadRecoverable;
    RunInv(c, g, run, i);
    HonestSlotInState(c, g, run[i], p, v, j);
  }
}
