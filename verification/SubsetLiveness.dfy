// The common subset ends: every agreement gets its input from every honest node, and once the instances have ended
// every honest node returns.
module SubsetLiveness {
  import opened Options
  import opened Quorums
  import opened Merkle
  import Padding
  import Rbc = ReliableBroadcast
  import RbcRuns = BroadcastRuns
  import RbcTheorems = BroadcastTheorems
  import Aba = BinaryAgreement
  import AbaRuns = AgreementRuns
  import opened CommonSubset
  import opened SubsetNodes
  import opened SubsetRuns
  import opened SubsetTheorems

  // ---------------------------------------------------------------- one node

  predicate Asked(node: NodeState, j: nat) { Called(node, j, 0) || Called(node, j, 1) }

  /** Agreement j got its input when the flag was set; every agreement has it after n - f ones, and agreement j after
      the delivery of broadcast j. */
  ghost predicate InputsDue(n: nat, f: nat, node: NodeState) {
    && Sized(n, node)
    && (forall j: nat :: j < n && node.abaInputted[j] ==> Asked(node, j))
    && (Sum(node.abaValues) >= n - f ==> forall j: nat :: j < n ==> node.abaInputted[j])
    && (forall j: nat :: j < n && node.rbcValues[j].Some? ==> node.abaInputted[j])
  }

  lemma FreshDue(n: nat, f: nat)
    requires f < n
    ensures InputsDue(n, f, FreshNode(n))
  {
    SumOfZeros(FreshNode(n).abaValues);
  }

  lemma {:induction false} SumOfZeros(xs: seq<int>)
    requires forall i :: 0 <= i < |xs| ==> xs[i] == 0
    ensures Sum(xs) == 0
  {
    if xs != [] { SumOfZeros(xs[..|xs| - 1]); }
  }

  /** Calls and flags only grow. */
  ghost predicate FlagsAsked(s: NodeState) {
    forall j: nat :: j < |s.abaInputted| && s.abaInputted[j] ==> Asked(s, j)
  }

  lemma CallAsks(s: NodeState, j: nat, v: int, t: NodeState)
    requires FlagsAsked(s) && j < |s.abaInputted| && (v == 0 || v == 1)
    requires t == s.(abaInputted := s.abaInputted[j := true], calls := s.calls + [(j, v)])
    ensures FlagsAsked(t)
  {
    forall k: nat | k < |t.abaInputted| && t.abaInputted[k] ensures Asked(t, k) {
      if k == j {
        assert t.calls[|s.calls|] == (j, v);
        assert Called(t, j, v);
      } else {
        assert Asked(s, k);
        var w := if Called(s, k, 0) then 0 else 1;
        var i :| 0 <= i < |s.calls| && s.calls[i] == (k, w);
        assert t.calls[i] == (k, w);
        assert Called(t, k, w);
      }
    }
  }

  /** All flags from k on are set, the others are kept. */
  lemma {:induction false} FillSetsAll(s: NodeState, k: nat)
    requires FlagsAsked(s)
    ensures var t := FillZeros(s, k);
            && |t.abaInputted| == |s.abaInputted| && FlagsAsked(t)
            && t == s.(abaInputted := t.abaInputted, calls := t.calls)
            && (forall j: nat :: j < |t.abaInputted| && (k <= j || s.abaInputted[j]) ==> t.abaInputted[j])
    decreases |s.abaInputted| - k
  {
    if k < |s.abaInputted| {
      if s.abaInputted[k] {
        FillSetsAll(s, k + 1);
      } else {
        var t := s.(abaInputted := s.abaInputted[k := true], calls := s.calls + [(k, 0)]);
        CallAsks(s, k, 0, t);
        FillSetsAll(t, k + 1);
      }
    }
  }

  lemma SameCallsAsked(s: NodeState, t: NodeState)
    requires t.calls == s.calls && t.abaInputted == s.abaInputted && FlagsAsked(s)
    ensures FlagsAsked(t)
  {
    forall k: nat | k < |t.abaInputted| && t.abaInputted[k] ensures Asked(t, k) {
      assert Asked(s, k);
      assert Called(t, k, 0) == Called(s, k, 0) && Called(t, k, 1) == Called(s, k, 1);
    }
  }

  lemma RbcDue(n: nat, f: nat, s: NodeState, j: nat, v: Bytes)
    requires InputsDue(n, f, s) && j < n
    ensures InputsDue(n, f, OnRbc(s, j, v))
  {
    var t := s.(rbcValues := s.rbcValues[j := Some(v)]);
    SameCallsAsked(s, t);
    if !s.abaInputted[j] { CallAsks(t, j, 1, OnRbc(s, j, v)); }
    assert FlagsAsked(OnRbc(s, j, v));
  }

  lemma AbaDue(n: nat, f: nat, s: NodeState, j: nat, v: int)
    requires InputsDue(n, f, s) && j < n
    ensures InputsDue(n, f, OnAba(n, f, s, j, v))
  {
    var t := s.(abaValues := s.abaValues[j := v], abaDone := s.abaDone[j := true]);
    SameCallsAsked(s, t);
    FillSetsAll(t, 0);
    assert FlagsAsked(OnAba(n, f, s, j, v));
  }

  lemma RaisedDue(n: nat, f: nat, s: NodeState, j: nat)
    requires InputsDue(n, f, s) && j < n
    ensures InputsDue(n, f, OnRbcRaised(s, j))
  {
    SameCallsAsked(s, OnRbcRaised(s, j));
    assert FlagsAsked(OnRbcRaised(s, j));
  }

  lemma AllDoneDue(n: nat, f: nat, s: NodeState)
    requires InputsDue(n, f, s) && CanConclude(n, f, s)
    ensures InputsDue(n, f, OnAllDone(n, f, s))
  {
    if Sum(s.abaValues) >= n - f { JoinIs(n, s, 0); }
    SameCallsAsked(s, OnAllDone(n, f, s));
    assert FlagsAsked(OnAllDone(n, f, s));
  }

  // ---------------------------------------------------------------- every run

  ghost predicate AllDue(c: Config, s: System) {
    s.nodes.Keys == c.honest && forall p :: p in c.honest ==> InputsDue(c.n, c.f, s.nodes[p])
  }

  lemma StepDue(c: Config, g: Setting, s: System, step: Step)
    requires Fits(c, g) && WellShaped(c, s) && AllDue(c, s) && Enabled(c, g, s, step)
    ensures AllDue(c, Apply(c, g, s, step))
  {
    hide InputsDue, RbcRuns.Enabled, RbcRuns.Apply, AbaRuns.Apply, AbaRuns.Enabled, OnRbc, OnAba, OnRbcRaised,
         OnAllDone, CanConclude;
    match step
    case RbcStep(_, _) =>
    case AbaStep(_, _) =>
    case TakeRbc(p, j) => RbcDue(c.n, c.f, s.nodes[p], j, Outputs(c, s, p)[j].value);
    case TakeRaise(p, j) => RaisedDue(c.n, c.f, s.nodes[p], j);
    case TakeAba(p, j) => AbaDue(c.n, c.f, s.nodes[p], j, Decisions(c, s, p)[j].value);
    case Conclude(p) => AllDoneDue(c.n, c.f, s.nodes[p]);
  }

  lemma NextDue(c: Config, g: Setting, s: System, t: System)
    requires Fits(c, g) && AllDue(c, s) && Next(c, g, s, t)
    ensures AllDue(c, t)
  {
    hide Enabled, Apply, AllDue, Fits;
    var step :| Enabled(c, g, s, step) && t == Apply(c, g, s, step);
    StepDue(c, g, s, step);
  }

  lemma InitDue(c: Config, s: System)
    requires c.Valid() && Init(c, s)
    ensures AllDue(c, s)
  {
    forall p | p in c.honest ensures InputsDue(c.n, c.f, s.nodes[p]) { FreshDue(c.n, c.f); }
  }

  lemma {:induction false} RunDue(c: Config, g: Setting, run: seq<System>, i: nat)
    requires Fits(c, g) && IsRun(c, g, run) && i < |run|
    ensures AllDue(c, run[i])
  {
    hide AllDue, Init, Next;
    if i == 0 {
      InitDue(c, run[0]);
    } else {
      RunDue(c, g, run, i - 1);
      NextDue(c, g, run[i - 1], run[i]);
    }
  }

  /** A node that has n - f ones has given every agreement an input. */
  lemma InputsComplete(c: Config, g: Setting, run: seq<System>, i: nat, p: nat, j: nat)
    requires Fits(c, g) && IsRun(c, g, run) && i < |run| && p in c.honest && p in run[i].nodes && j < c.n
    requires Sum(run[i].nodes[p].abaValues) >= c.n - c.f
    ensures Called(run[i].nodes[p], j, 0) || Called(run[i].nodes[p], j, 1)
  {
    hide IsRun, Fits;
    RunDue(c, g, run, i);
    assert InputsDue(c.n, c.f, run[i].nodes[p]);
    assert run[i].nodes[p].abaInputted[j] && Asked(run[i].nodes[p], j);
  }

  /** A stored broadcast value asked for its inclusion, unless n - f ones had come before. */
  lemma StoredAsked(c: Config, g: Setting, run: seq<System>, i: nat, p: nat, j: nat)
    requires Fits(c, g) && IsRun(c, g, run) && i < |run| && p in c.honest && p in run[i].nodes && j < c.n
    requires j < |run[i].nodes[p].rbcValues| && run[i].nodes[p].rbcValues[j].Some?
    ensures || Called(run[i].nodes[p], j, 1)
            || (Called(run[i].nodes[p], j, 0) && Sum(run[i].nodes[p].abaValues) >= c.n - c.f)
  {
    hide IsRun, Fits, AbaOk, RbcOk;
    RunDue(c, g, run, i);
    RunInv(c, g, run, i);
    assert InputsDue(c.n, c.f, run[i].nodes[p]);
    assert NodeOk(c, run[i], p);
  }

  /** What a greenlet takes is stored, once, and nothing else but calls changes. */
  lemma TakesAreStored(c: Config, g: Setting, s: System, step: Step, p: nat, j: nat)
    requires Fits(c, g) && WellShaped(c, s) && Enabled(c, g, s, step) && p in c.honest && j < c.n
    requires step == TakeRbc(p, j) || step == TakeRaise(p, j) || step == TakeAba(p, j)
    ensures p in Apply(c, g, s, step).nodes && |s.nodes[p].abaValues| == c.n
    ensures var before, after := s.nodes[p], Apply(c, g, s, step).nodes[p];
            && after.rbcValues == (if step.TakeRbc? then before.rbcValues[j := Outputs(c, s, p)[j]]
                                   else before.rbcValues)
            && after.rbcDead == (if step.TakeRaise? then before.rbcDead[j := true] else before.rbcDead)
            && after.abaDone == (if step.TakeAba? then before.abaDone[j := true] else before.abaDone)
            && after.abaValues == (if step.TakeAba? then before.abaValues[j := Decisions(c, s, p)[j].value]
                                   else before.abaValues)
            && after.outcome == Waiting && (step.TakeRaise? ==> after.calls == before.calls)
  {
    hide RbcRuns.Enabled, AbaRuns.Enabled, RbcRuns.Fits;
    if step.TakeAba? {
      var t := s.nodes[p].(abaValues := s.nodes[p].abaValues[j := Decisions(c, s, p)[j].value],
                           abaDone := s.nodes[p].abaDone[j := true]);
      FillKeepsRest(t, 0);
    }
  }

  lemma {:induction false} FillKeepsRest(s: NodeState, k: nat)
    ensures var t := FillZeros(s, k);
            t == s.(abaInputted := t.abaInputted, calls := t.calls)
    decreases |s.abaInputted| - k
  {
    if k < |s.abaInputted| {
      FillKeepsRest(if s.abaInputted[k] then s
                    else s.(abaInputted := s.abaInputted[k := true], calls := s.calls + [(k, 0)]), k + 1);
    }
  }

  // ---------------------------------------------------------------- the common subset ends

  /** No greenlet of a node can move, and no call of `aba_in` is left to be taken. */
  ghost predicate NodesAtRest(c: Config, g: Setting, s: System)
    requires Fits(c, g) && WellShaped(c, s)
  {
    forall step :: Enabled(c, g, s, step) ==> step.RbcStep? || (step.AbaStep? && !step.abaStep.Input?)
  }

  /** The agreements end: when all honest nodes have given their input, all of them decide. */
  ghost predicate AgreementEnds(c: Config, x: AbaRuns.System)
    requires x.nodes.Keys == c.honest
  {
    (forall p :: p in c.honest ==> x.nodes[p].phase != Aba.AwaitInput) ==>
      forall p :: p in c.honest ==> x.nodes[p].decided.Some?
  }

  /** An honest leader has broadcast an input that comes out of `decode`. */
  ghost predicate Proposed(c: Config, x: RbcRuns.System)
    requires 1 <= c.n - 2 * c.f <= 256
  {
    x.input.Some? && Padding.HonestOutput(c.n - 2 * c.f, x.input.value).Some?
  }

  /** Everything was delivered, the instances have ended, and nothing is left to do. */
  ghost predicate Settled(c: Config, g: Setting, s: System)
    requires Fits(c, g) && WellShaped(c, s) && 1 <= c.n - 2 * c.f <= 256
  {
    && NodesAtRest(c, g, s)
    && (forall j: nat {:trigger s.rbc[j]} :: j < c.n ==> RbcTheorems.Quiescent(c, s.rbc[j]))
    && (forall j: nat {:trigger s.aba[j]} :: j < c.n ==> AgreementEnds(c, s.aba[j]))
    && (forall j: nat {:trigger s.rbc[j]} :: j in c.honest && j < c.n ==> Proposed(c, s.rbc[j]))
  }

  /** What is known of a settled state. */
  ghost predicate Ended(c: Config, g: Setting, s: System) {
    && Fits(c, g) && Inv(c, g, s) && AllDue(c, s) && 1 <= c.n - 2 * c.f <= 256 && Settled(c, g, s)
  }

  lemma FewBlocks(c: Config, g: Setting)
    requires Fits(c, g)
    ensures 1 <= c.n - 2 * c.f <= 256
  {
    hide RbcRuns.Inv;
    assert RbcRuns.Fits(c, Broadcast(c, g, 0));
  }

  /** Broadcast j has delivered to every honest node. */
  ghost predicate DeliveredToAll(c: Config, s: System, j: nat)
    requires WellShaped(c, s) && j < c.n
  {
    forall p :: p in c.honest ==> s.rbc[j].nodes[p].outcome.Returned?
  }

  /** An honest proposer's broadcast delivers. */
  lemma HonestDelivered(c: Config, g: Setting, s: System, j: nat)
    requires Ended(c, g, s) && j in c.honest && j < c.n
    ensures DeliveredToAll(c, s, j)
  {
    hide RbcRuns.Inv, RbcRuns.Fits, NodesAtRest, AgreementEnds, AbaOk, NodeOk, AllDue, RbcTheorems.Quiescent,
         Padding.HonestOutput;
    assert RbcOk(c, g, j, s.rbc[j]) && Proposed(c, s.rbc[j]);
    var b := Broadcast(c, g, j);
    forall p | p in c.honest ensures s.rbc[j].nodes[p].outcome.Returned? {
      RbcTheorems.HonestLeaderInState(c, b, s.rbc[j], p);
      RbcTheorems.ValidityInState(c, b, s.rbc[j], p);
    }
  }

  /** One delivery brings all. */
  lemma OneDelivered(c: Config, g: Setting, s: System, j: nat, h: nat)
    requires Ended(c, g, s) && j < c.n && h in c.honest && s.rbc[j].nodes[h].outcome.Returned?
    ensures DeliveredToAll(c, s, j)
  {
    hide RbcRuns.Inv, RbcRuns.Fits, NodesAtRest, AgreementEnds, AbaOk, NodeOk, AllDue, RbcTheorems.Quiescent, Proposed;
    assert RbcOk(c, g, j, s.rbc[j]);
    forall p | p in c.honest ensures s.rbc[j].nodes[p].outcome.Returned? {
      RbcTheorems.TotalityInState(c, Broadcast(c, g, j), s.rbc[j], h, p);
    }
  }

  lemma AtRest(c: Config, g: Setting, s: System, step: Step)
    requires Ended(c, g, s) && !step.RbcStep? && (step.AbaStep? ==> step.abaStep.Input?)
    ensures !Enabled(c, g, s, step)
  {
    hide Enabled, Inv, AllDue, RbcTheorems.Quiescent, AgreementEnds, Proposed, Fits;
    EndedShape(c, g, s);
  }

  lemma EndedShape(c: Config, g: Setting, s: System)
    requires Ended(c, g, s)
    ensures Fits(c, g) && WellShaped(c, s)
  {
    hide Fits, RbcOk, AbaOk, NodeOk, Settled;
  }

  /** A node still waiting has stored what was delivered to it. */
  lemma DeliveredStored(c: Config, g: Setting, s: System, j: nat, p: nat)
    requires Ended(c, g, s) && j < c.n && p in c.honest && s.rbc[j].nodes[p].outcome.Returned?
    requires s.nodes[p].outcome == Waiting
    ensures s.nodes[p].rbcValues[j].Some?
  {
    hide RbcOk, AbaOk, NodeOk, AllDue, RbcTheorems.Quiescent, Proposed, AgreementEnds, Fits;
    assert Outputs(c, s, p)[j] == Delivered(s.rbc[j].nodes[p].outcome);
    AtRest(c, g, s, TakeRbc(p, j));
  }

  /** A node that has returned has n - f ones and all agreements in. */
  lemma ReturnedHas(c: Config, g: Setting, s: System, p: nat)
    requires Inv(c, g, s) && p in c.honest && s.nodes[p].outcome != Waiting
    ensures Sum(s.nodes[p].abaValues) >= c.n - c.f && forall j :: 0 <= j < c.n ==> s.nodes[p].abaDone[j]
  {
    hide RbcOk, AbaOk;
    assert NodeOk(c, s, p);
    NotFailed(c, g, s, p);
  }

  lemma AskedWhenEnough(c: Config, s: System, p: nat, j: nat)
    requires AllDue(c, s) && p in c.honest && j < c.n
    requires Sum(s.nodes[p].abaValues) >= c.n - c.f || (j < |s.nodes[p].rbcValues| && s.nodes[p].rbcValues[j].Some?)
    ensures Asked(s.nodes[p], j)
  {
    assert InputsDue(c.n, c.f, s.nodes[p]);
    assert s.nodes[p].abaInputted[j];
  }

  /** Delivered everywhere, asked for by all. */
  lemma DeliveredAsked(c: Config, g: Setting, s: System, j: nat, p: nat)
    requires Ended(c, g, s) && j < c.n && DeliveredToAll(c, s, j) && p in c.honest
    ensures Asked(s.nodes[p], j)
  {
    hide Settled, RbcOk, AbaOk, NodeOk, AllDue, Fits;
    if s.nodes[p].outcome == Waiting { DeliveredStored(c, g, s, j, p); } else { ReturnedHas(c, g, s, p); }
    AskedWhenEnough(c, s, p, j);
  }

  /** An input that was given has been taken by the agreement. */
  lemma AskedTaken(c: Config, g: Setting, s: System, j: nat, p: nat)
    requires Ended(c, g, s) && j < c.n && p in c.honest && Asked(s.nodes[p], j)
    ensures s.aba[j].nodes[p].phase != Aba.AwaitInput
  {
    hide RbcOk, AbaOk, NodeOk, AllDue, RbcTheorems.Quiescent, Proposed, AgreementEnds, Fits;
    var v := if Called(s.nodes[p], j, 0) then 0 else 1;
    var i :| 0 <= i < |s.nodes[p].calls| && s.nodes[p].calls[i] == (j, v);
    AtRest(c, g, s, AbaStep(j, AbaRuns.Input(p, v)));
  }

  /** An agreement that all honest nodes asked for has decided at all of them. */
  lemma AskedDecided(c: Config, g: Setting, s: System, j: nat)
    requires Ended(c, g, s) && j < c.n && forall q :: q in c.honest ==> Asked(s.nodes[q], j)
    ensures forall q :: q in c.honest ==> s.aba[j].nodes[q].decided.Some?
  {
    hide RbcOk, AbaOk, NodeOk, AllDue, RbcTheorems.Quiescent, Proposed, Fits, NodesAtRest, Asked;
    forall q | q in c.honest ensures s.aba[j].nodes[q].phase != Aba.AwaitInput { AskedTaken(c, g, s, j, q); }
    assert AgreementEnds(c, s.aba[j]);
  }

  /** And its bit has been taken. */
  lemma AskedDone(c: Config, g: Setting, s: System, j: nat, p: nat)
    requires Ended(c, g, s) && j < c.n && p in c.honest && forall q :: q in c.honest ==> Asked(s.nodes[q], j)
    ensures s.nodes[p].abaDone[j]
  {
    hide RbcOk, AbaOk, NodeOk, AllDue, Settled, Fits, Asked;
    AskedDecided(c, g, s, j);
    assert Decisions(c, s, p)[j] == s.aba[j].nodes[p].decided;
    if s.nodes[p].outcome == Waiting { AtRest(c, g, s, TakeAba(p, j)); } else { ReturnedHas(c, g, s, p); }
  }

  lemma DeliveredDone(c: Config, g: Setting, s: System, j: nat, p: nat)
    requires Ended(c, g, s) && j < c.n && p in c.honest && DeliveredToAll(c, s, j)
    ensures s.nodes[p].abaDone[j]
  {
    hide Settled, RbcOk, AbaOk, NodeOk, AllDue, Fits, Asked;
    forall q | q in c.honest ensures Asked(s.nodes[q], j) { DeliveredAsked(c, g, s, j, q); }
    AskedDone(c, g, s, j, p);
  }

  /** A slot that some honest node saw accepted was delivered everywhere. */
  lemma AcceptedDelivered(c: Config, g: Setting, s: System, j: nat, p: nat)
    requires Ended(c, g, s) && j < c.n && p in c.honest && s.nodes[p].abaDone[j] && s.nodes[p].abaValues[j] == 1
    ensures DeliveredToAll(c, s, j)
  {
    hide Settled, AbaRuns.Inv, RbcOk, AllDue, Fits;
    assert NodeOk(c, s, p) && AbaOk(c, g, j, s.aba[j]);
    assert Decisions(c, s, p)[j] == s.aba[j].nodes[p].decided;
    var h := DecisionWasCalled(c, g.coin(j), s.aba[j], p);
    assert Called(s.nodes[h], j, s.aba[j].inputs[h]);
    assert NodeOk(c, s, h);
    assert Outputs(c, s, h)[j] == Delivered(s.rbc[j].nodes[h].outcome);
    OneDelivered(c, g, s, j, h);
  }

  lemma {:induction false} SumAtLeast(xs: seq<int>, ones: set<nat>)
    requires forall i :: 0 <= i < |xs| ==> 0 <= xs[i]
    requires forall i :: i in ones ==> i < |xs| && xs[i] >= 1
    ensures Sum(xs) >= |ones|
    decreases |xs|
  {
    if xs == [] {
      assert ones == {};
    } else {
      var k := |xs| - 1;
      var rest := ones - {k};
      SumAtLeast(xs[..k], rest);
      if k in ones { assert ones == rest + {k}; }
    }
  }

  /** Values are bits, 0 until the agreement is in. */
  lemma ValuesAreBits(c: Config, g: Setting, s: System, p: nat, j: nat)
    requires Inv(c, g, s) && p in c.honest && j < c.n
    ensures s.nodes[p].abaValues[j] == 0 || (s.nodes[p].abaDone[j] && s.nodes[p].abaValues[j] == 1)
  {
    hide RbcOk, AbaOk;
    assert NodeOk(c, s, p);
    if s.nodes[p].abaDone[j] { SameBits(c, g, s, p, p, j); }
  }

  /** Without a 0 from any honest node, the agreement of a delivered broadcast ends in 1. */
  lemma OnesOnly(c: Config, g: Setting, s: System, j: nat, p: nat)
    requires Ended(c, g, s) && j < c.n && p in c.honest && s.nodes[p].abaDone[j]
    requires forall q :: q in c.honest ==> !Called(s.nodes[q], j, 0)
    ensures s.nodes[p].abaValues[j] == 1
  {
    hide Settled, AbaRuns.Inv, RbcOk, AllDue, Fits;
    SameBits(c, g, s, p, p, j);
    assert NodeOk(c, s, p) && AbaOk(c, g, j, s.aba[j]);
    assert Decisions(c, s, p)[j] == s.aba[j].nodes[p].decided;
    var h := DecisionWasCalled(c, g.coin(j), s.aba[j], p);
    assert Called(s.nodes[h], j, s.aba[j].inputs[h]);
  }

  /** Some honest node has n - f ones. */
  lemma SomeHasEnough(c: Config, g: Setting, s: System) returns (h: nat)
    requires Ended(c, g, s)
    ensures h in c.honest && Sum(s.nodes[h].abaValues) >= c.n - c.f
  {
    hide Settled, RbcOk, AbaOk, AllDue, Fits, DeliveredToAll, InputsOk, DeadOk;
    if q, j: nat :| q in c.honest && j < c.n && Called(s.nodes[q], j, 0) {
      assert NodeOk(c, s, q);
      h := q;
    } else {
      assert c.honest != {};
      h :| h in c.honest;
      forall j | j in c.honest ensures j < c.n && s.nodes[h].abaValues[j] == 1 {
        assert j in Ids(c.n);
        HonestDelivered(c, g, s, j);
        DeliveredDone(c, g, s, j, h);
        OnesOnly(c, g, s, j, h);
      }
      forall i: nat | i < c.n ensures 0 <= s.nodes[h].abaValues[i] { ValuesAreBits(c, g, s, h, i); }
      SumAtLeast(s.nodes[h].abaValues, c.honest);
    }
  }

  /** What one honest node has, all have. */
  lemma AllHaveEnough(c: Config, g: Setting, s: System, p: nat)
    requires Ended(c, g, s) && p in c.honest
    ensures Sum(s.nodes[p].abaValues) >= c.n - c.f
  {
    hide Settled, RbcOk, AbaOk, NodeOk, AllDue, Fits, DeliveredToAll, InputsOk, DeadOk;
    var h := SomeHasEnough(c, g, s);
    forall j: nat | j < c.n ensures s.nodes[h].abaValues[j] <= s.nodes[p].abaValues[j] {
      ValuesAreBits(c, g, s, h, j);
      ValuesAreBits(c, g, s, p, j);
      if s.nodes[h].abaValues[j] == 1 {
        AcceptedDelivered(c, g, s, j, h);
        DeliveredDone(c, g, s, j, p);
        SameBits(c, g, s, h, p, j);
      }
    }
    SumGrows(s.nodes[h].abaValues, s.nodes[p].abaValues);
  }

  lemma AllDone(c: Config, g: Setting, s: System, p: nat, j: nat)
    requires Ended(c, g, s) && p in c.honest && j < c.n
    ensures s.nodes[p].abaDone[j]
  {
    hide Settled, RbcOk, AbaOk, NodeOk, AllDue, Fits, InputsOk, DeadOk, Asked;
    forall q | q in c.honest ensures Asked(s.nodes[q], j) {
      AllHaveEnough(c, g, s, q);
      AskedWhenEnough(c, s, q, j);
    }
    AskedDone(c, g, s, j, p);
  }

  /** Every join returns: what is included was stored. */
  lemma {:induction false} JoinsEnd(n: nat, node: NodeState, j: nat)
    requires Sized(n, node) && j <= n
    requires forall i :: 0 <= i < n ==> node.abaValues[i] == 0 || node.rbcValues[i].Some?
    ensures JoinsReturn(node, j)
    decreases n - j
  {
    if j < n { JoinsEnd(n, node, j + 1); }
  }

  lemma CanEnd(c: Config, g: Setting, s: System, p: nat)
    requires Ended(c, g, s) && p in c.honest && s.nodes[p].outcome == Waiting
    ensures Enabled(c, g, s, Conclude(p))
  {
    hide Settled, RbcOk, AbaOk, NodeOk, AllDue, Fits, InputsOk, DeadOk, JoinsReturn;
    forall j: nat | j < c.n
      ensures s.nodes[p].abaDone[j] && (s.nodes[p].abaValues[j] == 0 || s.nodes[p].rbcValues[j].Some?)
    {
      AllDone(c, g, s, p, j);
      ValuesAreBits(c, g, s, p, j);
      if s.nodes[p].abaValues[j] == 1 {
        AcceptedDelivered(c, g, s, j, p);
        DeliveredStored(c, g, s, j, p);
      }
    }
    JoinsEnd(c.n, s.nodes[p], 0);
  }

  lemma EndedReturned(c: Config, g: Setting, s: System, p: nat)
    requires Ended(c, g, s) && p in c.honest
    ensures s.nodes[p].outcome.Returned?
  {
    hide RbcOk, AbaOk, NodeOk, AllDue, Fits, InputsOk, DeadOk, Enabled;
    if s.nodes[p].outcome == Waiting {
      CanEnd(c, g, s, p);
      AtRest(c, g, s, Conclude(p));
      assert false;
    }
    NotFailed(c, g, s, p);
  }

  /** Termination: once every message between honest nodes is delivered and the agreements that got all their inputs
      have decided, and no node can move any more, every honest node has returned its tuple. */
  lemma Terminates(c: Config, g: Setting, run: seq<System>, i: nat, p: nat)
    requires Fits(c, g) && IsRun(c, g, run) && i < |run| && p in c.honest
    requires WellShaped(c, run[i]) && 1 <= c.n - 2 * c.f <= 256 && Settled(c, g, run[i])
    ensures run[i].nodes[p].outcome.Returned?
  {
    hide IsRun, Inv, AllDue, Settled, Fits;
    RunInv(c, g, run, i);
    RunDue(c, g, run, i);
    EndedReturned(c, g, run[i], p);
  }
}
