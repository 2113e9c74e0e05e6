// Runs of the common subset over N instances each of the real broadcast and agreement machines:
// what every step keeps. SubsetTheorems draws the safety of the common subset from it.
module SubsetRuns {
  import opened Options
  import opened Quorums
  import opened Merkle
  import Erasure
  import Rbc = ReliableBroadcast
  import RbcRuns = BroadcastRuns
  import RbcTheorems = BroadcastTheorems
  import Aba = BinaryAgreement
  import AbaRuns = AgreementRuns
  import opened CommonSubset
  import opened SubsetNodes

  /** The code shared by the broadcasts (broadcast j has leader j), and the coin of each agreement. */
  datatype Setting = Setting(code: Erasure.Code, coin: nat -> int -> AbaRuns.Bit)

  datatype System = System(nodes: map<nat, NodeState>, rbc: seq<RbcRuns.System>, aba: seq<AbaRuns.System>)

  datatype Step =
    | RbcStep(j: nat, rbcStep: RbcRuns.Step)
    | AbaStep(j: nat, abaStep: AbaRuns.Step)
    | TakeRbc(p: nat, j: nat)
    | TakeRaise(p: nat, j: nat)
    | TakeAba(p: nat, j: nat)
    | Conclude(p: nat)

  function Broadcast(c: Config, g: Setting, j: nat): Rbc.Params {
    Rbc.Params(c.n, c.f, j, g.code)
  }

  ghost predicate Fits(c: Config, g: Setting) {
    c.Valid() && forall j: nat :: j < c.n ==> RbcRuns.Fits(c, Broadcast(c, g, j))
  }

  ghost predicate Init(c: Config, s: System) {
    && s.nodes.Keys == c.honest && |s.rbc| == c.n && |s.aba| == c.n
    && (forall p :: p in c.honest ==> s.nodes[p] == FreshNode(c.n))
    && (forall j :: 0 <= j < c.n ==> RbcRuns.Init(c, s.rbc[j]) && AbaRuns.Init(c, s.aba[j]))
  }

  predicate WellShaped(c: Config, s: System) {
    && s.nodes.Keys == c.honest && |s.rbc| == c.n && |s.aba| == c.n
    && (forall p :: p in c.honest ==> Sized(c.n, s.nodes[p]))
    && (forall j :: 0 <= j < c.n ==> s.rbc[j].nodes.Keys == c.honest && s.aba[j].nodes.Keys == c.honest)
  }

  function Delivered(o: Rbc.Outcome): Option<Bytes> {
    if o.Returned? then Some(o.m) else None
  }

  /** What the broadcasts returned to node `p`, and what its agreements decided, so far. */
  function Outputs(c: Config, s: System, p: nat): seq<Option<Bytes>>
    requires WellShaped(c, s) && p in c.honest
  {
    seq(c.n, j requires 0 <= j < c.n => Delivered(s.rbc[j].nodes[p].outcome))
  }

  function Decisions(c: Config, s: System, p: nat): seq<Option<int>>
    requires WellShaped(c, s) && p in c.honest
  {
    seq(c.n, j requires 0 <= j < c.n => s.aba[j].nodes[p].decided)
  }

  /** An instance moves by itself, except that an agreement's input comes from the node's `aba_in` call;
      a greenlet resumes when its instance has an output for the node. */
  ghost predicate Enabled(c: Config, g: Setting, s: System, step: Step)
    requires Fits(c, g) && WellShaped(c, s)
  {
    match step
    case RbcStep(j, st) => j < c.n && RbcRuns.Enabled(c, Broadcast(c, g, j), s.rbc[j], st)
    case AbaStep(j, st) =>
      && j < c.n && AbaRuns.Enabled(c, s.aba[j], st)
      && (st.Input? ==> (j, st.v) in s.nodes[st.p].calls)
    case TakeRbc(p, j) =>
      && p in c.honest && j < c.n && s.nodes[p].outcome == Waiting
      && s.nodes[p].rbcValues[j] == None && Outputs(c, s, p)[j].Some?
    case TakeRaise(p, j) =>
      && p in c.honest && j < c.n && s.nodes[p].outcome == Waiting
      && !s.nodes[p].rbcDead[j] && s.rbc[j].nodes[p].outcome == Rbc.Raised
    case TakeAba(p, j) =>
      && p in c.honest && j < c.n && s.nodes[p].outcome == Waiting
      && !s.nodes[p].abaDone[j] && Decisions(c, s, p)[j].Some?
    case Conclude(p) => p in c.honest && s.nodes[p].outcome == Waiting && CanConclude(c.n, c.f, s.nodes[p])
  }

  ghost function Apply(c: Config, g: Setting, s: System, step: Step): System
    requires Fits(c, g) && WellShaped(c, s) && Enabled(c, g, s, step)
  {
    match step
    case RbcStep(j, st) => s.(rbc := s.rbc[j := RbcRuns.Apply(c, Broadcast(c, g, j), s.rbc[j], st)])
    case AbaStep(j, st) => s.(aba := s.aba[j := AbaRuns.Apply(c, g.coin(j), s.aba[j], st)])
    case TakeRbc(p, j) => s.(nodes := s.nodes[p := OnRbc(s.nodes[p], j, Outputs(c, s, p)[j].value)])
    case TakeRaise(p, j) => s.(nodes := s.nodes[p := OnRbcRaised(s.nodes[p], j)])
    case TakeAba(p, j) => s.(nodes := s.nodes[p := OnAba(c.n, c.f, s.nodes[p], j, Decisions(c, s, p)[j].value)])
    case Conclude(p) => s.(nodes := s.nodes[p := OnAllDone(c.n, c.f, s.nodes[p])])
  }

  ghost predicate Next(c: Config, g: Setting, s: System, s': System)
    requires Fits(c, g)
  {
    WellShaped(c, s) && exists step :: Enabled(c, g, s, step) && s' == Apply(c, g, s, step)
  }

  ghost predicate IsRun(c: Config, g: Setting, run: seq<System>)
    requires Fits(c, g)
  {
    && run != []
    && Init(c, run[0])
    && forall i :: 0 <= i < |run| - 1 ==> Next(c, g, run[i], run[i + 1])
  }

  // ---------------------------------------------------------------- the invariant

  ghost predicate RbcOk(c: Config, g: Setting, j: nat, x: RbcRuns.System) {
    RbcRuns.Fits(c, Broadcast(c, g, j)) && RbcRuns.Inv(c, Broadcast(c, g, j), x)
  }

  ghost predicate AbaOk(c: Config, g: Setting, j: nat, x: AbaRuns.System) {
    AbaRuns.Inv(c, g.coin(j), x)
  }

  ghost predicate NodeOk(c: Config, s: System, p: nat)
    requires WellShaped(c, s) && p in c.honest
  {
    NodeInv(c.n, c.f, Outputs(c, s, p), Decisions(c, s, p), s.nodes[p])
  }

  /** The inputs of agreement j are the nodes' calls of `aba_in[j]`. */
  ghost predicate InputsOk(c: Config, s: System)
    requires WellShaped(c, s)
  {
    forall j, p {:trigger s.aba[j].inputs[p]} :: 0 <= j < c.n && p in s.aba[j].inputs ==>
      p in c.honest && Called(s.nodes[p], j, s.aba[j].inputs[p])
  }

  /** A greenlet that ended without a value had its broadcast raise. */
  ghost predicate DeadOk(c: Config, s: System)
    requires WellShaped(c, s)
  {
    forall p, j {:trigger s.nodes[p].rbcDead[j]} :: p in c.honest && 0 <= j < c.n && s.nodes[p].rbcDead[j] ==>
      s.rbc[j].nodes[p].outcome == Rbc.Raised
  }

  ghost predicate Inv(c: Config, g: Setting, s: System) {
    && c.Valid()
    && WellShaped(c, s)
    && (forall j: nat {:trigger RbcOk(c, g, j, s.rbc[j])} :: j < c.n ==> RbcOk(c, g, j, s.rbc[j]))
    && (forall j: nat {:trigger AbaOk(c, g, j, s.aba[j])} :: j < c.n ==> AbaOk(c, g, j, s.aba[j]))
    && (forall p {:trigger NodeOk(c, s, p)} :: p in c.honest ==> NodeOk(c, s, p))
    && InputsOk(c, s) && DeadOk(c, s)
  }

  // ---------------------------------------------------------------- every step keeps the invariant

  /** The instances went on without taking back an output or a decision. */
  ghost predicate InstancesGrew(c: Config, s: System, s': System)
    requires WellShaped(c, s) && WellShaped(c, s')
  {
    forall p {:trigger Outputs(c, s', p)} {:trigger Decisions(c, s', p)} :: p in c.honest ==>
      Later(Outputs(c, s, p), Outputs(c, s', p)) && Later(Decisions(c, s, p), Decisions(c, s', p))
  }

  /** An instance moved, the nodes did not. */
  lemma InstanceStep(c: Config, g: Setting, s: System, s': System)
    requires Inv(c, g, s) && s'.nodes == s.nodes && WellShaped(c, s') && InstancesGrew(c, s, s')
    requires forall j: nat {:trigger RbcOk(c, g, j, s'.rbc[j])} :: j < c.n ==> RbcOk(c, g, j, s'.rbc[j])
    requires forall j: nat {:trigger AbaOk(c, g, j, s'.aba[j])} :: j < c.n ==> AbaOk(c, g, j, s'.aba[j])
    requires InputsOk(c, s') && DeadOk(c, s')
    ensures Inv(c, g, s')
  {
    hide RbcOk, AbaOk, NodeInv;
    forall p | p in c.honest ensures NodeOk(c, s', p) {
      assert NodeOk(c, s, p);
      NodeInvGrows(c.n, c.f, Outputs(c, s, p), Decisions(c, s, p), Outputs(c, s', p), Decisions(c, s', p), s.nodes[p]);
    }
  }

  lemma RbcMoves(c: Config, b: Rbc.Params, s: RbcRuns.System, st: RbcRuns.Step, s': RbcRuns.System)
    requires RbcRuns.Fits(c, b) && RbcRuns.Inv(c, b, s)
    requires RbcRuns.Enabled(c, b, s, st) && s' == RbcRuns.Apply(c, b, s, st)
    ensures RbcRuns.Inv(c, b, s')
    ensures forall p :: p in c.honest && s.nodes[p].outcome != Rbc.Running ==> s'.nodes[p].outcome == s.nodes[p].outcome
  {
    hide RbcRuns.NodeInv, RbcRuns.EchoesOk, RbcRuns.ReadiesOk, RbcRuns.LeaderOk, RbcRuns.DeliveriesOk;
    assert RbcRuns.Next(c, b, s, s');
    RbcRuns.NextInv(c, b, s, s');
    forall p | p in c.honest && s.nodes[p].outcome != Rbc.Running ensures s'.nodes[p].outcome == s.nodes[p].outcome {
      RbcTheorems.OutcomeStep(c, b, s, s', p);
    }
  }

  lemma DecidedStays(c: Config, coin: int -> AbaRuns.Bit, s: AbaRuns.System, st: AbaRuns.Step, p: nat)
    requires AbaRuns.Enabled(c, s, st) && p in s.nodes && st.p in s.nodes
    ensures s.nodes[p].decided.Some? ==> AbaRuns.Apply(c, coin, s, st).nodes[p].decided == s.nodes[p].decided
  {
    hide AbaRuns.StepEffect, AbaRuns.Enabled;
    EffectKeepsDecided(c, coin, s, st);
  }

  lemma EffectKeepsDecided(c: Config, coin: int -> AbaRuns.Bit, s: AbaRuns.System, st: AbaRuns.Step)
    requires AbaRuns.Enabled(c, s, st) && st.p in s.nodes
    ensures s.nodes[st.p].decided.Some? ==>
              AbaRuns.StepEffect(c, coin, s, st).node.decided == s.nodes[st.p].decided
  {
    hide AbaRuns.MayHaveSent, Aba.AuxOutcome, Aba.ConfOutcome, Aba.OnMessage, Aba.Tuple, Aba.OnCoin, Aba.Bin;
    match st
    case Deliver(p, q, m) => MessageKeepsDecided(c.f, s.nodes[p], q, m);
    case Coin(p) =>
      if s.nodes[p].decided.Some? { CoinKeepsDecided(s.nodes[p], coin(s.nodes[p].r)); }
    case _ =>
  }

  lemma CoinKeepsDecided(node: Aba.NodeState, coin: AbaRuns.Bit)
    requires node.phase == Aba.AwaitCoin && node.decided.Some?
    ensures Aba.OnCoin(node, coin).node.decided == node.decided
  {
  }

  lemma MessageKeepsDecided(f: nat, node: Aba.NodeState, q: nat, m: Aba.Msg)
    ensures Aba.OnMessage(f, node, q, m).node.decided == node.decided
  {
    hide Aba.EstVotes, Aba.AuxVotes, Aba.ConfVotes, Aba.IsBit, Aba.IsConfValue, Aba.Bin;
  }

  lemma AbaMoves(c: Config, coin: int -> AbaRuns.Bit, s: AbaRuns.System, st: AbaRuns.Step, s': AbaRuns.System)
    requires c.Valid() && AbaRuns.Inv(c, coin, s)
    requires AbaRuns.Enabled(c, s, st) && s' == AbaRuns.Apply(c, coin, s, st)
    ensures AbaRuns.Inv(c, coin, s')
    ensures forall p :: p in c.honest && s.nodes[p].decided.Some? ==> s'.nodes[p].decided == s.nodes[p].decided
    ensures s'.inputs == if st.Input? then s.inputs[st.p := st.v] else s.inputs
  {
    hide AbaRuns.NodeInv, AbaRuns.EstBacked, AbaRuns.ConfOnce, AbaRuns.FinishedInv, AbaRuns.EnteredInv,
         AbaRuns.DecisionsInv, AbaRuns.InputsInv, AbaRuns.StepEffect;
    AbaRuns.StepInv(c, coin, s, st);
    forall p | p in c.honest && s.nodes[p].decided.Some? ensures s'.nodes[p].decided == s.nodes[p].decided {
      DecidedStays(c, coin, s, st, p);
    }
  }

  lemma DeadKept(c: Config, s: System, j: nat, x: RbcRuns.System, s': System)
    requires WellShaped(c, s) && WellShaped(c, s') && DeadOk(c, s) && j < c.n && s' == s.(rbc := s.rbc[j := x])
    requires forall p :: p in c.honest && s.rbc[j].nodes[p].outcome != Rbc.Running ==>
               x.nodes[p].outcome == s.rbc[j].nodes[p].outcome
    ensures DeadOk(c, s')
  {
  }

  lemma RbcStepKeeps(c: Config, g: Setting, s: System, j: nat, x: RbcRuns.System, s': System)
    requires Inv(c, g, s) && j < c.n && s' == s.(rbc := s.rbc[j := x])
    requires RbcOk(c, g, j, x) && x.nodes.Keys == c.honest
    requires forall p :: p in c.honest && s.rbc[j].nodes[p].outcome != Rbc.Running ==>
               x.nodes[p].outcome == s.rbc[j].nodes[p].outcome
    ensures Inv(c, g, s')
  {
    hide RbcOk, AbaOk, NodeOk, DeadOk, InstancesGrew, InputsOk;
    DeadKept(c, s, j, x, s');
    RbcGrew(c, s, j, x, s');
    InstanceStep(c, g, s, s');
  }

  lemma RbcGrew(c: Config, s: System, j: nat, x: RbcRuns.System, s': System)
    requires WellShaped(c, s) && WellShaped(c, s') && j < c.n && s' == s.(rbc := s.rbc[j := x])
    requires forall p :: p in c.honest && s.rbc[j].nodes[p].outcome != Rbc.Running ==>
               x.nodes[p].outcome == s.rbc[j].nodes[p].outcome
    ensures InstancesGrew(c, s, s') && (InputsOk(c, s) ==> InputsOk(c, s'))
  {
    forall p | p in c.honest
      ensures Later(Outputs(c, s, p), Outputs(c, s', p)) && Later(Decisions(c, s, p), Decisions(c, s', p))
    {
      assert forall i :: 0 <= i < c.n && i != j ==> s'.rbc[i] == s.rbc[i];
    }
  }

  lemma AbaInputsKept(c: Config, s: System, j: nat, st: AbaRuns.Step, x: AbaRuns.System, s': System)
    requires WellShaped(c, s) && InputsOk(c, s) && j < c.n && s' == s.(aba := s.aba[j := x]) && WellShaped(c, s')
    requires x.inputs == if st.Input? then s.aba[j].inputs[st.p := st.v] else s.aba[j].inputs
    requires st.Input? ==> st.p in c.honest && Called(s.nodes[st.p], j, st.v)
    ensures InputsOk(c, s')
  {
  }

  lemma AbaStepKeeps(c: Config, g: Setting, s: System, j: nat, x: AbaRuns.System, s': System)
    requires Inv(c, g, s) && j < c.n && s' == s.(aba := s.aba[j := x])
    requires AbaOk(c, g, j, x) && WellShaped(c, s') && InputsOk(c, s')
    requires forall p :: p in c.honest && s.aba[j].nodes[p].decided.Some? ==>
               x.nodes[p].decided == s.aba[j].nodes[p].decided
    ensures Inv(c, g, s')
  {
    hide RbcOk, AbaOk, NodeOk, InputsOk, DeadOk;
    DeadSame(c, s, s');
    InstanceStep(c, g, s, s');
  }

  lemma DeadSame(c: Config, s: System, s': System)
    requires WellShaped(c, s) && WellShaped(c, s') && DeadOk(c, s) && s'.rbc == s.rbc && s'.nodes == s.nodes
    ensures DeadOk(c, s')
  {
  }

  /** The greenlets that have died at `p`. */
  ghost predicate DeadAreRaised(c: Config, s: System, p: nat, node: NodeState)
    requires WellShaped(c, s) && p in c.honest
  {
    |node.rbcDead| == c.n && forall j :: 0 <= j < c.n && node.rbcDead[j] ==> s.rbc[j].nodes[p].outcome == Rbc.Raised
  }

  /** Node `p` moved, its instances did not. */
  lemma NodeStep(c: Config, g: Setting, s: System, p: nat, node: NodeState, s': System)
    requires Inv(c, g, s) && p in c.honest && s' == s.(nodes := s.nodes[p := node])
    requires NodeInv(c.n, c.f, Outputs(c, s, p), Decisions(c, s, p), node)
    requires KeepsCalls(s.nodes[p], node) && DeadAreRaised(c, s, p, node)
    ensures Inv(c, g, s')
  {
    hide RbcOk, AbaOk, InputsOk, NodeInv;
    SizedNode(c, s, p, node);
    forall q | q in c.honest ensures NodeOk(c, s', q) {
      assert NodeOk(c, s, q);
      assert Outputs(c, s', q) == Outputs(c, s, q) && Decisions(c, s', q) == Decisions(c, s, q);
    }
    CallsKept(c, s, p, node, s');
  }

  lemma SizedNode(c: Config, s: System, p: nat, node: NodeState)
    requires WellShaped(c, s) && p in c.honest && NodeInv(c.n, c.f, Outputs(c, s, p), Decisions(c, s, p), node)
    ensures Sized(c.n, node)
  {
  }

  lemma CallsKept(c: Config, s: System, p: nat, node: NodeState, s': System)
    requires WellShaped(c, s) && WellShaped(c, s') && InputsOk(c, s) && p in c.honest
    requires s' == s.(nodes := s.nodes[p := node]) && KeepsCalls(s.nodes[p], node)
    ensures InputsOk(c, s')
  {
  }

  /** Decisions are bits. */
  lemma DecisionIsBit(c: Config, coin: int -> AbaRuns.Bit, s: AbaRuns.System, p: nat)
    requires AbaRuns.Inv(c, coin, s) && p in c.honest && s.nodes[p].decided.Some?
    ensures s.nodes[p].decided.value == 0 || s.nodes[p].decided.value == 1
  {
    assert AbaRuns.HasDecided(s, p, s.nodes[p].decided.value);
    var r :| AbaRuns.Decided(s, p, r, s.nodes[p].decided.value);
  }

  lemma TakeRbcKeeps(c: Config, g: Setting, s: System, p: nat, j: nat, s': System)
    requires Inv(c, g, s) && p in c.honest && j < c.n && s.nodes[p].outcome == Waiting && Outputs(c, s, p)[j].Some?
    requires s' == s.(nodes := s.nodes[p := OnRbc(s.nodes[p], j, Outputs(c, s, p)[j].value)])
    ensures Inv(c, g, s')
  {
    hide RbcOk, AbaOk;
    var v := Outputs(c, s, p)[j].value;
    assert NodeOk(c, s, p);
    RbcKeeps(c.n, c.f, Outputs(c, s, p), Decisions(c, s, p), s.nodes[p], j, v);
    NodeStep(c, g, s, p, OnRbc(s.nodes[p], j, v), s');
  }

  lemma TakeAbaKeeps(c: Config, g: Setting, s: System, p: nat, j: nat, s': System)
    requires Inv(c, g, s) && p in c.honest && j < c.n && s.nodes[p].outcome == Waiting
    requires !s.nodes[p].abaDone[j] && Decisions(c, s, p)[j].Some? && 0 <= Decisions(c, s, p)[j].value
    requires s' == s.(nodes := s.nodes[p := OnAba(c.n, c.f, s.nodes[p], j, Decisions(c, s, p)[j].value)])
    ensures Inv(c, g, s')
  {
    hide RbcOk, AbaOk;
    var v := Decisions(c, s, p)[j].value;
    assert NodeOk(c, s, p);
    AbaKeeps(c.n, c.f, Outputs(c, s, p), Decisions(c, s, p), s.nodes[p], j, v);
    NodeStep(c, g, s, p, OnAba(c.n, c.f, s.nodes[p], j, v), s');
  }

  lemma TakeRaiseKeeps(c: Config, g: Setting, s: System, p: nat, j: nat, s': System)
    requires Inv(c, g, s) && p in c.honest && j < c.n && s.nodes[p].outcome == Waiting
    requires s.rbc[j].nodes[p].outcome == Rbc.Raised && s' == s.(nodes := s.nodes[p := OnRbcRaised(s.nodes[p], j)])
    ensures Inv(c, g, s')
  {
    hide RbcOk, AbaOk;
    assert NodeOk(c, s, p);
    RbcRaisedKeeps(c.n, c.f, Outputs(c, s, p), Decisions(c, s, p), s.nodes[p], j);
    NodeStep(c, g, s, p, OnRbcRaised(s.nodes[p], j), s');
  }

  lemma ConcludeKeeps(c: Config, g: Setting, s: System, p: nat, s': System)
    requires Inv(c, g, s) && p in c.honest && s.nodes[p].outcome == Waiting && CanConclude(c.n, c.f, s.nodes[p])
    requires s' == s.(nodes := s.nodes[p := OnAllDone(c.n, c.f, s.nodes[p])])
    ensures Inv(c, g, s')
  {
    hide RbcOk, AbaOk;
    assert NodeOk(c, s, p);
    AllDoneKeeps(c.n, c.f, Outputs(c, s, p), Decisions(c, s, p), s.nodes[p]);
    if Sum(s.nodes[p].abaValues) >= c.n - c.f { JoinIs(c.n, s.nodes[p], 0); }
    NodeStep(c, g, s, p, OnAllDone(c.n, c.f, s.nodes[p]), s');
  }

  lemma InstancesStart(c: Config, g: Setting, s: System, j: nat)
    requires Fits(c, g) && Init(c, s) && j < c.n
    ensures RbcOk(c, g, j, s.rbc[j]) && AbaOk(c, g, j, s.aba[j])
  {
    assert RbcRuns.Fits(c, Broadcast(c, g, j));
    RbcRuns.InitInv(c, Broadcast(c, g, j), s.rbc[j]);
    AbaRuns.InitInv(c, g.coin(j), s.aba[j]);
  }

  lemma InitInv(c: Config, g: Setting, s: System)
    requires Fits(c, g) && Init(c, s)
    ensures Inv(c, g, s)
  {
    hide RbcOk, AbaOk, RbcRuns.Fits;
    forall j: nat | j < c.n ensures RbcOk(c, g, j, s.rbc[j]) && AbaOk(c, g, j, s.aba[j]) {
      InstancesStart(c, g, s, j);
    }
    forall p | p in c.honest ensures NodeOk(c, s, p) {
      FreshInv(c.n, c.f, Outputs(c, s, p), Decisions(c, s, p));
    }
  }

  lemma RbcCase(c: Config, g: Setting, s: System, j: nat, st: RbcRuns.Step)
    requires Fits(c, g) && Inv(c, g, s) && Enabled(c, g, s, RbcStep(j, st))
    ensures Inv(c, g, Apply(c, g, s, RbcStep(j, st)))
  {
    hide NodeOk, RbcRuns.Enabled, RbcRuns.Apply, RbcRuns.NodeInv, RbcRuns.Fits;
    var s' := Apply(c, g, s, RbcStep(j, st));
    assert RbcOk(c, g, j, s.rbc[j]);
    RbcMoves(c, Broadcast(c, g, j), s.rbc[j], st, s'.rbc[j]);
    RbcStepKeeps(c, g, s, j, s'.rbc[j], s');
  }

  lemma AbaCase(c: Config, g: Setting, s: System, j: nat, st: AbaRuns.Step)
    requires Fits(c, g) && Inv(c, g, s) && Enabled(c, g, s, AbaStep(j, st))
    ensures Inv(c, g, Apply(c, g, s, AbaStep(j, st)))
  {
    hide NodeOk, RbcOk, AbaRuns.Apply, AbaRuns.NodeInv, AbaRuns.EstBacked, AbaRuns.ConfOnce, AbaRuns.FinishedInv,
         AbaRuns.EnteredInv, AbaRuns.DecisionsInv, AbaRuns.InputsInv;
    var s' := Apply(c, g, s, AbaStep(j, st));
    assert AbaOk(c, g, j, s.aba[j]);
    AbaMoves(c, g.coin(j), s.aba[j], st, s'.aba[j]);
    AbaInputsKept(c, s, j, st, s'.aba[j], s');
    AbaStepKeeps(c, g, s, j, s'.aba[j], s');
  }

  lemma TakeAbaCase(c: Config, g: Setting, s: System, p: nat, j: nat)
    requires Fits(c, g) && Inv(c, g, s) && Enabled(c, g, s, TakeAba(p, j))
    ensures Inv(c, g, Apply(c, g, s, TakeAba(p, j)))
  {
    hide NodeOk, RbcOk, DeadOk, InputsOk, OnAba, AbaRuns.Inv;
    assert AbaOk(c, g, j, s.aba[j]);
    DecisionIsBit(c, g.coin(j), s.aba[j], p);
    TakeAbaKeeps(c, g, s, p, j, Apply(c, g, s, TakeAba(p, j)));
  }

  lemma StepInv(c: Config, g: Setting, s: System, step: Step)
    requires Fits(c, g) && Inv(c, g, s) && Enabled(c, g, s, step)
    ensures Inv(c, g, Apply(c, g, s, step))
  {
    hide NodeOk, RbcOk, AbaOk, RbcRuns.Enabled, RbcRuns.Apply, AbaRuns.Apply, AbaRuns.Enabled;
    match step
    case RbcStep(j, st) => RbcCase(c, g, s, j, st);
    case AbaStep(j, st) => AbaCase(c, g, s, j, st);
    case TakeRbc(p, j) => TakeRbcKeeps(c, g, s, p, j, Apply(c, g, s, step));
    case TakeRaise(p, j) => TakeRaiseKeeps(c, g, s, p, j, Apply(c, g, s, step));
    case TakeAba(p, j) => TakeAbaCase(c, g, s, p, j);
    case Conclude(p) => ConcludeKeeps(c, g, s, p, Apply(c, g, s, step));
  }

  lemma NextInv(c: Config, g: Setting, s: System, s': System)
    requires Fits(c, g) && Inv(c, g, s) && Next(c, g, s, s')
    ensures Inv(c, g, s')
  {
    hide Inv, Enabled, Apply, WellShaped;
    var step :| Enabled(c, g, s, step) && s' == Apply(c, g, s, step);
    StepInv(c, g, s, step);
  }

  lemma {:induction false} RunInv(c: Config, g: Setting, run: seq<System>, i: nat)
    requires Fits(c, g) && IsRun(c, g, run) && i < |run|
    ensures Inv(c, g, run[i])
  {
    hide Inv, Init;
    if i == 0 {
      InitInv(c, g, run[0]);
    } else {
      RunInv(c, g, run, i - 1);
      NextInv(c, g, run[i - 1], run[i]);
    }
  }
}
