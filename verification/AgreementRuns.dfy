// Runs of N binary-agreement nodes over authenticated channels, at most f of them Byzantine:
// what every step keeps. AgreementTheorems draws agreement and validity from it.
module AgreementRuns {
  import opened Options
  import opened Quorums
  import opened BinaryAgreement

  type Bit = v: int | IsBit(v)

  /** `sent` holds every broadcast of an honest node; the last four fields only record history:
      inputs, estimates with which rounds were entered, values with which CONF waits ended, decisions. */
  datatype System = System(
    nodes: map<nat, NodeState>,
    sent: set<(nat, Msg)>,
    inputs: map<nat, int>,
    entered: set<(nat, int, int)>,
    finished: set<(nat, int, set<int>)>,
    decisions: set<(nat, int, int)>)

  predicate Sent(s: System, p: nat, m: Msg) { (p, m) in s.sent }
  predicate Entered(s: System, p: nat, r: int, e: int) { (p, r, e) in s.entered }
  predicate Finished(s: System, p: nat, r: int, values: set<int>) { (p, r, values) in s.finished }
  predicate Decided(s: System, p: nat, r: int, v: int) { (p, r, v) in s.decisions }

  datatype Step =
    | Deliver(p: nat, sender: nat, m: Msg)
    | Input(p: nat, v: int)
    | BinValue(p: nat, w: int)
    | AuxQuorum(p: nat)
    | ConfQuorum(p: nat)
    | Coin(p: nat)

  ghost predicate Init(c: Config, s: System) {
    && s.nodes.Keys == c.honest
    && (forall p :: p in c.honest ==> s.nodes[p] == FRESH_NODE)
    && s.sent == {} && s.inputs == map[] && s.entered == {} && s.finished == {} && s.decisions == {}
  }

  predicate MayHaveSent(c: Config, s: System, q: nat, m: Msg) {
    q < c.n && (q in c.honest ==> Sent(s, q, m))
  }

  /** A Byzantine sender may deliver anything at any time; an honest one only what it broadcast. */
  predicate Enabled(c: Config, s: System, step: Step) {
    && step.p in c.honest && step.p in s.nodes
    && var node := s.nodes[step.p];
    match step
    case Deliver(p, q, m) => MayHaveSent(c, s, q, m)
    case Input(p, v) => node.phase == AwaitInput
    case BinValue(p, w) => node.phase == AwaitBinValue && w in Bin(node, node.r)
    case AuxQuorum(p) => node.phase == AwaitAux && AuxOutcome(c.n, c.f, node).Some?
    case ConfQuorum(p) => node.phase == AwaitConf && ConfOutcome(c.n, c.f, node).Some?
    case Coin(p) => node.phase == AwaitCoin
  }

  function StepEffect(c: Config, coin: int -> Bit, s: System, step: Step): Effect
    requires Enabled(c, s, step)
  {
    var node := s.nodes[step.p];
    match step
    case Deliver(p, q, m) => OnMessage(c.f, node, q, m)
    case Input(p, v) => OnInput(node, v)
    case BinValue(p, w) => OnBinValue(node, w)
    case AuxQuorum(p) => OnAuxQuorum(c.n, c.f, node)
    case ConfQuorum(p) => OnConfQuorum(c.n, c.f, node)
    case Coin(p) => OnCoin(node, coin(node.r))
  }

  /** The system after node `step.p` did `e`. */
  function After(s: System, step: Step, e: Effect): System
    requires step.p in s.nodes
  {
    var p, before := step.p, s.nodes[step.p];
    System(
      s.nodes[p := e.node],
      s.sent + (set m | m in e.sent :: (p, m)),
      if step.Input? then s.inputs[p := step.v] else s.inputs,
      if (step.Input? || step.Coin?) && e.node.phase == AwaitBinValue
        then s.entered + {(p, e.node.r, e.node.est)} else s.entered,
      if before.phase != AwaitCoin && e.node.phase == AwaitCoin
        then s.finished + {(p, e.node.r, e.node.values)} else s.finished,
      if e.decision.Some? then s.decisions + {(p, before.r, e.decision.value)} else s.decisions)
  }

  function Apply(c: Config, coin: int -> Bit, s: System, step: Step): System
    requires Enabled(c, s, step)
  {
    After(s, step, StepEffect(c, coin, s, step))
  }

  ghost predicate Next(c: Config, coin: int -> Bit, s: System, s': System) {
    exists step: Step :: Enabled(c, s, step) && s' == Apply(c, coin, s, step)
  }

  ghost predicate IsRun(c: Config, coin: int -> Bit, run: seq<System>) {
    && run != []
    && Init(c, run[0])
    && forall i :: 0 <= i < |run| - 1 ==> Next(c, coin, run[i], run[i + 1])
  }

  // ---------------------------------------------------------------- the invariant

  /** Received estimates are what honest nodes sent. */
  ghost predicate EstReceived(c: Config, s: System, node: NodeState) {
    forall r, v, q :: q in EstVotes(node, r, v) ==> MayHaveSent(c, s, q, Est(r, v))
  }

  ghost predicate ConfReceived(c: Config, s: System, node: NodeState) {
    forall r, vs, q :: q in ConfVotes(node, r, vs) ==> MayHaveSent(c, s, q, Conf(r, vs))
  }

  /** Accepted values are bits with 2f + 1 votes. */
  ghost predicate BinAccepted(f: nat, node: NodeState) {
    forall r, v {:trigger v in Bin(node, r)} {:trigger EstVotes(node, r, v)} ::
      v in Bin(node, r) ==> IsBit(v) && 2 * f + 1 <= |EstVotes(node, r, v)|
  }

  /** The node is past the AUX wait of round `r`. */
  predicate PastAux(node: NodeState, r: int) {
    r < node.r || (r == node.r && (node.phase == AwaitConf || node.phase == AwaitCoin || node.phase == Stopped))
  }

  ghost predicate ConfSentPast(node: NodeState) {
    forall r, vs :: (r, vs) in node.confSent ==> PastAux(node, r)
  }

  ghost predicate NodeInv(c: Config, s: System, node: NodeState) {
    && EstReceived(c, s, node)
    && ConfReceived(c, s, node)
    && BinAccepted(c.f, node)
    && ConfSentPast(node)
    && 0 <= node.r
    && (node.phase == AwaitInput ==> node.r == 0 && node.decided == None)
  }

  ghost predicate EnteredWith(c: Config, s: System, r: int, v: int) {
    exists q :: q in c.honest && Entered(s, q, r, v)
  }

  /** Every estimate an honest node broadcasts or relays was the estimate of an honest node. */
  ghost predicate EstBacked(c: Config, s: System) {
    forall p, r, v {:trigger Sent(s, p, Est(r, v))} ::
      p in c.honest && Sent(s, p, Est(r, v)) ==> EnteredWith(c, s, r, v)
  }

  /** An honest node broadcasts one CONF per round. */
  ghost predicate ConfOnce(c: Config, s: System)
    requires s.nodes.Keys == c.honest
  {
    && (forall p, r, vs {:trigger Sent(s, p, Conf(r, vs))} ::
          p in c.honest && Sent(s, p, Conf(r, vs)) ==> PastAux(s.nodes[p], r))
    && (forall p, r, vs, vs' {:trigger Sent(s, p, Conf(r, vs)), Sent(s, p, Conf(r, vs'))} ::
          p in c.honest && Sent(s, p, Conf(r, vs)) && Sent(s, p, Conf(r, vs')) ==> vs == vs')
  }

  /** The nodes that may be counted behind CONF `vs`: the Byzantine ones and its honest senders. */
  ghost function ConfBackers(c: Config, s: System, r: int, vs: seq<int>): set<nat> {
    set q | q in Ids(c.n) && MayHaveSent(c, s, q, Conf(r, vs))
  }

  /** A CONF wait ended with one value that a quorum confirmed, or with two accepted values. */
  ghost predicate FinishedSoundly(c: Config, s: System, p: nat, r: int, values: set<int>)
    requires s.nodes.Keys == c.honest
  {
    && p in c.honest
    && r <= s.nodes[p].r
    && (|| (values == {0} && 0 in Bin(s.nodes[p], r) && c.n - c.f <= |ConfBackers(c, s, r, [0])|)
        || (values == {1} && 1 in Bin(s.nodes[p], r) && c.n - c.f <= |ConfBackers(c, s, r, [1])|)
        || (values == {0, 1} && 0 in Bin(s.nodes[p], r) && 1 in Bin(s.nodes[p], r)))
  }

  ghost predicate FinishedInv(c: Config, s: System)
    requires s.nodes.Keys == c.honest
  {
    && (forall p, r, values {:trigger Finished(s, p, r, values)} ::
          Finished(s, p, r, values) ==> FinishedSoundly(c, s, p, r, values))
    && (forall p :: p in c.honest && s.nodes[p].phase == AwaitCoin ==>
          Finished(s, p, s.nodes[p].r, s.nodes[p].values))
  }

  /** The estimate that `set_new_estimate` makes of `values` and the coin. */
  function NextEst(values: set<int>, coin: int): int {
    if values == {0} then 0 else if values == {1} then 1 else coin
  }

  ghost predicate FinishedTo(coin: int -> Bit, s: System, p: nat, r: int, e: int) {
    exists values :: Finished(s, p, r, values) && e == NextEst(values, coin(r))
  }

  ghost predicate EnteredInv(c: Config, coin: int -> Bit, s: System) {
    forall p, r, e {:trigger Entered(s, p, r, e)} :: Entered(s, p, r, e) ==>
      && p in c.honest && 0 <= r
      && (r == 0 ==> p in s.inputs && s.inputs[p] == e)
      && (r > 0 ==> FinishedTo(coin, s, p, r - 1, e))
  }

  ghost predicate HasDecided(s: System, p: nat, v: int) {
    exists r :: Decided(s, p, r, v)
  }

  ghost predicate DecisionsInv(c: Config, coin: int -> Bit, s: System)
    requires s.nodes.Keys == c.honest
  {
    && (forall p :: p in c.honest && s.nodes[p].decided.Some? ==> HasDecided(s, p, s.nodes[p].decided.value))
    && (forall p, r, v {:trigger Decided(s, p, r, v)} :: Decided(s, p, r, v) ==>
          Finished(s, p, r, {v}) && v == coin(r) && p in c.honest && s.nodes[p].decided == Some(v))
    && (forall p, r, v, r', v' {:trigger Decided(s, p, r, v), Decided(s, p, r', v')} ::
          Decided(s, p, r, v) && Decided(s, p, r', v') ==> r == r' && v == v')
  }

  ghost predicate InputsInv(c: Config, s: System)
    requires s.nodes.Keys == c.honest
  {
    && (forall p :: p in s.inputs ==> p in c.honest)
    && (forall p :: p in c.honest && s.nodes[p].phase == AwaitInput ==> p !in s.inputs)
  }

  ghost predicate Inv(c: Config, coin: int -> Bit, s: System) {
    && s.nodes.Keys == c.honest
    && (forall p :: p in c.honest ==> NodeInv(c, s, s.nodes[p]))
    && InputsInv(c, s)
    && EstBacked(c, s)
    && ConfOnce(c, s)
    && FinishedInv(c, s)
    && EnteredInv(c, coin, s)
    && DecisionsInv(c, coin, s)
  }

  // ---------------------------------------------------------------- what a handler may do to a record

  ghost predicate Grew(before: NodeState, after: NodeState) {
    && (forall r, v :: v in Bin(before, r) ==> v in Bin(after, r))
    && (forall r :: PastAux(before, r) ==> PastAux(after, r))
    && before.r <= after.r
  }

  /** The main greenlet did not move. */
  predicate SameLoop(before: NodeState, after: NodeState) {
    && after.phase == before.phase && after.r == before.r && after.values == before.values
    && after.decided == before.decided && after.confSent == before.confSent
  }

  ghost predicate VotesFrom(before: NodeState, q: nat, m: Msg, after: NodeState) {
    && (forall r, v, x :: x in EstVotes(after, r, v) ==> x in EstVotes(before, r, v) || (x == q && m == Est(r, v)))
    && (forall r, vs, x :: x in ConfVotes(after, r, vs) ==>
          x in ConfVotes(before, r, vs) || (x == q && m == Conf(r, vs)))
  }

  /** A message adds at most its own vote, and is relayed only with f + 1 votes. */
  ghost predicate MessageEffect(f: nat, before: NodeState, q: nat, m: Msg, e: Effect) {
    && SameLoop(before, e.node) && Grew(before, e.node) && e.decision == None
    && VotesFrom(before, q, m, e.node)
    && BinAccepted(f, e.node)
    && (e.sent == [] || (m.Est? && e.sent == [m] && f + 1 <= |EstVotes(e.node, m.r, m.v)|))
  }

  /** The record after one more EST vote: one more voter, and perhaps one more accepted value. */
  ghost predicate OneMoreEst(f: nat, s: NodeState, q: nat, r: int, v: int, after: NodeState) {
    && (forall k, w :: EstVotes(after, k, w) == EstVotes(s, k, w) ||
                       (k == r && w == v && EstVotes(after, k, w) == EstVotes(s, k, w) + {q}))
    && (forall k :: Bin(after, k) == Bin(s, k) ||
                    (k == r && IsBit(v) && Bin(after, k) == Bin(s, k) + {v} && 2 * f + 1 <= |EstVotes(after, r, v)|))
    && (forall k, vs :: ConfVotes(after, k, vs) == ConfVotes(s, k, vs))
  }

  lemma VoteAdded(f: nat, s: NodeState, q: nat, r: int, v: int, after: NodeState)
    requires after.confValues == s.confValues
    requires after.estValues == AddSender(s.estValues, (r, v), q)
    requires || after.binValues == s.binValues
             || (IsBit(v) && 2 * f + 1 <= |EstVotes(after, r, v)|
                 && after.binValues == s.binValues[r := Bin(s, r) + {v}])
    ensures OneMoreEst(f, s, q, r, v, after)
  {
    assert forall k, vs :: ConfVotes(after, k, vs) == ConfVotes(s, k, vs);
    assert forall k, w :: EstVotes(after, k, w)
                          == if k == r && w == v then EstVotes(s, k, w) + {q} else EstVotes(s, k, w);
    hide EstVotes, ConfVotes, IsBit;
  }

  lemma EstEffect(f: nat, s: NodeState, q: nat, r: int, v: int, after: NodeState)
    requires after == OnEst(f, s, q, r, v).node
    ensures OneMoreEst(f, s, q, r, v, after)
  {
    if s.listening && IsBit(v) && q !in EstVotes(s, r, v) {
      VoteAdded(f, s, q, r, v, after);
    }
  }

  lemma OneMoreKeepsBin(f: nat, s: NodeState, q: nat, r: int, v: int, after: NodeState)
    requires BinAccepted(f, s) && OneMoreEst(f, s, q, r, v, after)
    ensures BinAccepted(f, after)
  {
    forall k, w | w in Bin(after, k) ensures IsBit(w) && 2 * f + 1 <= |EstVotes(after, k, w)| {
      SubsetSize(EstVotes(s, k, w), EstVotes(after, k, w));
    }
  }

  lemma EstMessage(f: nat, s: NodeState, q: nat, r: int, v: int, e: Effect)
    requires BinAccepted(f, s) && e == OnEst(f, s, q, r, v)
    ensures MessageEffect(f, s, q, Est(r, v), e)
  {
    EstEffect(f, s, q, r, v, e.node);
    OneMoreKeepsBin(f, s, q, r, v, e.node);
    assert VotesFrom(s, q, Est(r, v), e.node);
  }

  lemma AuxMessage(f: nat, s: NodeState, q: nat, r: int, v: int, e: Effect)
    requires BinAccepted(f, s) && e == OnAux(s, q, r, v)
    ensures MessageEffect(f, s, q, Aux(r, v), e)
  {
    var after := e.node;
    assert forall k, w :: EstVotes(after, k, w) == EstVotes(s, k, w);
    assert forall k, vs :: ConfVotes(after, k, vs) == ConfVotes(s, k, vs);
    assert forall k :: Bin(after, k) == Bin(s, k);
  }

  /** One more CONF voter at most. */
  lemma ConfAdded(s: NodeState, q: nat, r: int, vs: seq<int>, k: int, ws: seq<int>)
    ensures ConfVotes(OnConf(s, q, r, vs).node, k, ws) == ConfVotes(s, k, ws)
            || (k == r && ws == vs && ConfVotes(OnConf(s, q, r, vs).node, k, ws) == ConfVotes(s, k, ws) + {q})
  {
    hide IsConfValue;
  }

  lemma ConfMessage(f: nat, s: NodeState, q: nat, r: int, vs: seq<int>, e: Effect)
    requires BinAccepted(f, s) && e == OnConf(s, q, r, vs)
    ensures MessageEffect(f, s, q, Conf(r, vs), e)
  {
    hide IsConfValue, ConfVotes;
    var after := e.node;
    assert forall k, w :: EstVotes(after, k, w) == EstVotes(s, k, w);
    assert forall k :: Bin(after, k) == Bin(s, k);
    forall k, ws, x | x in ConfVotes(after, k, ws)
      ensures x in ConfVotes(s, k, ws) || (x == q && Conf(r, vs) == Conf(k, ws))
    {
      ConfAdded(s, q, r, vs, k, ws);
    }
  }

  /** A step of the main greenlet receives nothing. */
  ghost predicate LoopEffect(before: NodeState, e: Effect) {
    && Grew(before, e.node)
    && (forall r, v :: EstVotes(e.node, r, v) == EstVotes(before, r, v))
    && (forall r, vs :: ConfVotes(e.node, r, vs) == ConfVotes(before, r, vs))
    && (forall r :: Bin(e.node, r) == Bin(before, r))
    && ConfSentPast(e.node)
    && 0 <= e.node.r
    && e.node.phase != AwaitInput
  }

  /** Nothing received, no round left behind, and only the current round's CONF may be new. */
  lemma LoopEffectOf(before: NodeState, e: Effect)
    requires ConfSentPast(before) && 0 <= before.r
    requires e.node.estValues == before.estValues && e.node.confValues == before.confValues
    requires e.node.binValues == before.binValues
    requires e.node.phase != AwaitInput && before.r <= e.node.r
    requires PastAux(before, before.r) ==> PastAux(e.node, before.r)
    requires forall r, vs :: (r, vs) in e.node.confSent ==>
               (r, vs) in before.confSent || (r == before.r && PastAux(e.node, r))
    ensures LoopEffect(before, e)
  {
    forall r, vs | (r, vs) in e.node.confSent ensures PastAux(e.node, r) {}
  }

  lemma InputLoop(node: NodeState, v: int, e: Effect)
    requires node.phase == AwaitInput && ConfSentPast(node) && 0 <= node.r && e == OnInput(node, v)
    requires node.r == 0
    ensures LoopEffect(node, e)
  {
    LoopEffectOf(node, e);
  }

  lemma BinValueLoop(node: NodeState, w: int, e: Effect)
    requires node.phase == AwaitBinValue && w in Bin(node, node.r) && ConfSentPast(node) && 0 <= node.r
    requires e == OnBinValue(node, w)
    ensures LoopEffect(node, e)
  {
    LoopEffectOf(node, e);
  }

  lemma AuxLoop(n: nat, f: nat, node: NodeState, e: Effect)
    requires node.phase == AwaitAux && AuxOutcome(n, f, node).Some? && ConfSentPast(node) && 0 <= node.r
    requires e == OnAuxQuorum(n, f, node)
    ensures LoopEffect(node, e)
  {
    LoopEffectOf(node, e);
  }

  lemma ConfLoop(n: nat, f: nat, node: NodeState, e: Effect)
    requires node.phase == AwaitConf && ConfOutcome(n, f, node).Some? && ConfSentPast(node) && 0 <= node.r
    requires e == OnConfQuorum(n, f, node)
    ensures LoopEffect(node, e)
  {
    LoopEffectOf(node, e);
  }

  lemma CoinLoop(node: NodeState, coin: Bit, e: Effect)
    requires node.phase == AwaitCoin && ConfSentPast(node) && 0 <= node.r && e == OnCoin(node, coin)
    ensures LoopEffect(node, e)
  {
    LoopEffectOf(node, e);
  }

  lemma MessageFacts(f: nat, s: NodeState, q: nat, m: Msg, e: Effect)
    requires BinAccepted(f, s) && e == OnMessage(f, s, q, m)
    ensures MessageEffect(f, s, q, m, e)
  {
    match m
    case Est(r, v) => EstMessage(f, s, q, r, v, e);
    case Aux(r, v) => AuxMessage(f, s, q, r, v, e);
    case Conf(r, vs) => ConfMessage(f, s, q, r, vs, e);
  }

  // ---------------------------------------------------------------- every step keeps the invariant

  /** Node `p` did `e`; nothing recorded is lost. */
  ghost predicate Moved(c: Config, s: System, p: nat, e: Effect, s': System) {
    && p in c.honest && s.nodes.Keys == c.honest
    && s'.nodes == s.nodes[p := e.node]
    && (forall q, m {:trigger Sent(s', q, m)} {:trigger Sent(s, q, m)} ::
          Sent(s', q, m) <==> Sent(s, q, m) || (q == p && m in e.sent))
    && s.entered <= s'.entered && s.finished <= s'.finished
    && (forall q :: q in s.inputs && q != p ==> q in s'.inputs && s'.inputs[q] == s.inputs[q])
    && Grew(s.nodes[p], e.node)
  }

  lemma AfterMoved(c: Config, s: System, step: Step, e: Effect, s': System)
    requires step.p in c.honest && s.nodes.Keys == c.honest
    requires Grew(s.nodes[step.p], e.node) && s' == After(s, step, e)
    ensures Moved(c, s, step.p, e, s')
  {
    assert forall q, m :: Sent(s', q, m) <==> Sent(s, q, m) || (q == step.p && m in e.sent);
  }

  lemma OthersKeepNodeInv(c: Config, s: System, p: nat, e: Effect, s': System)
    requires Moved(c, s, p, e, s')
    requires forall q :: q in c.honest ==> NodeInv(c, s, s.nodes[q])
    requires NodeInv(c, s', e.node)
    ensures forall q :: q in c.honest ==> NodeInv(c, s', s'.nodes[q])
  {
    forall q | q in c.honest && q != p ensures NodeInv(c, s', s'.nodes[q]) {
      assert NodeInv(c, s, s.nodes[q]);
    }
  }

  lemma EstBackedKept(c: Config, s: System, p: nat, e: Effect, s': System)
    requires Moved(c, s, p, e, s') && EstBacked(c, s)
    requires forall r, v :: Est(r, v) in e.sent ==> EnteredWith(c, s', r, v)
    ensures EstBacked(c, s')
  {
    forall q, r, v | q in c.honest && Sent(s', q, Est(r, v)) ensures EnteredWith(c, s', r, v) {
      if Sent(s, q, Est(r, v)) {
        var h :| h in c.honest && Entered(s, h, r, v);
        assert Entered(s', h, r, v);
      }
    }
  }

  lemma ConfOnceKept(c: Config, s: System, p: nat, e: Effect, s': System)
    requires Moved(c, s, p, e, s') && ConfOnce(c, s)
    requires forall r, vs :: Conf(r, vs) in e.sent ==>
               e.sent == [Conf(r, vs)] && !PastAux(s.nodes[p], r) && PastAux(e.node, r)
    ensures ConfOnce(c, s')
  {
    forall q, r, vs | q in c.honest && Sent(s', q, Conf(r, vs))
      ensures PastAux(s'.nodes[q], r)
      ensures Sent(s, q, Conf(r, vs)) || (q == p && e.sent == [Conf(r, vs)] && !PastAux(s.nodes[p], r))
    {
      assert q == p || s'.nodes[q] == s.nodes[q];
    }
  }

  lemma BackersGrow(c: Config, s: System, p: nat, e: Effect, s': System, r: int, vs: seq<int>)
    requires Moved(c, s, p, e, s')
    ensures |ConfBackers(c, s, r, vs)| <= |ConfBackers(c, s', r, vs)|
  {
    SubsetSize(ConfBackers(c, s, r, vs), ConfBackers(c, s', r, vs));
  }

  /** A finished CONF wait stays justified as the system moves on. */
  lemma FinishedStays(c: Config, s: System, p: nat, e: Effect, s': System, q: nat, r: int, values: set<int>)
    requires Moved(c, s, p, e, s') && FinishedSoundly(c, s, q, r, values)
    ensures FinishedSoundly(c, s', q, r, values)
  {
    BackersGrow(c, s, p, e, s', r, [0]);
    BackersGrow(c, s, p, e, s', r, [1]);
  }

  lemma FinishedKept(c: Config, s: System, p: nat, e: Effect, s': System)
    requires Moved(c, s, p, e, s') && FinishedInv(c, s)
    requires e.node.phase == AwaitCoin ==> Finished(s', p, e.node.r, e.node.values)
    requires forall q, r, values {:trigger Finished(s', q, r, values)} ::
               Finished(s', q, r, values) ==> Finished(s, q, r, values) || FinishedSoundly(c, s', q, r, values)
    ensures FinishedInv(c, s')
  {
    forall q, r, values | Finished(s', q, r, values) ensures FinishedSoundly(c, s', q, r, values) {
      if Finished(s, q, r, values) { FinishedStays(c, s, p, e, s', q, r, values); }
    }
    forall q | q in c.honest && s'.nodes[q].phase == AwaitCoin
      ensures Finished(s', q, s'.nodes[q].r, s'.nodes[q].values)
    {
      if q != p { assert Finished(s, q, s.nodes[q].r, s.nodes[q].values); }
    }
  }

  lemma EnteredKept(c: Config, coin: int -> Bit, s: System, p: nat, e: Effect, s': System)
    requires Moved(c, s, p, e, s') && EnteredInv(c, coin, s)
    requires p !in s.inputs || (p in s'.inputs && s'.inputs[p] == s.inputs[p])
    requires forall q, r, v {:trigger Entered(s', q, r, v)} :: Entered(s', q, r, v) ==>
               || Entered(s, q, r, v)
               || (q == p && r == 0 && p in s'.inputs && s'.inputs[p] == v)
               || (q == p && r > 0 && FinishedTo(coin, s, p, r - 1, v))
    ensures EnteredInv(c, coin, s')
  {
    forall q, r, v | Entered(s', q, r, v) && r > 0 ensures FinishedTo(coin, s', q, r - 1, v) {
      assert FinishedTo(coin, s, q, r - 1, v);
      var values :| Finished(s, q, r - 1, values) && v == NextEst(values, coin(r - 1));
      assert Finished(s', q, r - 1, values);
    }
  }

  lemma DecisionsKept(c: Config, coin: int -> Bit, s: System, p: nat, e: Effect, s': System)
    requires Moved(c, s, p, e, s') && DecisionsInv(c, coin, s)
    requires s.decisions <= s'.decisions
    requires s.nodes[p].decided == e.node.decided ||
             (s.nodes[p].decided == None && (e.node.decided.Some? ==> HasDecided(s', p, e.node.decided.value)))
    requires forall q, r, v {:trigger Decided(s', q, r, v)} :: Decided(s', q, r, v) ==>
               || Decided(s, q, r, v)
               || (q == p && r == s.nodes[p].r && v == coin(r) && s.nodes[p].decided == None &&
                   e.node.decided == Some(v) && Finished(s, p, r, {v}))
    ensures DecisionsInv(c, coin, s')
  {
    forall q | q in c.honest && s'.nodes[q].decided.Some? ensures HasDecided(s', q, s'.nodes[q].decided.value) {
      if q != p || s.nodes[p].decided == e.node.decided {
        assert HasDecided(s, q, s.nodes[q].decided.value);
        var r :| Decided(s, q, r, s.nodes[q].decided.value);
        assert Decided(s', q, r, s.nodes[q].decided.value);
      }
    }
    forall q, r, v | Decided(s', q, r, v)
      ensures Finished(s', q, r, {v}) && v == coin(r) && q in c.honest && s'.nodes[q].decided == Some(v)
    {
      assert Finished(s, q, r, {v});
    }
  }

  // ---------------------------------------------------------------- the six kinds of step

  /** A relay needs f + 1 votes, one of them from an honest node and so already backed. */
  lemma RelayBacked(c: Config, s: System, node: NodeState, q: nat, m: Msg, e: Effect)
    requires c.Valid() && EstBacked(c, s) && EstReceived(c, s, node) && MayHaveSent(c, s, q, m)
    requires MessageEffect(c.f, node, q, m, e) && e.sent != []
    ensures EnteredWith(c, s, m.r, m.v)
  {
    var votes := EstVotes(e.node, m.r, m.v);
    assert forall x :: x in votes ==> MayHaveSent(c, s, x, m);
    var h := HonestMember(c, votes);
    assert Sent(s, h, Est(m.r, m.v));
  }

  lemma DeliverNodeInv(c: Config, s: System, p: nat, q: nat, m: Msg, e: Effect, s': System)
    requires Moved(c, s, p, e, s') && MayHaveSent(c, s, q, m)
    requires MessageEffect(c.f, s.nodes[p], q, m, e)
    requires forall q :: q in c.honest ==> NodeInv(c, s, s.nodes[q])
    ensures forall q :: q in c.honest ==> NodeInv(c, s', s'.nodes[q])
  {
    var node := s.nodes[p];
    assert NodeInv(c, s, node);
    assert ConfSentPast(e.node) by {
      forall r, vs | (r, vs) in e.node.confSent ensures PastAux(e.node, r) { assert (r, vs) in node.confSent; }
    }
    OthersKeepNodeInv(c, s, p, e, s');
  }

  lemma RelayEntered(c: Config, s: System, p: nat, q: nat, m: Msg, e: Effect, s': System)
    requires c.Valid() && Moved(c, s, p, e, s') && MayHaveSent(c, s, q, m)
    requires EstBacked(c, s) && EstReceived(c, s, s.nodes[p])
    requires MessageEffect(c.f, s.nodes[p], q, m, e)
    ensures forall r, v :: Est(r, v) in e.sent ==> EnteredWith(c, s', r, v)
    ensures forall r, vs :: Conf(r, vs) !in e.sent
  {
    if e.sent != [] {
      RelayBacked(c, s, s.nodes[p], q, m, e);
      var h :| h in c.honest && Entered(s, h, m.r, m.v);
      assert Entered(s', h, m.r, m.v);
    }
  }

  lemma ReceivedWereSent(c: Config, s: System, node: NodeState)
    requires NodeInv(c, s, node)
    ensures EstReceived(c, s, node)
  {
  }

  lemma DeliverKeeps(c: Config, coin: int -> Bit, s: System, p: nat, q: nat, m: Msg, e: Effect, s': System)
    requires c.Valid() && Inv(c, coin, s) && p in c.honest && MayHaveSent(c, s, q, m)
    requires MessageEffect(c.f, s.nodes[p], q, m, e)
    requires s' == After(s, Deliver(p, q, m), e)
    ensures Inv(c, coin, s')
  {
    hide EnteredInv, ConfSentPast, EstReceived, ConfReceived, BinAccepted, EstBacked, ConfOnce, DecisionsInv,
         FinishedInv,
         NodeInv, Grew, FinishedSoundly;
    AfterMoved(c, s, Deliver(p, q, m), e, s');
    if s.nodes[p].phase == AwaitCoin { CoinFinished(c, coin, s, p); }
    DeliverNodeInv(c, s, p, q, m, e, s');
    ReceivedWereSent(c, s, s.nodes[p]);
    RelayEntered(c, s, p, q, m, e, s');
    assert s'.finished == s.finished && s'.entered == s.entered && s'.decisions == s.decisions;
    assert EstBacked(c, s') by { EstBackedKept(c, s, p, e, s'); }
    assert ConfOnce(c, s') by { ConfOnceKept(c, s, p, e, s'); }
    assert FinishedInv(c, s') by { FinishedKept(c, s, p, e, s'); }
    assert EnteredInv(c, coin, s') by { EnteredKept(c, coin, s, p, e, s'); }
    assert DecisionsInv(c, coin, s') by { DecisionsKept(c, coin, s, p, e, s'); }
  }

  lemma LoopNodeInv(c: Config, s: System, p: nat, e: Effect, s': System)
    requires Moved(c, s, p, e, s') && LoopEffect(s.nodes[p], e)
    requires forall q :: q in c.honest ==> NodeInv(c, s, s.nodes[q])
    ensures forall q :: q in c.honest ==> NodeInv(c, s', s'.nodes[q])
  {
    assert NodeInv(c, s, s.nodes[p]);
    OthersKeepNodeInv(c, s, p, e, s');
  }

  predicate Enters(e: Effect, r: int, est: int) {
    && e.node.phase == AwaitBinValue && e.node.r == r && e.node.est == est
    && (e.sent == [] || e.sent == [Est(r, est)])
  }

  lemma InputKeeps(c: Config, coin: int -> Bit, s: System, p: nat, v: int, e: Effect, s': System)
    requires c.Valid() && Inv(c, coin, s) && Enabled(c, s, Input(p, v))
    requires LoopEffect(s.nodes[p], e) && e.decision == None && e.node.decided == s.nodes[p].decided
    requires (e.node.phase == Stopped && e.sent == []) || Enters(e, 0, v)
    requires s' == After(s, Input(p, v), e)
    ensures Inv(c, coin, s')
  {
    hide EnteredInv, ConfSentPast, EstReceived, ConfReceived, BinAccepted, EstBacked, ConfOnce, DecisionsInv,
         FinishedInv,
         NodeInv, Grew, MayHaveSent;
    AfterMoved(c, s, Input(p, v), e, s');
    LoopNodeInv(c, s, p, e, s');
    if Enters(e, 0, v) { assert Entered(s', p, 0, v); }
    assert s'.finished == s.finished && s'.decisions == s.decisions;
    assert EstBacked(c, s') by { EstBackedKept(c, s, p, e, s'); }
    assert ConfOnce(c, s') by { ConfOnceKept(c, s, p, e, s'); }
    assert FinishedInv(c, s') by { FinishedKept(c, s, p, e, s'); }
    assert EnteredInv(c, coin, s') by { EnteredKept(c, coin, s, p, e, s'); }
    assert DecisionsInv(c, coin, s') by { DecisionsKept(c, coin, s, p, e, s'); }
  }

  lemma BinValueKeeps(c: Config, coin: int -> Bit, s: System, p: nat, w: int, e: Effect, s': System)
    requires c.Valid() && Inv(c, coin, s) && Enabled(c, s, BinValue(p, w))
    requires e == OnBinValue(s.nodes[p], w) && LoopEffect(s.nodes[p], e)
    requires s' == After(s, BinValue(p, w), e)
    ensures Inv(c, coin, s')
  {
    hide EnteredInv, ConfSentPast, EstReceived, ConfReceived, BinAccepted, EstBacked, ConfOnce, DecisionsInv,
         FinishedInv;
    AfterMoved(c, s, BinValue(p, w), e, s');
    LoopNodeInv(c, s, p, e, s');
    assert EstBacked(c, s') by { EstBackedKept(c, s, p, e, s'); }
    assert ConfOnce(c, s') by { ConfOnceKept(c, s, p, e, s'); }
    assert FinishedInv(c, s') by { FinishedKept(c, s, p, e, s'); }
    assert EnteredInv(c, coin, s') by { EnteredKept(c, coin, s, p, e, s'); }
    assert DecisionsInv(c, coin, s') by { DecisionsKept(c, coin, s, p, e, s'); }
  }

  /** The AUX wait never skips the CONF phase: no CONF of this round was sent before. */
  lemma ConfNotSkipped(c: Config, coin: int -> Bit, s: System, p: nat)
    requires Inv(c, coin, s) && Enabled(c, s, AuxQuorum(p))
    ensures OnAuxQuorum(c.n, c.f, s.nodes[p]).node.phase == AwaitConf
  {
    assert NodeInv(c, s, s.nodes[p]);
    var node := s.nodes[p];
    var vs := Tuple(AuxOutcome(c.n, c.f, node).value);
    assert (node.r, vs) in node.confSent ==> PastAux(node, node.r);
  }

  lemma AuxQuorumKeeps(c: Config, coin: int -> Bit, s: System, p: nat, e: Effect, s': System)
    requires c.Valid() && Inv(c, coin, s) && Enabled(c, s, AuxQuorum(p))
    requires e == OnAuxQuorum(c.n, c.f, s.nodes[p]) && LoopEffect(s.nodes[p], e)
    requires s' == After(s, AuxQuorum(p), e)
    ensures Inv(c, coin, s')
  {
    hide EnteredInv, ConfSentPast, EstReceived, ConfReceived, BinAccepted, EstBacked, ConfOnce, DecisionsInv,
         FinishedInv,
         NodeInv, Grew, FinishedSoundly;
    ConfNotSkipped(c, coin, s, p);
    AfterMoved(c, s, AuxQuorum(p), e, s');
    LoopNodeInv(c, s, p, e, s');
    assert EstBacked(c, s') by { EstBackedKept(c, s, p, e, s'); }
    assert ConfOnce(c, s') by { ConfOnceKept(c, s, p, e, s'); }
    assert FinishedInv(c, s') by { FinishedKept(c, s, p, e, s'); }
    assert EnteredInv(c, coin, s') by { EnteredKept(c, coin, s, p, e, s'); }
    assert DecisionsInv(c, coin, s') by { DecisionsKept(c, coin, s, p, e, s'); }
  }

  /** What a CONF wait returns is confirmed by a quorum, or both values are accepted. */
  lemma ConfQuorumSound(c: Config, s: System, p: nat)
    requires s.nodes.Keys == c.honest && p in c.honest && NodeInv(c, s, s.nodes[p])
    requires c.Valid() && ConfOutcome(c.n, c.f, s.nodes[p]).Some?
    ensures FinishedSoundly(c, s, p, s.nodes[p].r, ConfOutcome(c.n, c.f, s.nodes[p]).value)
  {
    var node := s.nodes[p];
    var r := node.r;
    SubsetSize(ConfVotes(node, r, [0]), ConfBackers(c, s, r, [0]));
    SubsetSize(ConfVotes(node, r, [1]), ConfBackers(c, s, r, [1]));
    if ConfOutcome(c.n, c.f, node) == Some({0, 1}) {
      assert 0 in [0, 1] && 1 in [0, 1] && 0 in [0] && 1 in [1];
    }
  }

  lemma ConfQuorumKeeps(c: Config, coin: int -> Bit, s: System, p: nat, e: Effect, s': System)
    requires c.Valid() && Inv(c, coin, s) && Enabled(c, s, ConfQuorum(p))
    requires e == OnConfQuorum(c.n, c.f, s.nodes[p]) && LoopEffect(s.nodes[p], e)
    requires s' == After(s, ConfQuorum(p), e)
    ensures Inv(c, coin, s')
  {
    hide EnteredInv, ConfSentPast, EstReceived, ConfReceived, BinAccepted, EstBacked, ConfOnce, DecisionsInv,
         FinishedInv,
         NodeInv, Grew, FinishedSoundly;
    AfterMoved(c, s, ConfQuorum(p), e, s');
    LoopNodeInv(c, s, p, e, s');
    ConfQuorumSound(c, s, p);
    FinishedStays(c, s, p, e, s', p, e.node.r, e.node.values);
    assert EstBacked(c, s') by { EstBackedKept(c, s, p, e, s'); }
    assert ConfOnce(c, s') by { ConfOnceKept(c, s, p, e, s'); }
    assert FinishedInv(c, s') by { FinishedKept(c, s, p, e, s'); }
    assert EnteredInv(c, coin, s') by { EnteredKept(c, coin, s, p, e, s'); }
    assert DecisionsInv(c, coin, s') by { DecisionsKept(c, coin, s, p, e, s'); }
  }

  /** After the coin a node abandons, or enters the next round, deciding at most for the coin. */
  ghost predicate CoinEffect(node: NodeState, coin: Bit, e: Effect) {
    || (e.node.phase == Stopped && e.sent == [] && e.decision == None && e.node.decided == node.decided)
    || (&& Enters(e, node.r + 1, NextEst(node.values, coin))
        && (e.decision == None ==> e.node.decided == node.decided)
        && (e.decision.Some? ==>
              node.decided == None && e.node.decided == e.decision && e.decision.value == coin
                && node.values == {coin}))
  }

  lemma CoinFacts(node: NodeState, coin: Bit, e: Effect)
    requires node.phase == AwaitCoin && e == OnCoin(node, coin)
    ensures CoinEffect(node, coin, e)
  {
  }

  lemma CoinEntered(c: Config, coin: int -> Bit, s: System, p: nat, e: Effect, s': System)
    requires Moved(c, s, p, e, s') && EnteredInv(c, coin, s)
    requires Finished(s, p, s.nodes[p].r, s.nodes[p].values) && 0 <= s.nodes[p].r
    requires CoinEffect(s.nodes[p], coin(s.nodes[p].r), e)
    requires s'.inputs == s.inputs
    requires s'.entered == s.entered + if e.node.phase == AwaitBinValue then {(p, e.node.r, e.node.est)} else {}
    ensures EnteredInv(c, coin, s')
    ensures forall r, v :: Est(r, v) in e.sent ==> EnteredWith(c, s', r, v)
  {
    if e.node.phase == AwaitBinValue {
      assert Entered(s', p, e.node.r, e.node.est);
      assert FinishedTo(coin, s, p, s.nodes[p].r, e.node.est);
    }
    EnteredKept(c, coin, s, p, e, s');
  }

  lemma CoinDecided(c: Config, coin: int -> Bit, s: System, p: nat, e: Effect, s': System)
    requires Moved(c, s, p, e, s') && DecisionsInv(c, coin, s)
    requires Finished(s, p, s.nodes[p].r, s.nodes[p].values)
    requires CoinEffect(s.nodes[p], coin(s.nodes[p].r), e)
    requires s'.decisions == s.decisions + if e.decision.Some? then {(p, s.nodes[p].r, e.decision.value)} else {}
    ensures DecisionsInv(c, coin, s')
  {
    if e.decision.Some? { assert Decided(s', p, s.nodes[p].r, e.decision.value); }
    DecisionsKept(c, coin, s, p, e, s');
  }

  lemma CoinKeeps(c: Config, coin: int -> Bit, s: System, p: nat, e: Effect, s': System)
    requires Inv(c, coin, s) && Moved(c, s, p, e, s') && s.nodes[p].phase == AwaitCoin
    requires LoopEffect(s.nodes[p], e) && CoinEffect(s.nodes[p], coin(s.nodes[p].r), e)
    requires s'.finished == s.finished && s'.inputs == s.inputs
    requires s'.entered == s.entered + if e.node.phase == AwaitBinValue then {(p, e.node.r, e.node.est)} else {}
    requires s'.decisions == s.decisions + if e.decision.Some? then {(p, s.nodes[p].r, e.decision.value)} else {}
    ensures Inv(c, coin, s')
  {
    hide EnteredInv, ConfSentPast, EstReceived, ConfReceived, BinAccepted, EstBacked, ConfOnce, DecisionsInv;
    CoinFinished(c, coin, s, p);
    LoopNodeInv(c, s, p, e, s');
    CoinEntered(c, coin, s, p, e, s');
    EstBackedKept(c, s, p, e, s');
    ConfOnceKept(c, s, p, e, s');
    FinishedKept(c, s, p, e, s');
    CoinDecided(c, coin, s, p, e, s');
  }

  lemma CoinFinished(c: Config, coin: int -> Bit, s: System, p: nat)
    requires Inv(c, coin, s) && p in c.honest && s.nodes[p].phase == AwaitCoin
    ensures 0 <= s.nodes[p].r && Finished(s, p, s.nodes[p].r, s.nodes[p].values)
  {
    assert NodeInv(c, s, s.nodes[p]);
  }

  lemma InitInv(c: Config, coin: int -> Bit, s: System)
    requires Init(c, s)
    ensures Inv(c, coin, s)
  {
  }

  lemma DeliverInv(c: Config, coin: int -> Bit, s: System, p: nat, q: nat, m: Msg)
    requires c.Valid() && Inv(c, coin, s) && Enabled(c, s, Deliver(p, q, m))
    ensures Inv(c, coin, Apply(c, coin, s, Deliver(p, q, m)))
  {
    hide EstBacked, ConfOnce, FinishedInv, EnteredInv, DecisionsInv, InputsInv, OnMessage, MessageEffect, After;
    var e := OnMessage(c.f, s.nodes[p], q, m);
    assert NodeInv(c, s, s.nodes[p]);
    MessageFacts(c.f, s.nodes[p], q, m, e);
    DeliverKeeps(c, coin, s, p, q, m, e, After(s, Deliver(p, q, m), e));
  }

  lemma InputInv(c: Config, coin: int -> Bit, s: System, p: nat, v: int)
    requires c.Valid() && Inv(c, coin, s) && Enabled(c, s, Input(p, v))
    ensures Inv(c, coin, Apply(c, coin, s, Input(p, v)))
  {
    hide EstBacked, ConfOnce, FinishedInv, EnteredInv, DecisionsInv, InputsInv, LoopEffect, After;
    var e := OnInput(s.nodes[p], v);
    assert NodeInv(c, s, s.nodes[p]);
    InputLoop(s.nodes[p], v, e);
    InputKeeps(c, coin, s, p, v, e, After(s, Input(p, v), e));
  }

  lemma BinValueInv(c: Config, coin: int -> Bit, s: System, p: nat, w: int)
    requires c.Valid() && Inv(c, coin, s) && Enabled(c, s, BinValue(p, w))
    ensures Inv(c, coin, Apply(c, coin, s, BinValue(p, w)))
  {
    hide EstBacked, ConfOnce, FinishedInv, EnteredInv, DecisionsInv, InputsInv, LoopEffect, OnBinValue, After;
    var e := OnBinValue(s.nodes[p], w);
    assert NodeInv(c, s, s.nodes[p]);
    BinValueLoop(s.nodes[p], w, e);
    BinValueKeeps(c, coin, s, p, w, e, After(s, BinValue(p, w), e));
  }

  lemma AuxQuorumInv(c: Config, coin: int -> Bit, s: System, p: nat)
    requires c.Valid() && Inv(c, coin, s) && Enabled(c, s, AuxQuorum(p))
    ensures Inv(c, coin, Apply(c, coin, s, AuxQuorum(p)))
  {
    hide EstBacked, ConfOnce, FinishedInv, EnteredInv, DecisionsInv, InputsInv, LoopEffect, OnAuxQuorum, After;
    var e := OnAuxQuorum(c.n, c.f, s.nodes[p]);
    assert NodeInv(c, s, s.nodes[p]);
    AuxLoop(c.n, c.f, s.nodes[p], e);
    AuxQuorumKeeps(c, coin, s, p, e, After(s, AuxQuorum(p), e));
  }

  lemma ConfQuorumInv(c: Config, coin: int -> Bit, s: System, p: nat)
    requires c.Valid() && Inv(c, coin, s) && Enabled(c, s, ConfQuorum(p))
    ensures Inv(c, coin, Apply(c, coin, s, ConfQuorum(p)))
  {
    hide EstBacked, ConfOnce, FinishedInv, EnteredInv, DecisionsInv, InputsInv, LoopEffect, OnConfQuorum, After;
    var e := OnConfQuorum(c.n, c.f, s.nodes[p]);
    assert NodeInv(c, s, s.nodes[p]);
    ConfLoop(c.n, c.f, s.nodes[p], e);
    ConfQuorumKeeps(c, coin, s, p, e, After(s, ConfQuorum(p), e));
  }

  lemma CoinInv(c: Config, coin: int -> Bit, s: System, p: nat)
    requires c.Valid() && Inv(c, coin, s) && Enabled(c, s, Coin(p))
    ensures Inv(c, coin, Apply(c, coin, s, Coin(p)))
  {
    hide EstBacked, ConfOnce, FinishedInv, EnteredInv, DecisionsInv, InputsInv, CoinEffect, OnCoin, Moved;
    var e := OnCoin(s.nodes[p], coin(s.nodes[p].r));
    assert NodeInv(c, s, s.nodes[p]);
    CoinLoop(s.nodes[p], coin(s.nodes[p].r), e);
    CoinFacts(s.nodes[p], coin(s.nodes[p].r), e);
    var s' := After(s, Coin(p), e);
    AfterMoved(c, s, Coin(p), e, s');
    CoinFinishes(s, p, e, s');
    CoinKeeps(c, coin, s, p, e, s');
  }

  lemma CoinFinishes(s: System, p: nat, e: Effect, s': System)
    requires p in s.nodes && s.nodes[p].phase == AwaitCoin && s' == After(s, Coin(p), e)
    ensures s'.finished == s.finished && s'.inputs == s.inputs
    ensures s'.entered == s.entered + if e.node.phase == AwaitBinValue then {(p, e.node.r, e.node.est)} else {}
    ensures s'.decisions == s.decisions + if e.decision.Some? then {(p, s.nodes[p].r, e.decision.value)} else {}
  {
  }

  lemma StepInv(c: Config, coin: int -> Bit, s: System, step: Step)
    requires c.Valid() && Inv(c, coin, s) && Enabled(c, s, step)
    ensures Inv(c, coin, Apply(c, coin, s, step))
  {
    hide Inv, Apply, Enabled;
    match step
    case Deliver(p, q, m) => DeliverInv(c, coin, s, p, q, m);
    case Input(p, v) => InputInv(c, coin, s, p, v);
    case BinValue(p, w) => BinValueInv(c, coin, s, p, w);
    case AuxQuorum(p) => AuxQuorumInv(c, coin, s, p);
    case ConfQuorum(p) => ConfQuorumInv(c, coin, s, p);
    case Coin(p) => CoinInv(c, coin, s, p);
  }

  lemma NextInv(c: Config, coin: int -> Bit, s: System, s': System)
    requires c.Valid() && Inv(c, coin, s) && Next(c, coin, s, s')
    ensures Inv(c, coin, s')
  {
    var step :| Enabled(c, s, step) && s' == Apply(c, coin, s, step);
    StepInv(c, coin, s, step);
  }

  lemma {:induction false} RunInv(c: Config, coin: int -> Bit, run: seq<System>, i: nat)
    requires c.Valid() && IsRun(c, coin, run) && i < |run|
    ensures Inv(c, coin, run[i])
  {
    if i == 0 {
      InitInv(c, coin, run[0]);
    } else {
      RunInv(c, coin, run, i - 1);
      NextInv(c, coin, run[i - 1], run[i]);
    }
  }
}
