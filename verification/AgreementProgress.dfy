// What every node of the binary agreement has done once a threshold is reached: relayed, accepted, voted, confirmed and
// decided. AgreementRuns has the other directions, AgreementLiveness draws progress from it.
module AgreementProgress {
  import opened Options
  import opened Quorums
  import opened BinaryAgreement
  import opened AgreementRuns

  // ---------------------------------------------------------------- what each node keeps about itself

  /** Every EST it counted f + 1 times it has sent, and every one counted 2f + 1 times it has accepted. */
  ghost predicate VotesAnswered(c: Config, s: System, p: nat)
    requires p in s.nodes
  {
    var node := s.nodes[p];
    && (forall r, v {:trigger (r, v) in node.estSent} {:trigger Sent(s, p, Est(r, v))} ::
          (r, v) in node.estSent <==> Sent(s, p, Est(r, v)))
    && (forall r, v {:trigger EstVotes(node, r, v)} ::
          && (c.f + 1 <= |EstVotes(node, r, v)| ==> (r, v) in node.estSent)
          && (2 * c.f + 1 <= |EstVotes(node, r, v)| ==> v in Bin(node, r)))
  }

  /** The node is past the wait for a binary value in round r. */
  predicate PastBin(node: NodeState, r: int) {
    r < node.r || (r == node.r && (node.phase == AwaitAux || node.phase == AwaitConf || node.phase == AwaitCoin))
  }

  predicate PastAuxWait(node: NodeState, r: int) {
    r < node.r || (r == node.r && (node.phase == AwaitConf || node.phase == AwaitCoin))
  }

  ghost predicate SentAux(s: System, p: nat, r: int) { exists w :: Sent(s, p, Aux(r, w)) }

  ghost predicate SentConf(s: System, p: nat, r: int) { exists vs :: Sent(s, p, Conf(r, vs)) }

  /** The node has left the wait for a binary value of round r behind, in whatever way. */
  predicate AuxSentBy(node: NodeState, r: int) {
    r < node.r || (r == node.r && node.phase != AwaitInput && node.phase != AwaitBinValue)
  }

  /** It voted AUX once, for an accepted value, in every round in which it passed that wait. */
  ghost predicate AuxAnswered(s: System, p: nat)
    requires p in s.nodes
  {
    var node := s.nodes[p];
    && (forall r, w {:trigger Sent(s, p, Aux(r, w))} ::
          Sent(s, p, Aux(r, w)) ==> w in Bin(node, r) && AuxSentBy(node, r))
    && (forall r, v, w {:trigger Sent(s, p, Aux(r, v)), Sent(s, p, Aux(r, w))} ::
          Sent(s, p, Aux(r, v)) && Sent(s, p, Aux(r, w)) ==> v == w)
    && (forall r {:trigger PastBin(node, r)} :: 0 <= r && PastBin(node, r) ==> SentAux(s, p, r))
  }

  /** It confirmed accepted values in every round in which its AUX wait ended. */
  ghost predicate ConfAnswered(s: System, p: nat)
    requires p in s.nodes
  {
    var node := s.nodes[p];
    && (forall r, vs {:trigger Sent(s, p, Conf(r, vs))} ::
          Sent(s, p, Conf(r, vs)) ==> IsConfValue(vs) && forall v :: v in vs ==> v in Bin(node, r))
    && (forall r {:trigger PastAuxWait(node, r)} :: 0 <= r && PastAuxWait(node, r) ==> SentConf(s, p, r))
  }

  ghost predicate HasEntered(s: System, p: nat, r: int) { exists e :: Entered(s, p, r, e) }

  /** It is in the loop, or left it by abandoning. */
  predicate InLoop(node: NodeState) { node.phase != AwaitInput && node.phase != Stopped }

  /** It broadcast the bit with which it entered each round. */
  ghost predicate EntriesSent(s: System, p: nat)
    requires p in s.nodes
  {
    var node := s.nodes[p];
    && (forall r, e {:trigger Entered(s, p, r, e)} :: Entered(s, p, r, e) ==> IsBit(e) && (r, e) in node.estSent)
    && (forall r {:trigger HasEntered(s, p, r)} :: 0 <= r <= node.r && InLoop(node) ==> HasEntered(s, p, r))
  }

  // ---------------------------------------------------------------- effects on the own record

  ghost predicate BinGrows(before: NodeState, after: NodeState) {
    forall r, v :: v in Bin(before, r) ==> v in Bin(after, r)
  }

  ghost predicate AnswersVotes(f: nat, before: NodeState, e: Effect) {
    && BinGrows(before, e.node)
    && (forall r, v {:trigger (r, v) in e.node.estSent} {:trigger Est(r, v) in e.sent} ::
          (r, v) in e.node.estSent <==> (r, v) in before.estSent || Est(r, v) in e.sent)
    && (forall r, v {:trigger EstVotes(e.node, r, v)} ::
          || EstVotes(e.node, r, v) == EstVotes(before, r, v)
          || (&& (f + 1 <= |EstVotes(e.node, r, v)| ==> (r, v) in e.node.estSent)
              && (2 * f + 1 <= |EstVotes(e.node, r, v)| ==> v in Bin(e.node, r))))
  }

  lemma EstVotesAfter(f: nat, s: NodeState, q: nat, r: int, v: int, k: int, w: int)
    ensures var after := OnEst(f, s, q, r, v).node;
            EstVotes(after, k, w) == EstVotes(s, k, w) || (k == r && w == v && s.listening && IsBit(v)
              && EstVotes(after, r, v) == EstVotes(s, r, v) + {q})
  {
  }

  lemma EstMarkAfter(f: nat, s: NodeState, q: nat, r: int, v: int, k: int, w: int)
    ensures var e := OnEst(f, s, q, r, v);
            (k, w) in e.node.estSent <==> (k, w) in s.estSent || Est(k, w) in e.sent
  {
    hide EstVotes, IsBit;
  }

  lemma EstBinAfter(f: nat, s: NodeState, q: nat, r: int, v: int, k: int, w: int)
    requires w in Bin(s, k)
    ensures w in Bin(OnEst(f, s, q, r, v).node, k)
  {
    hide EstVotes, IsBit;
  }

  /** A vote that is counted meets its thresholds. */
  lemma EstThresholds(f: nat, s: NodeState, q: nat, r: int, v: int)
    requires EstVotes(OnEst(f, s, q, r, v).node, r, v) != EstVotes(s, r, v)
    ensures var after := OnEst(f, s, q, r, v).node;
            && (f + 1 <= |EstVotes(after, r, v)| ==> (r, v) in after.estSent)
            && (2 * f + 1 <= |EstVotes(after, r, v)| ==> v in Bin(after, r))
  {
  }

  lemma EstAnswers(f: nat, s: NodeState, q: nat, r: int, v: int, e: Effect)
    requires e == OnEst(f, s, q, r, v)
    ensures AnswersVotes(f, s, e)
  {
    hide OnEst, EstVotes, Bin;
    forall k, w ensures EstVotes(e.node, k, w) == EstVotes(s, k, w) || (k == r && w == v) {
      EstVotesAfter(f, s, q, r, v, k, w);
    }
    forall k, w ensures (k, w) in e.node.estSent <==> (k, w) in s.estSent || Est(k, w) in e.sent {
      EstMarkAfter(f, s, q, r, v, k, w);
    }
    forall k, w | w in Bin(s, k) ensures w in Bin(e.node, k) { EstBinAfter(f, s, q, r, v, k, w); }
    if EstVotes(e.node, r, v) != EstVotes(s, r, v) { EstThresholds(f, s, q, r, v); }
  }

  lemma OtherMessageAnswers(f: nat, s: NodeState, q: nat, m: Msg, e: Effect)
    requires !m.Est? && e == OnMessage(f, s, q, m)
    ensures AnswersVotes(f, s, e)
  {
    assert e.sent == [] && e.node.estSent == s.estSent && e.node.binValues == s.binValues;
    assert forall k, w :: EstVotes(e.node, k, w) == EstVotes(s, k, w);
  }

  /** A step of the loop that broadcasts an EST only together with its mark. */
  lemma LoopAnswers(f: nat, s: NodeState, e: Effect)
    requires e.node.estValues == s.estValues && e.node.binValues == s.binValues
    requires forall r, v :: (r, v) in e.node.estSent <==> (r, v) in s.estSent || Est(r, v) in e.sent
    ensures AnswersVotes(f, s, e)
  {
    assert forall k, w :: EstVotes(e.node, k, w) == EstVotes(s, k, w);
  }

  lemma EnterRoundAnswers(f: nat, s: NodeState, before: NodeState, r: int, est: int, decision: Option<int>)
    requires before.estValues == s.estValues && before.binValues == s.binValues && before.estSent == s.estSent
    ensures AnswersVotes(f, s, EnterRound(before, r, est).(decision := decision))
  {
    LoopAnswers(f, s, EnterRound(before, r, est).(decision := decision));
  }

  lemma CoinAnswers(f: nat, s: NodeState, coin: int)
    requires s.phase == AwaitCoin
    ensures AnswersVotes(f, s, OnCoin(s, coin))
  {
    hide AnswersVotes, EnterRound, SetNewEstimate;
    match SetNewEstimate(s.values, coin, s.decided)
    case Abandoned => LoopAnswers(f, s, OnCoin(s, coin));
    case Estimate(est, decided, decision) =>
      EnterRoundAnswers(f, s, s.(decided := decided), s.r + 1, est, decision);
  }

  lemma InputAnswers(f: nat, s: NodeState, v: int)
    requires s.phase == AwaitInput
    ensures AnswersVotes(f, s, OnInput(s, v))
  {
    hide AnswersVotes;
    LoopAnswers(f, s, OnInput(s, v));
  }

  lemma StepAnswers(c: Config, coin: int -> Bit, s: System, step: Step)
    requires Enabled(c, s, step)
    ensures AnswersVotes(c.f, s.nodes[step.p], StepEffect(c, coin, s, step))
  {
    hide AnswersVotes, AuxOutcome, ConfOutcome, EstVotes, OnMessage, OnCoin, OnInput, Bin, Tuple;
    var node, e := s.nodes[step.p], StepEffect(c, coin, s, step);
    match step
    case Deliver(p, q, m) => MessageAnswers(c.f, node, q, m);
    case Input(p, v) => InputAnswers(c.f, node, v);
    case BinValue(p, w) => LoopAnswers(c.f, node, e);
    case AuxQuorum(p) => LoopAnswers(c.f, node, e);
    case ConfQuorum(p) => LoopAnswers(c.f, node, e);
    case Coin(p) => CoinAnswers(c.f, node, coin(node.r));
  }

  lemma MessageAnswers(f: nat, s: NodeState, q: nat, m: Msg)
    ensures AnswersVotes(f, s, OnMessage(f, s, q, m))
  {
    hide AnswersVotes, OnEst, OnAux, OnConf;
    var e := OnMessage(f, s, q, m);
    if m.Est? { EstAnswers(f, s, q, m.r, m.v, e); } else { OtherMessageAnswers(f, s, q, m, e); }
  }

  ghost predicate AnswersAux(before: NodeState, e: Effect) {
    && BinGrows(before, e.node)
    && (forall r, w {:trigger Aux(r, w) in e.sent} ::
          Aux(r, w) in e.sent ==> w in Bin(e.node, r) && !AuxSentBy(before, r) && AuxSentBy(e.node, r))
    && (forall r, v, w {:trigger Aux(r, v) in e.sent, Aux(r, w) in e.sent} ::
          Aux(r, v) in e.sent && Aux(r, w) in e.sent ==> v == w)
    && (forall r {:trigger AuxSentBy(before, r)} :: AuxSentBy(before, r) ==> AuxSentBy(e.node, r))
    && (forall r {:trigger PastBin(e.node, r)} :: 0 <= r && PastBin(e.node, r) ==>
          PastBin(before, r) || exists w :: Aux(r, w) in e.sent)
  }

  lemma MessageKeepsLoop(f: nat, s: NodeState, q: nat, m: Msg, e: Effect)
    requires e == OnMessage(f, s, q, m)
    ensures SameLoop(s, e.node) && e.decision == None && (e.sent == [] || (m.Est? && e.sent == [m]))
    ensures e.node.listening ==> s.listening
  {
    hide IsBit, IsConfValue, EstVotes, AuxVotes, ConfVotes;
  }

  lemma BinValueAnswersAux(node: NodeState, w: int)
    requires node.phase == AwaitBinValue && w in Bin(node, node.r)
    ensures AnswersAux(node, OnBinValue(node, w))
  {
    var e := OnBinValue(node, w);
    assert Aux(node.r, w) in e.sent;
  }

  /** A step that sends at most ESTs and passes neither wait. */
  ghost predicate EstOnly(node: NodeState, e: Effect) {
    && (forall m :: m in e.sent ==> m.Est?)
    && (forall r :: 0 <= r && PastBin(e.node, r) ==> PastBin(node, r))
    && (forall r :: 0 <= r && PastAuxWait(e.node, r) ==> PastAuxWait(node, r))
    && (forall r :: AuxSentBy(node, r) ==> AuxSentBy(e.node, r))
  }

  lemma MessageEstOnly(f: nat, s: NodeState, q: nat, m: Msg)
    ensures EstOnly(s, OnMessage(f, s, q, m))
  {
    hide OnMessage;
    MessageKeepsLoop(f, s, q, m, OnMessage(f, s, q, m));
  }

  lemma InputEstOnly(node: NodeState, v: int)
    requires node.phase == AwaitInput && node.r == 0
    ensures EstOnly(node, OnInput(node, v))
  {
  }

  lemma ConfQuorumEstOnly(n: nat, f: nat, node: NodeState)
    requires node.phase == AwaitConf && ConfOutcome(n, f, node).Some?
    ensures EstOnly(node, OnConfQuorum(n, f, node))
  {
  }

  lemma CoinEstOnly(node: NodeState, coin: int)
    requires node.phase == AwaitCoin
    ensures EstOnly(node, OnCoin(node, coin))
  {
  }

  lemma AuxQuorumAnswersAux(n: nat, f: nat, node: NodeState)
    requires node.phase == AwaitAux && AuxOutcome(n, f, node).Some?
    ensures AnswersAux(node, OnAuxQuorum(n, f, node))
  {
    hide AuxOutcome;
  }

  /** A step that sends no AUX and passes no wait for a binary value. */
  lemma QuietAboutAux(f: nat, node: NodeState, e: Effect)
    requires AnswersVotes(f, node, e) && EstOnly(node, e)
    ensures AnswersAux(node, e)
  {
    hide PastBin, AuxSentBy, EstVotes, Bin;
  }

  lemma StepAnswersAux(c: Config, coin: int -> Bit, s: System, step: Step)
    requires Enabled(c, s, step) && (s.nodes[step.p].phase == AwaitInput ==> s.nodes[step.p].r == 0)
    requires AnswersVotes(c.f, s.nodes[step.p], StepEffect(c, coin, s, step))
    ensures AnswersAux(s.nodes[step.p], StepEffect(c, coin, s, step))
  {
    hide AnswersVotes, AnswersAux, AuxOutcome, ConfOutcome, OnMessage, Bin, EstOnly, OnInput, OnCoin, OnConfQuorum,
         OnAuxQuorum, OnBinValue;
    var node, e := s.nodes[step.p], StepEffect(c, coin, s, step);
    match step
    case Deliver(p, q, m) =>
      MessageEstOnly(c.f, node, q, m);
      QuietAboutAux(c.f, node, e);
    case Input(p, v) =>
      InputEstOnly(node, v);
      QuietAboutAux(c.f, node, e);
    case BinValue(p, w) => BinValueAnswersAux(node, w);
    case AuxQuorum(p) => AuxQuorumAnswersAux(c.n, c.f, node);
    case ConfQuorum(p) =>
      ConfQuorumEstOnly(c.n, c.f, node);
      QuietAboutAux(c.f, node, e);
    case Coin(p) =>
      CoinEstOnly(node, coin(node.r));
      QuietAboutAux(c.f, node, e);
  }

  lemma BinGrew(f: nat, node: NodeState, e: Effect)
    requires AnswersVotes(f, node, e)
    ensures BinGrows(node, e.node)
  {
  }

  lemma SameBin(before: NodeState, after: NodeState, r: int)
    requires after.binValues == before.binValues
    ensures Bin(after, r) == Bin(before, r)
  {
  }

  ghost predicate AnswersConf(before: NodeState, e: Effect) {
    && BinGrows(before, e.node)
    && (forall r, vs {:trigger Conf(r, vs) in e.sent} ::
          Conf(r, vs) in e.sent ==> IsConfValue(vs) && forall v :: v in vs ==> v in Bin(e.node, r))
    && (forall r {:trigger PastAuxWait(e.node, r)} :: 0 <= r && PastAuxWait(e.node, r) ==>
          PastAuxWait(before, r) || exists vs :: Conf(r, vs) in e.sent)
  }

  /** The tuple of a set of accepted bits is one of the three that receivers take. */
  lemma TupleOfBits(b: set<int>, w: int)
    requires w in b && forall v :: v in b ==> IsBit(v)
    ensures IsConfValue(Tuple(b)) && forall v :: v in Tuple(b) <==> v in b
  {
    assert IsBit(w);
  }

  lemma AuxQuorumAnswersConf(n: nat, f: nat, node: NodeState)
    requires node.phase == AwaitAux && AuxOutcome(n, f, node).Some? && exists w :: w in Bin(node, node.r)
    requires BinAccepted(f, node) && ConfSentPast(node)
    ensures AnswersConf(node, OnAuxQuorum(n, f, node))
  {
    hide AuxOutcome, EstVotes, Tuple, IsConfValue;
    var e := OnAuxQuorum(n, f, node);
    BinBits(f, node, node.r);
    var w :| w in Bin(node, node.r);
    TupleOfBits(Bin(node, node.r), w);
    assert !PastAux(node, node.r);
    assert Conf(node.r, Tuple(Bin(node, node.r))) in e.sent;
  }

  lemma BinValueAnswersConf(node: NodeState, w: int)
    requires node.phase == AwaitBinValue && w in Bin(node, node.r)
    ensures AnswersConf(node, OnBinValue(node, w))
  {
  }

  /** A step that sends no CONF and ends no AUX wait. */
  lemma QuietAboutConf(f: nat, node: NodeState, e: Effect)
    requires AnswersVotes(f, node, e) && EstOnly(node, e)
    ensures AnswersConf(node, e)
  {
    hide PastAuxWait, EstVotes, Bin;
  }

  lemma StepAnswersConf(c: Config, coin: int -> Bit, s: System, step: Step)
    requires Enabled(c, s, step) && (s.nodes[step.p].phase == AwaitInput ==> s.nodes[step.p].r == 0)
    requires AnswersVotes(c.f, s.nodes[step.p], StepEffect(c, coin, s, step))
    requires BinAccepted(c.f, s.nodes[step.p]) && ConfSentPast(s.nodes[step.p])
    requires s.nodes[step.p].phase == AwaitAux ==> exists w :: w in Bin(s.nodes[step.p], s.nodes[step.p].r)
    ensures AnswersConf(s.nodes[step.p], StepEffect(c, coin, s, step))
  {
    hide AnswersVotes, AnswersConf, AuxOutcome, ConfOutcome, OnMessage, BinAccepted, ConfSentPast, EstOnly, OnInput,
         OnCoin, OnConfQuorum, OnAuxQuorum, OnBinValue, Bin;
    var node, e := s.nodes[step.p], StepEffect(c, coin, s, step);
    match step
    case Deliver(p, q, m) =>
      MessageEstOnly(c.f, node, q, m);
      QuietAboutConf(c.f, node, e);
    case Input(p, v) =>
      InputEstOnly(node, v);
      QuietAboutConf(c.f, node, e);
    case BinValue(p, w) => BinValueAnswersConf(node, w);
    case AuxQuorum(p) => AuxQuorumAnswersConf(c.n, c.f, node);
    case ConfQuorum(p) =>
      ConfQuorumEstOnly(c.n, c.f, node);
      QuietAboutConf(c.f, node, e);
    case Coin(p) =>
      CoinEstOnly(node, coin(node.r));
      QuietAboutConf(c.f, node, e);
  }

  lemma BinBits(f: nat, node: NodeState, r: int)
    requires BinAccepted(f, node)
    ensures forall v :: v in Bin(node, r) ==> IsBit(v)
  {
  }

  // ---------------------------------------------------------------- every step keeps it

  /** What concerns p is p's record and what p sent and recorded. */
  ghost predicate SameView(s: System, t: System, p: nat) {
    && p in s.nodes && p in t.nodes && t.nodes[p] == s.nodes[p]
    && (forall m {:trigger Sent(t, p, m)} {:trigger Sent(s, p, m)} :: Sent(t, p, m) <==> Sent(s, p, m))
    && (forall r, e {:trigger Entered(t, p, r, e)} {:trigger Entered(s, p, r, e)} ::
          Entered(t, p, r, e) <==> Entered(s, p, r, e))
    && (forall r, vs {:trigger Finished(t, p, r, vs)} {:trigger Finished(s, p, r, vs)} ::
          Finished(t, p, r, vs) <==> Finished(s, p, r, vs))
    && (forall r, v {:trigger Decided(t, p, r, v)} {:trigger Decided(s, p, r, v)} ::
          Decided(t, p, r, v) <==> Decided(s, p, r, v))
    && (p in t.inputs <==> p in s.inputs) && (p in s.inputs ==> t.inputs[p] == s.inputs[p])
  }

  lemma OthersSame(s: System, step: Step, e: Effect, q: nat)
    requires step.p in s.nodes && q in s.nodes && q != step.p
    ensures SameView(s, After(s, step, e), q)
  {
    var t := After(s, step, e);
    assert forall m :: Sent(t, q, m) <==> Sent(s, q, m);
  }

  ghost predicate OwnStep(s: System, t: System, p: nat, e: Effect) {
    && p in s.nodes && p in t.nodes && t.nodes[p] == e.node
    && (forall m {:trigger Sent(t, p, m)} {:trigger Sent(s, p, m)} {:trigger m in e.sent} ::
          Sent(t, p, m) <==> Sent(s, p, m) || m in e.sent)
  }

  lemma OwnIsOwn(s: System, step: Step, e: Effect)
    requires step.p in s.nodes
    ensures OwnStep(s, After(s, step, e), step.p, e)
  {
    var t := After(s, step, e);
    assert forall m :: Sent(t, step.p, m) <==> Sent(s, step.p, m) || m in e.sent;
  }

  lemma VotesAnsweredKept(c: Config, s: System, t: System, p: nat, e: Effect)
    requires OwnStep(s, t, p, e) && VotesAnswered(c, s, p) && AnswersVotes(c.f, s.nodes[p], e)
    ensures VotesAnswered(c, t, p)
  {
    hide EstVotes, Bin;
    var node := s.nodes[p];
    forall r, v ensures (r, v) in e.node.estSent <==> Sent(t, p, Est(r, v)) {
      assert (r, v) in node.estSent <==> Sent(s, p, Est(r, v));
    }
    forall r, v
      ensures (c.f + 1 <= |EstVotes(e.node, r, v)| ==> (r, v) in e.node.estSent)
      ensures (2 * c.f + 1 <= |EstVotes(e.node, r, v)| ==> v in Bin(e.node, r))
    {
      if EstVotes(e.node, r, v) == EstVotes(node, r, v) {
        assert (r, v) in node.estSent ==> (r, v) in e.node.estSent;
      }
    }
  }

  lemma AuxAnsweredKept(s: System, t: System, p: nat, e: Effect)
    requires OwnStep(s, t, p, e) && AuxAnswered(s, p) && AnswersAux(s.nodes[p], e)
    ensures AuxAnswered(t, p)
  {
    hide Bin, PastBin, AuxSentBy;
    forall r, w | Sent(t, p, Aux(r, w)) ensures w in Bin(e.node, r) && AuxSentBy(e.node, r) {
      if Sent(s, p, Aux(r, w)) {
        assert w in Bin(s.nodes[p], r) && AuxSentBy(s.nodes[p], r);
      } else {
        assert Aux(r, w) in e.sent;
      }
    }
    forall r, v, w | Sent(t, p, Aux(r, v)) && Sent(t, p, Aux(r, w)) ensures v == w {
      OneAuxKept(s, t, p, e, r, v, w);
    }
    forall r | 0 <= r && PastBin(e.node, r) ensures SentAux(t, p, r) {
      if PastBin(s.nodes[p], r) {
        assert SentAux(s, p, r);
        var w :| Sent(s, p, Aux(r, w));
        assert Sent(t, p, Aux(r, w));
      } else {
        var w :| Aux(r, w) in e.sent;
        assert Sent(t, p, Aux(r, w));
      }
    }
  }

  lemma OneAuxKept(s: System, t: System, p: nat, e: Effect, r: int, v: int, w: int)
    requires OwnStep(s, t, p, e) && AuxAnswered(s, p) && AnswersAux(s.nodes[p], e)
    requires Sent(t, p, Aux(r, v)) && Sent(t, p, Aux(r, w))
    ensures v == w
  {
    hide Bin, PastBin, AuxSentBy;
    assert Sent(s, p, Aux(r, v)) || Aux(r, v) in e.sent;
    assert Sent(s, p, Aux(r, w)) || Aux(r, w) in e.sent;
    assert Sent(s, p, Aux(r, v)) ==> AuxSentBy(s.nodes[p], r);
    assert Sent(s, p, Aux(r, w)) ==> AuxSentBy(s.nodes[p], r);
  }

  lemma ConfAnsweredKept(s: System, t: System, p: nat, e: Effect)
    requires OwnStep(s, t, p, e) && ConfAnswered(s, p) && AnswersConf(s.nodes[p], e)
    ensures ConfAnswered(t, p)
  {
    hide Bin, PastAuxWait, IsConfValue;
    forall r, vs | Sent(t, p, Conf(r, vs)) ensures IsConfValue(vs) && forall v :: v in vs ==> v in Bin(e.node, r) {
      if Sent(s, p, Conf(r, vs)) {
        assert forall v :: v in vs ==> v in Bin(s.nodes[p], r);
      } else {
        assert Conf(r, vs) in e.sent;
      }
    }
    forall r | 0 <= r && PastAuxWait(e.node, r) ensures SentConf(t, p, r) {
      if PastAuxWait(s.nodes[p], r) {
        assert SentConf(s, p, r);
        var vs :| Sent(s, p, Conf(r, vs));
        assert Sent(t, p, Conf(r, vs));
      } else {
        var vs :| Conf(r, vs) in e.sent;
        assert Sent(t, p, Conf(r, vs));
      }
    }
  }

  /** The node enters a round with a bit that it has marked as sent. */
  predicate Entering(before: NodeState, e: Effect) {
    && e.node.phase == AwaitBinValue && IsBit(e.node.est) && (e.node.r, e.node.est) in e.node.estSent
    && ((before.phase == AwaitInput && e.node.r == 0) || (InLoop(before) && e.node.r == before.r + 1))
  }

  predicate SameRound(before: NodeState, after: NodeState) {
    InLoop(after) ==> InLoop(before) && after.r == before.r
  }

  /** What a step adds to the histories of its node. */
  ghost predicate Records(s: System, t: System, step: Step, e: Effect)
    requires step.p in s.nodes
  {
    var p, before := step.p, s.nodes[step.p];
    && (forall r, x {:trigger Entered(t, p, r, x)} {:trigger Entered(s, p, r, x)} ::
          Entered(t, p, r, x) <==>
          || Entered(s, p, r, x)
          || ((step.Input? || step.Coin?) && e.node.phase == AwaitBinValue && r == e.node.r && x == e.node.est))
    && (forall r, vs {:trigger Finished(t, p, r, vs)} {:trigger Finished(s, p, r, vs)} ::
          Finished(t, p, r, vs) <==>
          || Finished(s, p, r, vs)
          || (before.phase != AwaitCoin && e.node.phase == AwaitCoin && r == e.node.r && vs == e.node.values))
    && (forall r, v {:trigger Decided(t, p, r, v)} {:trigger Decided(s, p, r, v)} ::
          Decided(t, p, r, v) <==> Decided(s, p, r, v) || (e.decision == Some(v) && r == before.r))
    && (if step.Input? then p in t.inputs && t.inputs[p] == step.v else t.inputs == s.inputs)
  }

  lemma OwnRecords(s: System, step: Step, e: Effect)
    requires step.p in s.nodes
    ensures Records(s, After(s, step, e), step, e)
  {
  }

  lemma EntriesSentKept(f: nat, s: System, t: System, step: Step, e: Effect)
    requires OwnStep(s, t, step.p, e) && Records(s, t, step, e) && EntriesSent(s, step.p)
    requires AnswersVotes(f, s.nodes[step.p], e)
    requires if (step.Input? || step.Coin?) && e.node.phase == AwaitBinValue then Entering(s.nodes[step.p], e)
             else SameRound(s.nodes[step.p], e.node)
    ensures EntriesSent(t, step.p)
  {
    hide EstVotes, Bin, IsBit;
    var p, node := step.p, s.nodes[step.p];
    forall r, x | Entered(t, p, r, x) ensures IsBit(x) && (r, x) in e.node.estSent {
      if Entered(s, p, r, x) { assert (r, x) in node.estSent; }
    }
    forall r | 0 <= r <= e.node.r && InLoop(e.node) ensures HasEntered(t, p, r) {
      if InLoop(node) && r <= node.r {
        assert HasEntered(s, p, r);
        var x :| Entered(s, p, r, x);
        assert Entered(t, p, r, x);
      } else {
        assert Entered(t, p, r, e.node.est);
      }
    }
  }

  // ---------------------------------------------------------------- decisions

  /** The coin of round r has been used. */
  predicate PastCoin(node: NodeState, r: int) { r < node.r || (r == node.r && node.phase == Stopped) }

  ghost predicate DecidedBy(s: System, p: nat, r: int) { exists k, v :: k <= r && Decided(s, p, k, v) }

  /** The CONF wait of round r ended with the value of the coin. */
  ghost predicate MetCoin(coin: int -> Bit, s: System, p: nat, r: int) { Finished(s, p, r, {coin(r)}) }

  ghost predicate BadInput(s: System, p: nat) { p in s.inputs && !IsBit(s.inputs[p]) }

  /** The results that met the coin have led to a decision, no later than the first of them; and whoever left the loop
      had met the coin again after its decision. */
  ghost predicate DecisionsDue(coin: int -> Bit, s: System, p: nat)
    requires p in s.nodes
  {
    var node := s.nodes[p];
    && (forall r, vs {:trigger Finished(s, p, r, vs)} :: Finished(s, p, r, vs) ==>
          0 <= r && (PastCoin(node, r) || (r == node.r && node.phase == AwaitCoin && vs == node.values)))
    && (forall r {:trigger MetCoin(coin, s, p, r)} ::
          MetCoin(coin, s, p, r) && PastCoin(node, r) ==> DecidedBy(s, p, r))
    && (forall k, v, r {:trigger Decided(s, p, k, v), MetCoin(coin, s, p, r)} ::
          Decided(s, p, k, v) && MetCoin(coin, s, p, r) ==> k <= r)
    && (forall k, v {:trigger Decided(s, p, k, v)} :: Decided(s, p, k, v) ==> k < node.r)
    && (node.phase == Stopped ==>
          || BadInput(s, p)
          || (MetCoin(coin, s, p, node.r) && node.decided == Some(coin(node.r)) && !node.listening))
  }

  /** A step that neither ends a CONF wait nor uses a coin. */
  predicate NoCoin(before: NodeState, e: Effect) {
    && e.decision == None && e.node.decided == before.decided && e.node.r == before.r
    && (e.node.phase == AwaitCoin <==> before.phase == AwaitCoin)
    && (before.phase == AwaitCoin ==> e.node.values == before.values)
    && (e.node.phase == Stopped <==> before.phase == Stopped)
    && (e.node.listening ==> before.listening)
  }

  /** The coin is met for the first time: the node decides. It is met again: the node leaves. Otherwise it goes on. */
  predicate CoinUsed(before: NodeState, coin: int, e: Effect) {
    if before.values == {coin} && before.decided == Some(coin) then
      && e.node.phase == Stopped && !e.node.listening && e.node.r == before.r
      && e.decision == None && e.node.decided == before.decided
    else
      && e.node.phase == AwaitBinValue && e.node.r == before.r + 1
      && (if before.values == {coin} && before.decided == None
          then e.decision == Some(coin) && e.node.decided == Some(coin)
          else e.decision == None && e.node.decided == before.decided)
  }

  lemma CoinIsUsed(node: NodeState, coin: Bit)
    requires node.phase == AwaitCoin
    ensures CoinUsed(node, coin, OnCoin(node, coin))
  {
    assert IsBit(coin);
    assert 0 in {0} && 1 in {1} && 0 !in {1};
  }

  lemma CoinEnters(node: NodeState, coin: Bit)
    requires node.phase == AwaitCoin && OnCoin(node, coin).node.phase == AwaitBinValue
    ensures Entering(node, OnCoin(node, coin))
  {
    assert IsBit(coin);
  }

  lemma RestKeepsDue(coin: int -> Bit, s: System, t: System, step: Step, e: Effect)
    requires OwnStep(s, t, step.p, e) && Records(s, t, step, e) && DecisionsDue(coin, s, step.p)
    requires NoCoin(s.nodes[step.p], e) && !step.Input?
    ensures DecisionsDue(coin, t, step.p)
  {
    var p := step.p;
    forall r | MetCoin(coin, t, p, r) && PastCoin(e.node, r) ensures DecidedBy(t, p, r) {
      assert MetCoin(coin, s, p, r);
      var k, v :| k <= r && Decided(s, p, k, v);
      assert Decided(t, p, k, v);
    }
    forall k, v, r | Decided(t, p, k, v) && MetCoin(coin, t, p, r) ensures k <= r {
      assert Decided(s, p, k, v) && MetCoin(coin, s, p, r);
    }
    if e.node.phase == Stopped && !BadInput(s, p) { assert MetCoin(coin, t, p, e.node.r); }
  }

  lemma InputKeepsDue(coin: int -> Bit, s: System, t: System, step: Step, e: Effect)
    requires step.Input? && OwnStep(s, t, step.p, e) && Records(s, t, step, e) && DecisionsDue(coin, s, step.p)
    requires s.nodes[step.p].phase == AwaitInput && s.nodes[step.p].r == 0 && e.node.r == 0 && e.decision == None
    requires e.node.phase == AwaitBinValue || (e.node.phase == Stopped && !IsBit(step.v))
    ensures DecisionsDue(coin, t, step.p)
  {
    var p := step.p;
    forall r, vs ensures !Finished(t, p, r, vs) { assert Finished(s, p, r, vs) ==> PastCoin(s.nodes[p], r); }
    forall r ensures !MetCoin(coin, t, p, r) {}
  }

  lemma ConfKeepsDue(coin: int -> Bit, s: System, t: System, step: Step, e: Effect)
    requires step.ConfQuorum? && OwnStep(s, t, step.p, e) && Records(s, t, step, e) && DecisionsDue(coin, s, step.p)
    requires s.nodes[step.p].phase == AwaitConf && e.node.phase == AwaitCoin && e.node.r == s.nodes[step.p].r
    requires e.decision == None && 0 <= e.node.r
    ensures DecisionsDue(coin, t, step.p)
  {
    var p := step.p;
    forall r | MetCoin(coin, t, p, r) && PastCoin(e.node, r) ensures DecidedBy(t, p, r) {
      assert MetCoin(coin, s, p, r);
      var k, v :| k <= r && Decided(s, p, k, v);
      assert Decided(t, p, k, v);
    }
    forall k, v, r | Decided(t, p, k, v) && MetCoin(coin, t, p, r) ensures k <= r {
      assert Decided(s, p, k, v);
      if r != e.node.r { assert MetCoin(coin, s, p, r); }
    }
  }

  lemma CoinKeepsDue(c: Config, coin: int -> Bit, s: System, t: System, step: Step, e: Effect)
    requires step.Coin? && OwnStep(s, t, step.p, e) && Records(s, t, step, e) && DecisionsDue(coin, s, step.p)
    requires s.nodes.Keys == c.honest && DecisionsInv(c, coin, s) && step.p in c.honest
    requires s.nodes[step.p].phase == AwaitCoin && CoinUsed(s.nodes[step.p], coin(s.nodes[step.p].r), e)
    requires Finished(s, step.p, s.nodes[step.p].r, s.nodes[step.p].values) && 0 <= s.nodes[step.p].r
    ensures DecisionsDue(coin, t, step.p)
  {
    var p, node := step.p, s.nodes[step.p];
    var now := coin(node.r);
    forall r | MetCoin(coin, t, p, r) ensures MetCoin(coin, s, p, r) && (PastCoin(node, r) || r == node.r) {
      assert Finished(s, p, r, {coin(r)});
    }
    forall r | MetCoin(coin, t, p, r) && PastCoin(e.node, r) ensures DecidedBy(t, p, r) {
      CoinDecides(c, coin, s, t, step, e, r);
    }
    forall k, v, r | Decided(t, p, k, v) && MetCoin(coin, t, p, r) ensures k <= r {
      if r < node.r { MetBefore(c, coin, s, p, r); }
    }
    if e.node.phase == Stopped {
      assert node.values == {now};
      assert Finished(t, p, node.r, {now});
      assert MetCoin(coin, t, p, node.r);
    }
  }

  lemma MetBefore(c: Config, coin: int -> Bit, s: System, p: nat, r: int)
    requires s.nodes.Keys == c.honest && DecisionsInv(c, coin, s) && p in c.honest && DecisionsDue(coin, s, p)
    requires MetCoin(coin, s, p, r) && PastCoin(s.nodes[p], r)
    ensures s.nodes[p].decided.Some?
  {
    assert DecidedBy(s, p, r);
    var k, v :| k <= r && Decided(s, p, k, v);
  }

  /** After the coin of round r was met there is a decision, old or new. */
  lemma CoinDecides(c: Config, coin: int -> Bit, s: System, t: System, step: Step, e: Effect, r: int)
    requires step.Coin? && OwnStep(s, t, step.p, e) && Records(s, t, step, e) && DecisionsDue(coin, s, step.p)
    requires s.nodes.Keys == c.honest && DecisionsInv(c, coin, s) && step.p in c.honest
    requires s.nodes[step.p].phase == AwaitCoin && CoinUsed(s.nodes[step.p], coin(s.nodes[step.p].r), e)
    requires MetCoin(coin, s, step.p, r) && r <= s.nodes[step.p].r
    ensures DecidedBy(t, step.p, r)
  {
    var p, node := step.p, s.nodes[step.p];
    if r < node.r {
      assert DecidedBy(s, p, r);
      var k, v :| k <= r && Decided(s, p, k, v);
      assert Decided(t, p, k, v);
    } else {
      assert Finished(s, p, r, {coin(r)}) && node.values == {coin(r)};
      if node.decided == None {
        assert Decided(t, p, r, coin(r));
      } else {
        assert HasDecided(s, p, node.decided.value);
        var k :| Decided(s, p, k, node.decided.value);
        assert Decided(t, p, k, node.decided.value);
      }
    }
  }

  // ---------------------------------------------------------------- every run

  ghost predicate Answered(c: Config, coin: int -> Bit, s: System, p: nat)
    requires p in s.nodes
  {
    VotesAnswered(c, s, p) && AuxAnswered(s, p) && ConfAnswered(s, p) && EntriesSent(s, p) && DecisionsDue(coin, s, p)
  }

  ghost predicate AllAnswered(c: Config, coin: int -> Bit, s: System) {
    && s.nodes.Keys == c.honest
    && (forall p :: p in c.honest ==> Answered(c, coin, s, p))
    && (forall p :: p in c.honest ==> AuxReceived(c, s, s.nodes[p]))
  }

  /** Received AUX votes are what honest nodes sent. */
  ghost predicate AuxReceived(c: Config, s: System, node: NodeState) {
    forall r, v, q :: q in AuxVotes(node, r, v) ==> MayHaveSent(c, s, q, Aux(r, v))
  }

  lemma MessageAuxVotes(f: nat, node: NodeState, q: nat, m: Msg, r: int, v: int)
    ensures var after := OnMessage(f, node, q, m).node;
            AuxVotes(after, r, v) == AuxVotes(node, r, v)
            || (m == Aux(r, v) && AuxVotes(after, r, v) == AuxVotes(node, r, v) + {q})
  {
    hide IsBit, IsConfValue, EstVotes, ConfVotes;
  }

  lemma CoinKeepsAux(node: NodeState, coin: int)
    requires node.phase == AwaitCoin
    ensures OnCoin(node, coin).node.auxValues == node.auxValues
  {
  }

  lemma LoopAuxVotes(c: Config, coin: int -> Bit, s: System, step: Step)
    requires Enabled(c, s, step) && !step.Deliver?
    ensures StepEffect(c, coin, s, step).node.auxValues == s.nodes[step.p].auxValues
  {
    hide AuxOutcome, ConfOutcome, OnMessage, OnCoin, Tuple, Bin, IsBit;
    if step.Coin? { CoinKeepsAux(s.nodes[step.p], coin(s.nodes[step.p].r)); }
  }

  lemma AuxReceivedKept(c: Config, coin: int -> Bit, s: System, step: Step, x: nat)
    requires Enabled(c, s, step) && x in s.nodes && AuxReceived(c, s, s.nodes[x])
    ensures x in Apply(c, coin, s, step).nodes
    ensures AuxReceived(c, Apply(c, coin, s, step), Apply(c, coin, s, step).nodes[x])
  {
    hide OnMessage, StepEffect, AuxOutcome, ConfOutcome;
    var t := Apply(c, coin, s, step);
    if !step.Deliver? { LoopAuxVotes(c, coin, s, step); }
    forall r, v, q | q in AuxVotes(t.nodes[x], r, v) ensures MayHaveSent(c, t, q, Aux(r, v)) {
      if x == step.p && step.Deliver? {
        DeliverIs(c, coin, s, step);
        MessageAuxVotes(c.f, s.nodes[x], step.sender, step.m, r, v);
      }
      assert q in AuxVotes(s.nodes[x], r, v) ==> MayHaveSent(c, s, q, Aux(r, v));
      assert Sent(s, q, Aux(r, v)) ==> Sent(t, q, Aux(r, v));
    }
  }

  lemma DeliverIs(c: Config, coin: int -> Bit, s: System, step: Step)
    requires Enabled(c, s, step) && step.Deliver?
    ensures StepEffect(c, coin, s, step) == OnMessage(c.f, s.nodes[step.p], step.sender, step.m)
    ensures MayHaveSent(c, s, step.sender, step.m)
  {
    hide OnMessage;
  }

  lemma SameViewVotes(c: Config, s: System, t: System, p: nat)
    requires SameView(s, t, p) && VotesAnswered(c, s, p)
    ensures VotesAnswered(c, t, p)
  {
    hide EstVotes, Bin;
  }

  lemma SameViewWaits(s: System, t: System, p: nat)
    requires SameView(s, t, p) && AuxAnswered(s, p) && ConfAnswered(s, p) && EntriesSent(s, p)
    ensures AuxAnswered(t, p) && ConfAnswered(t, p) && EntriesSent(t, p)
  {
    hide Bin, PastBin, PastAuxWait, AuxSentBy, IsConfValue, IsBit, InLoop;
    var node := s.nodes[p];
    forall r, v, w | Sent(t, p, Aux(r, v)) && Sent(t, p, Aux(r, w)) ensures v == w {
      assert Sent(s, p, Aux(r, v)) && Sent(s, p, Aux(r, w));
    }
    forall r | 0 <= r && PastBin(node, r) ensures SentAux(t, p, r) {
      assert SentAux(s, p, r);
      var w :| Sent(s, p, Aux(r, w));
      assert Sent(t, p, Aux(r, w));
    }
    forall r | 0 <= r && PastAuxWait(node, r) ensures SentConf(t, p, r) {
      assert SentConf(s, p, r);
      var vs :| Sent(s, p, Conf(r, vs));
      assert Sent(t, p, Conf(r, vs));
    }
    forall r | 0 <= r <= node.r && InLoop(node) ensures HasEntered(t, p, r) {
      assert HasEntered(s, p, r);
      var x :| Entered(s, p, r, x);
      assert Entered(t, p, r, x);
    }
  }

  lemma SameViewDue(coin: int -> Bit, s: System, t: System, p: nat)
    requires SameView(s, t, p) && DecisionsDue(coin, s, p)
    ensures DecisionsDue(coin, t, p)
  {
    var node := s.nodes[p];
    forall r | MetCoin(coin, t, p, r) && PastCoin(node, r) ensures DecidedBy(t, p, r) {
      assert MetCoin(coin, s, p, r) && DecidedBy(s, p, r);
      var k, v :| k <= r && Decided(s, p, k, v);
      assert Decided(t, p, k, v);
    }
    forall k, v, r | Decided(t, p, k, v) && MetCoin(coin, t, p, r) ensures k <= r {
      assert Decided(s, p, k, v) && MetCoin(coin, s, p, r);
    }
    if node.phase == Stopped && !BadInput(s, p) { assert MetCoin(coin, t, p, node.r); }
  }

  lemma OwnVotesAndWaits(c: Config, coin: int -> Bit, s: System, step: Step, t: System)
    requires Inv(c, coin, s) && Enabled(c, s, step) && t == Apply(c, coin, s, step)
    requires VotesAnswered(c, s, step.p) && AuxAnswered(s, step.p) && ConfAnswered(s, step.p)
    ensures AnswersVotes(c.f, s.nodes[step.p], StepEffect(c, coin, s, step))
    ensures VotesAnswered(c, t, step.p) && AuxAnswered(t, step.p) && ConfAnswered(t, step.p)
  {
    hide VotesAnswered, ConfAnswered, AnswersVotes, AnswersAux, AnswersConf, StepEffect, After, OwnStep, BinAccepted,
         EstReceived, ConfReceived, ConfSentPast;
    var p, node, e := step.p, s.nodes[step.p], StepEffect(c, coin, s, step);
    assert NodeInv(c, s, node);
    OwnIsOwn(s, step, e);
    StepAnswers(c, coin, s, step);
    VotesAnsweredKept(c, s, t, p, e);
    StepAnswersAux(c, coin, s, step);
    AuxAnsweredKept(s, t, p, e);
    if node.phase == AwaitAux { HasBinValue(s, p); }
    StepAnswersConf(c, coin, s, step);
    ConfAnsweredKept(s, t, p, e);
  }

  lemma HasBinValue(s: System, p: nat)
    requires p in s.nodes && AuxAnswered(s, p) && s.nodes[p].phase == AwaitAux && 0 <= s.nodes[p].r
    ensures exists w :: w in Bin(s.nodes[p], s.nodes[p].r)
  {
    var r := s.nodes[p].r;
    assert PastBin(s.nodes[p], r) && SentAux(s, p, r);
    var w :| Sent(s, p, Aux(r, w));
  }

  /** Whether a step enters a round, ends a CONF wait or uses a coin. */
  lemma OwnEntries(c: Config, coin: int -> Bit, s: System, step: Step, e: Effect)
    requires Enabled(c, s, step) && e == StepEffect(c, coin, s, step)
    requires s.nodes[step.p].phase == AwaitInput ==> s.nodes[step.p].r == 0
    ensures if (step.Input? || step.Coin?) && e.node.phase == AwaitBinValue then Entering(s.nodes[step.p], e)
            else SameRound(s.nodes[step.p], e.node)
  {
    hide AuxOutcome, ConfOutcome, OnMessage, IsBit, EstVotes, AuxVotes, ConfVotes, OnCoin;
    var node := s.nodes[step.p];
    match step
    case Deliver(p, q, m) => MessageKeepsLoop(c.f, node, q, m, e);
    case Input(p, v) =>
    case BinValue(p, w) =>
    case AuxQuorum(p) =>
    case ConfQuorum(p) =>
    case Coin(p) =>
      CoinIsUsed(node, coin(node.r));
      if e.node.phase == AwaitBinValue { CoinEnters(node, coin(node.r)); }
  }

  lemma OwnDue(c: Config, coin: int -> Bit, s: System, step: Step, t: System)
    requires Inv(c, coin, s) && Enabled(c, s, step) && t == Apply(c, coin, s, step)
    requires DecisionsDue(coin, s, step.p)
    ensures DecisionsDue(coin, t, step.p)
  {
    hide DecisionsDue, After, OwnStep, Records, OnMessage, OnCoin, AuxOutcome, ConfOutcome, IsBit, DecisionsInv,
         NodeInv, Finished, InputsInv, ConfOnce, EstBacked, EnteredInv;
    var p, node, e := step.p, s.nodes[step.p], StepEffect(c, coin, s, step);
    LoopStart(c, s, p);
    OwnIsOwn(s, step, e);
    OwnRecords(s, step, e);
    match step
    case Deliver(_, q, m) =>
      MessageKeepsLoop(c.f, node, q, m, e);
      RestKeepsDue(coin, s, t, step, e);
    case Input(_, v) => InputKeepsDue(coin, s, t, step, e);
    case BinValue(_, w) => RestKeepsDue(coin, s, t, step, e);
    case AuxQuorum(_) =>
      ConfNotSkipped(c, coin, s, p);
      RestKeepsDue(coin, s, t, step, e);
    case ConfQuorum(_) => ConfKeepsDue(coin, s, t, step, e);
    case Coin(_) =>
      CoinFinished(c, coin, s, p);
      CoinIsUsed(node, coin(node.r));
      CoinKeepsDue(c, coin, s, t, step, e);
  }

  lemma LoopStart(c: Config, s: System, p: nat)
    requires p in s.nodes && NodeInv(c, s, s.nodes[p])
    ensures 0 <= s.nodes[p].r && (s.nodes[p].phase == AwaitInput ==> s.nodes[p].r == 0)
  {
  }

  lemma StepAnswered(c: Config, coin: int -> Bit, s: System, step: Step)
    requires c.Valid() && Inv(c, coin, s) && AllAnswered(c, coin, s) && Enabled(c, s, step)
    ensures AllAnswered(c, coin, Apply(c, coin, s, step))
  {
    hide VotesAnswered, AuxAnswered, ConfAnswered, EntriesSent, DecisionsDue, Enabled, StepEffect, NodeInv, After,
         AuxReceived;
    var t, p, e := Apply(c, coin, s, step), step.p, StepEffect(c, coin, s, step);
    StepMember(c, s, step, e);
    forall q | q in c.honest ensures AuxReceived(c, t, t.nodes[q]) { AuxReceivedKept(c, coin, s, step, q); }
    forall q | q in c.honest ensures Answered(c, coin, t, q) {
      assert Answered(c, coin, s, q);
      if q == p {
        LoopStart(c, s, p);
        OwnVotesAndWaits(c, coin, s, step, t);
        OwnIsOwn(s, step, e);
        OwnRecords(s, step, e);
        OwnEntries(c, coin, s, step, e);
        EntriesSentKept(c.f, s, t, step, e);
        OwnDue(c, coin, s, step, t);
      } else {
        OthersSame(s, step, e, q);
        SameViewVotes(c, s, t, q);
        SameViewWaits(s, t, q);
        SameViewDue(coin, s, t, q);
      }
    }
  }

  lemma StepMember(c: Config, s: System, step: Step, e: Effect)
    requires s.nodes.Keys == c.honest && Enabled(c, s, step)
    ensures step.p in c.honest && step.p in s.nodes && After(s, step, e).nodes.Keys == c.honest
  {
  }

  lemma InitAnswered(c: Config, coin: int -> Bit, s: System)
    requires Init(c, s)
    ensures AllAnswered(c, coin, s)
  {
  }

  lemma {:induction false} RunAnswered(c: Config, coin: int -> Bit, run: seq<System>, i: nat)
    requires c.Valid() && IsRun(c, coin, run) && i < |run|
    ensures Inv(c, coin, run[i]) && AllAnswered(c, coin, run[i])
  {
    hide Inv, AllAnswered, Init;
    RunInv(c, coin, run, i);
    if i == 0 {
      InitAnswered(c, coin, run[0]);
    } else {
      RunAnswered(c, coin, run, i - 1);
      NextAnswered(c, coin, run[i - 1], run[i]);
    }
  }

  lemma NextAnswered(c: Config, coin: int -> Bit, s: System, t: System)
    requires c.Valid() && Inv(c, coin, s) && AllAnswered(c, coin, s) && Next(c, coin, s, t)
    ensures AllAnswered(c, coin, t)
  {
    hide Inv, AllAnswered, Apply, Enabled;
    var step :| Enabled(c, s, step) && t == Apply(c, coin, s, step);
    StepAnswered(c, coin, s, step);
  }
}
