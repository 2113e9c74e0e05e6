// What each kind of step does in a reachable state of the binary agreement, told by its votes and its quorums.
module AgreementSteps {
  import opened Options
  import opened Quorums
  import opened BinaryAgreement
  import opened AgreementRuns
  import opened AgreementProgress
  import opened AgreementLiveness

  // ---------------------------------------------------------------- deliveries

  /** The votes of `after` are those of `before` and the vote m of q. */
  ghost predicate OneMoreVote(before: NodeState, after: NodeState, q: nat, m: Msg) {
    && (forall r, v :: EstVotes(after, r, v) == EstVotes(before, r, v) + (if m == Est(r, v) then {q} else {}))
    && (forall r, v :: AuxVotes(after, r, v) == AuxVotes(before, r, v) + (if m == Aux(r, v) then {q} else {}))
    && (forall r, vs :: ConfVotes(after, r, vs) == ConfVotes(before, r, vs) + (if m == Conf(r, vs) then {q} else {}))
  }

  lemma NewEstVotes(f: nat, node: NodeState, q: nat, m: Msg, r: int, v: int)
    requires node.listening && WellFormed(m) && !Counted(node, q, m)
    ensures EstVotes(OnMessage(f, node, q, m).node, r, v)
            == EstVotes(node, r, v) + (if m == Est(r, v) then {q} else {})
  {
    hide IsBit, IsConfValue, Bin;
  }

  lemma NewAuxVotes(f: nat, node: NodeState, q: nat, m: Msg, r: int, v: int)
    requires node.listening && WellFormed(m) && !Counted(node, q, m)
    ensures AuxVotes(OnMessage(f, node, q, m).node, r, v)
            == AuxVotes(node, r, v) + (if m == Aux(r, v) then {q} else {})
  {
    hide IsBit, IsConfValue, Bin, EstVotes;
  }

  lemma NewConfVotes(f: nat, node: NodeState, q: nat, m: Msg, r: int, vs: seq<int>)
    requires node.listening && WellFormed(m) && !Counted(node, q, m)
    ensures ConfVotes(OnMessage(f, node, q, m).node, r, vs)
            == ConfVotes(node, r, vs) + (if m == Conf(r, vs) then {q} else {})
  {
    hide IsBit, IsConfValue, Bin, EstVotes;
  }

  lemma NewVote(f: nat, node: NodeState, q: nat, m: Msg)
    requires node.listening && WellFormed(m) && !Counted(node, q, m)
    ensures OneMoreVote(node, OnMessage(f, node, q, m).node, q, m) && OnMessage(f, node, q, m).node.listening
  {
    hide OnMessage, EstVotes, AuxVotes, ConfVotes, WellFormed, Counted;
    CountedOnce(f, node, q, m);
    var after := OnMessage(f, node, q, m).node;
    forall r, v ensures EstVotes(after, r, v) == EstVotes(node, r, v) + (if m == Est(r, v) then {q} else {}) {
      NewEstVotes(f, node, q, m, r, v);
    }
    forall r, v ensures AuxVotes(after, r, v) == AuxVotes(node, r, v) + (if m == Aux(r, v) then {q} else {}) {
      NewAuxVotes(f, node, q, m, r, v);
    }
    forall r, vs ensures ConfVotes(after, r, vs) == ConfVotes(node, r, vs) + (if m == Conf(r, vs) then {q} else {}) {
      NewConfVotes(f, node, q, m, r, vs);
    }
  }

  /** A delivery to a dead receive greenlet does nothing; a malformed message kills it; a vote is counted once, and its
      repetition is ignored for an EST and kills the greenlet otherwise. */
  lemma DeliveryMeans(c: Config, coin: int -> Bit, s: System, p: nat, q: nat, m: Msg)
    requires Enabled(c, s, Deliver(p, q, m))
    ensures p in Apply(c, coin, s, Deliver(p, q, m)).nodes
    ensures var t := Apply(c, coin, s, Deliver(p, q, m));
            var before, after := s.nodes[p], t.nodes[p];
            if !before.listening then t.nodes == s.nodes && t.sent == s.sent
            else if !WellFormed(m) then after == before.(listening := false) && t.sent == s.sent
            else if !Counted(before, q, m) then after.listening && OneMoreVote(before, after, q, m)
            else after == before.(listening := m.Est?) && t.sent == s.sent
  {
    hide OneMoreVote, EstVotes, AuxVotes, ConfVotes;
    var before := s.nodes[p];
    if before.listening && WellFormed(m) && !Counted(before, q, m) { NewVote(c.f, before, q, m); }
    assert s.sent + (set x | x in OnMessage(c.f, before, q, m).sent :: (p, x)) == s.sent
      || (WellFormed(m) && before.listening && !Counted(before, q, m));
  }

  // ---------------------------------------------------------------- the input

  /** A bit starts round 0 with its EST; anything else ends the main greenlet alone. */
  lemma InputMeans(c: Config, coin: int -> Bit, run: seq<System>, i: nat, p: nat, v: int)
    requires c.Valid() && IsRun(c, coin, run) && i < |run| && Enabled(c, run[i], Input(p, v))
    ensures p in Apply(c, coin, run[i], Input(p, v)).nodes
    ensures var t := Apply(c, coin, run[i], Input(p, v));
            if IsBit(v) then
              && t.nodes[p].phase == AwaitBinValue && t.nodes[p].r == 0 && t.nodes[p].est == v
              && Entered(t, p, 0, v) && Sent(t, p, Est(0, v)) && t.nodes[p].listening == run[i].nodes[p].listening
            else t.nodes[p] == run[i].nodes[p].(phase := Stopped) && t.sent == run[i].sent
  {
    hide IsRun, Inv, AllAnswered, VotesAnswered;
    RunAnswered(c, coin, run, i);
    RunKeepsAnswered(c, coin, run[i], Input(p, v));
    var t := Apply(c, coin, run[i], Input(p, v));
    AnswersVotesOf(c, coin, t, p);
    InputStep(c, coin, run[i], p, v);
    if IsBit(v) { EstSentIs(c, t, p, 0, v); }
  }

  lemma InputStep(c: Config, coin: int -> Bit, s: System, p: nat, v: int)
    requires Enabled(c, s, Input(p, v))
    ensures var t := Apply(c, coin, s, Input(p, v));
            && p in t.nodes && p in c.honest
            && if IsBit(v) then
                 && t.nodes[p].phase == AwaitBinValue && t.nodes[p].r == 0 && t.nodes[p].est == v
                 && Entered(t, p, 0, v) && (0, v) in t.nodes[p].estSent && t.nodes[p].listening == s.nodes[p].listening
               else t.nodes[p] == s.nodes[p].(phase := Stopped) && t.sent == s.sent
  {
  }

  lemma EstSentIs(c: Config, s: System, p: nat, r: int, v: int)
    requires p in s.nodes && VotesAnswered(c, s, p) && (r, v) in s.nodes[p].estSent
    ensures Sent(s, p, Est(r, v))
  {
  }

  lemma RunKeepsAnswered(c: Config, coin: int -> Bit, s: System, step: Step)
    requires c.Valid() && Inv(c, coin, s) && AllAnswered(c, coin, s) && Enabled(c, s, step)
    ensures Inv(c, coin, Apply(c, coin, s, step)) && AllAnswered(c, coin, Apply(c, coin, s, step))
  {
    hide Inv, AllAnswered, Enabled, Apply;
    StepInv(c, coin, s, step);
    StepAnswered(c, coin, s, step);
  }

  // ---------------------------------------------------------------- the quorums

  /** Two values cannot both have n - f AUX votes, so the order of the first two AUX tests does not matter. */
  lemma OneAuxQuorum(c: Config, coin: int -> Bit, s: System, p: nat, r: int, v: int, w: int)
    requires c.Valid() && Inv(c, coin, s) && AllAnswered(c, coin, s) && p in c.honest
    requires c.n - c.f <= |AuxVotes(s.nodes[p], r, v)| && c.n - c.f <= |AuxVotes(s.nodes[p], r, w)|
    ensures v == w
  {
    hide Inv, VotesAnswered, ConfAnswered, EntriesSent, DecisionsDue, AuxVotes;
    KeysOf(c, coin, s);
    var node := s.nodes[p];
    assert AuxReceived(c, s, node);
    var votes, others := AuxVotes(node, r, v), AuxVotes(node, r, w);
    forall q | q in votes ensures q < c.n { assert MayHaveSent(c, s, q, Aux(r, v)); }
    forall q | q in others ensures q < c.n { assert MayHaveSent(c, s, q, Aux(r, w)); }
    var h := QuorumsMeet(c, votes, others);
    assert Sent(s, h, Aux(r, v)) && Sent(s, h, Aux(r, w));
    assert Answered(c, coin, s, h);
  }

  /** Nor n - f CONF votes for two different tuples. */
  lemma OneConfQuorum(c: Config, coin: int -> Bit, s: System, p: nat, r: int, vs: seq<int>, ws: seq<int>)
    requires c.Valid() && Inv(c, coin, s) && p in c.honest
    requires c.n - c.f <= |ConfVotes(s.nodes[p], r, vs)| && c.n - c.f <= |ConfVotes(s.nodes[p], r, ws)|
    ensures vs == ws
  {
    hide ConfVotes;
    assert NodeInv(c, s, s.nodes[p]);
    var votes, others := ConfVotes(s.nodes[p], r, vs), ConfVotes(s.nodes[p], r, ws);
    forall q | q in votes ensures q < c.n { assert MayHaveSent(c, s, q, Conf(r, vs)); }
    forall q | q in others ensures q < c.n { assert MayHaveSent(c, s, q, Conf(r, ws)); }
    var h := QuorumsMeet(c, votes, others);
    assert Sent(s, h, Conf(r, vs)) && Sent(s, h, Conf(r, ws));
  }

  /** The end of the AUX wait in a reachable state: the result is {v} exactly if v is accepted with n - f AUX votes, and
      {0, 1} otherwise; the CONF sent lists exactly the accepted values. */
  lemma AuxQuorumMeans(c: Config, coin: int -> Bit, run: seq<System>, i: nat, p: nat, v: int)
    requires c.Valid() && IsRun(c, coin, run) && i < |run| && Enabled(c, run[i], AuxQuorum(p)) && IsBit(v)
    ensures p in Apply(c, coin, run[i], AuxQuorum(p)).nodes
    ensures var t, node := Apply(c, coin, run[i], AuxQuorum(p)), run[i].nodes[p];
            var after := t.nodes[p];
            && after.phase == AwaitConf && after.r == node.r
            && (after.values == {v} <==> v in Bin(node, node.r) && c.n - c.f <= |AuxVotes(node, node.r, v)|)
            && (after.values == {0} || after.values == {1} || after.values == {0, 1})
            && (exists vs :: t.sent == run[i].sent + {(p, Conf(node.r, vs))} && Lists(vs, Bin(node, node.r)))
  {
    hide IsRun, AllAnswered, VotesAnswered, DecisionsDue, NodeInv, EstBacked, ConfOnce, FinishedInv, EnteredInv,
         DecisionsInv;
    RunAnswered(c, coin, run, i);
    var s := run[i];
    ConfNotSkipped(c, coin, s, p);
    if c.n - c.f <= |AuxVotes(s.nodes[p], s.nodes[p].r, 0)| && c.n - c.f <= |AuxVotes(s.nodes[p], s.nodes[p].r, 1)| {
      OneAuxQuorum(c, coin, s, p, s.nodes[p].r, 0, 1);
    }
    AuxQuorumStep(c, coin, s, p, v);
    BinListed(c, coin, s, p);
  }

  /** vs lists the members of b in increasing order. */
  ghost predicate Lists(vs: seq<int>, b: set<int>) {
    (forall v :: v in vs <==> v in b) && forall i, j :: 0 <= i < j < |vs| ==> vs[i] < vs[j]
  }

  lemma BinListed(c: Config, coin: int -> Bit, s: System, p: nat)
    requires Inv(c, coin, s) && p in c.honest
    ensures Lists(Tuple(Bin(s.nodes[p], s.nodes[p].r)), Bin(s.nodes[p], s.nodes[p].r))
  {
    var node := s.nodes[p];
    assert NodeInv(c, s, node);
    BinBits(c.f, node, node.r);
  }

  lemma AuxQuorumStep(c: Config, coin: int -> Bit, s: System, p: nat, v: int)
    requires Enabled(c, s, AuxQuorum(p)) && IsBit(v)
    requires OnAuxQuorum(c.n, c.f, s.nodes[p]).node.phase == AwaitConf
    requires !(c.n - c.f <= |AuxVotes(s.nodes[p], s.nodes[p].r, 0)|
               && c.n - c.f <= |AuxVotes(s.nodes[p], s.nodes[p].r, 1)|)
    ensures var t, node := Apply(c, coin, s, AuxQuorum(p)), s.nodes[p];
            && p in t.nodes
            && var after := t.nodes[p];
            && after.phase == AwaitConf && after.r == node.r
            && (after.values == {v} <==> v in Bin(node, node.r) && c.n - c.f <= |AuxVotes(node, node.r, v)|)
            && (after.values == {0} || after.values == {1} || after.values == {0, 1})
            && t.sent == s.sent + {(p, Conf(node.r, Tuple(Bin(node, node.r))))}
  {
    hide Tuple, Bin, AuxVotes;
    assert 0 in {0} && 0 !in {1} && 0 in {0, 1} && 1 in {0, 1} && 1 !in {0};
  }

  /** The end of the CONF wait in a reachable state: the result is {v} exactly if v is accepted and was confirmed alone
      by n - f nodes, and {0, 1} otherwise. */
  lemma ConfQuorumMeans(c: Config, coin: int -> Bit, run: seq<System>, i: nat, p: nat, v: int)
    requires c.Valid() && IsRun(c, coin, run) && i < |run| && Enabled(c, run[i], ConfQuorum(p)) && IsBit(v)
    ensures p in Apply(c, coin, run[i], ConfQuorum(p)).nodes
    ensures var t, node := Apply(c, coin, run[i], ConfQuorum(p)), run[i].nodes[p];
            var after := t.nodes[p];
            && after.phase == AwaitCoin && after.r == node.r && t.sent == run[i].sent
            && Finished(t, p, node.r, after.values)
            && (after.values == {v} <==> v in Bin(node, node.r) && c.n - c.f <= |ConfVotes(node, node.r, [v])|)
            && (after.values == {0} || after.values == {1} || after.values == {0, 1})
  {
    hide IsRun, Inv;
    RunInv(c, coin, run, i);
    var s := run[i];
    NotBothConfirmed(c, coin, s, p, s.nodes[p].r);
    ConfQuorumStep(c, coin, s, p, v);
  }

  lemma NotBothConfirmed(c: Config, coin: int -> Bit, s: System, p: nat, r: int)
    requires c.Valid() && Inv(c, coin, s) && p in c.honest
    ensures !(c.n - c.f <= |ConfVotes(s.nodes[p], r, [0])| && c.n - c.f <= |ConfVotes(s.nodes[p], r, [1])|)
  {
    hide Inv, ConfVotes;
    var zero, one := [0], [1];
    assert zero[0] != one[0];
    KeysIn(c, coin, s);
    if c.n - c.f <= |ConfVotes(s.nodes[p], r, zero)| && c.n - c.f <= |ConfVotes(s.nodes[p], r, one)| {
      OneConfQuorum(c, coin, s, p, r, zero, one);
    }
  }

  lemma KeysIn(c: Config, coin: int -> Bit, s: System)
    requires Inv(c, coin, s)
    ensures s.nodes.Keys == c.honest
  {
  }

  lemma ConfQuorumStep(c: Config, coin: int -> Bit, s: System, p: nat, v: int)
    requires Enabled(c, s, ConfQuorum(p)) && IsBit(v)
    requires !(c.n - c.f <= |ConfVotes(s.nodes[p], s.nodes[p].r, [0])|
               && c.n - c.f <= |ConfVotes(s.nodes[p], s.nodes[p].r, [1])|)
    ensures var t, node := Apply(c, coin, s, ConfQuorum(p)), s.nodes[p];
            && p in t.nodes
            && var after := t.nodes[p];
            && after.phase == AwaitCoin && after.r == node.r && t.sent == s.sent
            && Finished(t, p, node.r, after.values)
            && (after.values == {v} <==> v in Bin(node, node.r) && c.n - c.f <= |ConfVotes(node, node.r, [v])|)
            && (after.values == {0} || after.values == {1} || after.values == {0, 1})
  {
    hide Bin, ConfVotes;
    assert 0 in {0} && 0 !in {1} && 0 in {0, 1} && 1 in {0, 1} && 1 !in {0};
  }

  // ---------------------------------------------------------------- the coin

  /** The use of the coin in a reachable state. A single value that is the coin is decided the first time and ends the
      node the second time; else the node enters the next round with that value, or with the coin if it had both. */
  lemma CoinMeans(c: Config, coin: int -> Bit, run: seq<System>, i: nat, p: nat)
    requires c.Valid() && IsRun(c, coin, run) && i < |run| && Enabled(c, run[i], Coin(p))
    ensures p in Apply(c, coin, run[i], Coin(p)).nodes
    ensures var t, node := Apply(c, coin, run[i], Coin(p)), run[i].nodes[p];
            var after, now := t.nodes[p], coin(node.r);
            && Finished(run[i], p, node.r, node.values)
            && if node.values == {now} && HasDecided(run[i], p, now) then
                 && after == node.(phase := Stopped, listening := false)
                 && t.sent == run[i].sent && t.decisions == run[i].decisions
               else
                 && after.phase == AwaitBinValue && after.r == node.r + 1 && after.listening == node.listening
                 && after.est == (if node.values == {0} then 0 else if node.values == {1} then 1 else now)
                 && Entered(t, p, after.r, after.est) && Sent(t, p, Est(after.r, after.est))
                 && t.decisions == run[i].decisions + (if node.values == {now} then {(p, node.r, now)} else {})
  {
    hide IsRun, AllAnswered, VotesAnswered, DecisionsDue, NodeInv, EstBacked, ConfOnce, FinishedInv, EnteredInv,
         DecisionsInv;
    RunAnswered(c, coin, run, i);
    var s := run[i];
    var t, node := Apply(c, coin, s, Coin(p)), s.nodes[p];
    CoinFinished(c, coin, s, p);
    RunKeepsAnswered(c, coin, s, Coin(p));
    AnswersVotesOf(c, coin, t, p);
    DecidedIs(c, coin, run, i, p);
    CoinStep(c, coin, s, p);
    if t.nodes[p].phase == AwaitBinValue { EstSentIs(c, t, p, t.nodes[p].r, t.nodes[p].est); }
  }

  /** In the phase of the coin `already_decided` is the coin, is None, or the result is not the coin. */
  lemma DecidedIs(c: Config, coin: int -> Bit, run: seq<System>, i: nat, p: nat)
    requires c.Valid() && IsRun(c, coin, run) && i < |run| && Enabled(c, run[i], Coin(p))
    ensures var s, node := run[i], run[i].nodes[p];
            var now := coin(node.r);
            && (node.decided == Some(now) <==> HasDecided(s, p, now))
            && (node.values == {now} && node.decided.Some? ==> node.decided == Some(now))
  {
    hide IsRun, AllAnswered, VotesAnswered, AuxAnswered, ConfAnswered, EntriesSent, NodeInv, EstBacked, ConfOnce;
    RunAnswered(c, coin, run, i);
    var s, node := run[i], run[i].nodes[p];
    OwnAnswers(c, coin, s, p);
    var now := coin(node.r);
    if node.decided == Some(now) { assert HasDecided(s, p, now); }
    if HasDecided(s, p, now) {
      var k :| Decided(s, p, k, now);
    }
    if node.values == {now} && node.decided.Some? {
      CoinFinished(c, coin, s, p);
      assert HasDecided(s, p, node.decided.value);
      var k :| Decided(s, p, k, node.decided.value);
      DecidedAgain(c, coin, s, p, k, node.decided.value, node.r);
    }
  }

  lemma DecidedAgain(c: Config, coin: int -> Bit, s: System, p: nat, k: int, w: int, r: int)
    requires c.Valid() && Inv(c, coin, s) && p in c.honest && DecisionsDue(coin, s, p)
    requires Decided(s, p, k, w) && r == s.nodes[p].r && Finished(s, p, r, {coin(r)})
    ensures w == coin(r)
  {
    hide Inv, MetCoin, DecidedBy;
    MetIsDecided(c, coin, s, p, k, w, r, coin(r));
  }

  lemma CoinStep(c: Config, coin: int -> Bit, s: System, p: nat)
    requires Enabled(c, s, Coin(p))
    requires s.nodes[p].values == {coin(s.nodes[p].r)} && s.nodes[p].decided.Some? ==>
               s.nodes[p].decided == Some(coin(s.nodes[p].r))
    ensures var t, node := Apply(c, coin, s, Coin(p)), s.nodes[p];
            && p in t.nodes && p in c.honest
            && var after, now := t.nodes[p], coin(node.r);
            if node.values == {now} && node.decided == Some(now) then
              && after == node.(phase := Stopped, listening := false)
              && t.sent == s.sent && t.decisions == s.decisions
            else
              && after.phase == AwaitBinValue && after.r == node.r + 1 && after.listening == node.listening
              && after.est == (if node.values == {0} then 0 else if node.values == {1} then 1 else now)
              && Entered(t, p, after.r, after.est) && (after.r, after.est) in after.estSent
              && t.decisions == s.decisions + (if node.values == {now} then {(p, node.r, now)} else {})
  {
    var now := coin(s.nodes[p].r);
    assert IsBit(now);
    assert 0 in {0} && 1 in {1} && 0 !in {1};
  }
}
