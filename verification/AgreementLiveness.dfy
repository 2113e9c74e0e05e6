// What every run of the binary agreement brings about: who decides and when, which votes are accepted, and that a round
// in which all honest messages have arrived never stands still.
module AgreementLiveness {
  import opened Quorums
  import opened BinaryAgreement
  import opened AgreementRuns
  import opened AgreementTheorems
  import opened AgreementProgress

  // ---------------------------------------------------------------- decisions

  lemma OwnAnswers(c: Config, coin: int -> Bit, s: System, p: nat)
    requires AllAnswered(c, coin, s) && p in c.honest
    ensures p in s.nodes && Answered(c, coin, s, p)
  {
  }

  /** A node decides exactly in the first round whose CONF result is the coin, when it leaves that round. */
  lemma DecidedIff(c: Config, coin: int -> Bit, run: seq<System>, i: nat, p: nat, r: int, v: int)
    requires c.Valid() && IsRun(c, coin, run) && i < |run| && p in c.honest
    ensures p in run[i].nodes
    ensures Decided(run[i], p, r, v) <==>
            && Finished(run[i], p, r, {v}) && v == coin(r) && r < run[i].nodes[p].r
            && forall k :: k < r ==> !Finished(run[i], p, k, {coin(k)})
  {
    hide IsRun, AllAnswered, VotesAnswered, AuxAnswered, ConfAnswered, EntriesSent;
    RunAnswered(c, coin, run, i);
    var s := run[i];
    OwnAnswers(c, coin, s, p);
    if Decided(s, p, r, v) {
      assert MetCoin(coin, s, p, r);
      forall k | k < r ensures !Finished(s, p, k, {coin(k)}) {
        assert MetCoin(coin, s, p, k) ==> r <= k;
      }
    } else if Finished(s, p, r, {v}) && v == coin(r) && r < s.nodes[p].r {
      var k, w := DecisionFor(c, coin, s, p, r);
      assert Finished(s, p, k, {coin(k)});
    }
  }

  lemma DecisionFor(c: Config, coin: int -> Bit, s: System, p: nat, r: int) returns (k: int, w: int)
    requires Inv(c, coin, s) && p in c.honest && DecisionsDue(coin, s, p)
    requires MetCoin(coin, s, p, r) && PastCoin(s.nodes[p], r)
    ensures k <= r && Decided(s, p, k, w) && w == coin(k) && Finished(s, p, k, {w})
  {
    assert DecidedBy(s, p, r);
    k, w :| k <= r && Decided(s, p, k, w);
  }

  /** A node whose CONF wait ended with the coin's value has decided that value once it is past the round. */
  lemma Decides(c: Config, coin: int -> Bit, run: seq<System>, i: nat, p: nat, r: int, v: int)
    requires c.Valid() && IsRun(c, coin, run) && i < |run| && p in c.honest && p in run[i].nodes
    requires Finished(run[i], p, r, {v}) && v == coin(r) && r < run[i].nodes[p].r
    ensures HasDecided(run[i], p, v)
  {
    hide IsRun, AllAnswered, VotesAnswered, AuxAnswered, ConfAnswered, EntriesSent;
    RunAnswered(c, coin, run, i);
    OwnAnswers(c, coin, run[i], p);
    assert MetCoin(coin, run[i], p, r);
    DecidesCoin(c, coin, run[i], p, r);
  }

  /** What a CONF wait ended with alone was an honest estimate of the round. */
  lemma MetWasEstimate(c: Config, coin: int -> Bit, s: System, p: nat, r: int, v: int) returns (h: nat)
    requires c.Valid() && Inv(c, coin, s) && p in c.honest && Finished(s, p, r, {v})
    ensures h in c.honest && Entered(s, h, r, v)
  {
    hide EstBacked, ConfOnce, EnteredInv, DecisionsInv, InputsInv, NodeInv;
    assert v in {v};
    assert FinishedSoundly(c, s, p, r, {v});
    BinValueWasEstimate(c, coin, s, p, r, v);
    h :| h in c.honest && Entered(s, h, r, v);
  }

  /** So it is the value of an earlier decision. */
  lemma MetIsDecided(c: Config, coin: int -> Bit, s: System, p: nat, k: int, w: int, r: int, v: int)
    requires c.Valid() && Inv(c, coin, s) && p in c.honest && Finished(s, p, r, {v}) && Decided(s, p, k, w) && k < r
    ensures v == w
  {
    hide Inv;
    var h := MetWasEstimate(c, coin, s, p, r, v);
    RoundLock(c, coin, s, p, k, w, h, r, v);
  }

  lemma DecidesCoin(c: Config, coin: int -> Bit, s: System, p: nat, r: int)
    requires c.Valid() && Inv(c, coin, s) && p in c.honest && DecisionsDue(coin, s, p)
    requires MetCoin(coin, s, p, r) && PastCoin(s.nodes[p], r)
    ensures HasDecided(s, p, coin(r))
  {
    hide Inv, DecisionsDue, PastCoin;
    var k, w := DecisionFor(c, coin, s, p, r);
    if k < r { MetIsDecided(c, coin, s, p, k, w, r, coin(r)); }
  }

  /** A node that was given a bit leaves the loop only after deciding, in a later round that met the coin again. */
  lemma LeavesDecided(c: Config, coin: int -> Bit, run: seq<System>, i: nat, p: nat)
    requires c.Valid() && IsRun(c, coin, run) && i < |run| && p in c.honest && p in run[i].nodes
    requires run[i].nodes[p].phase == Stopped && (p in run[i].inputs ==> IsBit(run[i].inputs[p]))
    ensures exists k :: k < run[i].nodes[p].r && Decided(run[i], p, k, coin(run[i].nodes[p].r))
    ensures Finished(run[i], p, run[i].nodes[p].r, {coin(run[i].nodes[p].r)})
  {
    hide IsRun, AllAnswered, VotesAnswered, AuxAnswered, ConfAnswered, EntriesSent;
    RunAnswered(c, coin, run, i);
    OwnAnswers(c, coin, run[i], p);
    var s := run[i];
    var v := coin(s.nodes[p].r);
    assert MetCoin(coin, s, p, s.nodes[p].r);
    assert HasDecided(s, p, v);
    var k :| Decided(s, p, k, v);
  }

  // ---------------------------------------------------------------- votes

  /** The thresholds, in every reachable state: f + 1 votes are relayed, and a value is accepted exactly at 2f + 1. */
  lemma Thresholds(c: Config, coin: int -> Bit, run: seq<System>, i: nat, p: nat, r: int, v: int)
    requires c.Valid() && IsRun(c, coin, run) && i < |run| && p in c.honest && p in run[i].nodes
    ensures var node := run[i].nodes[p];
            && (c.f + 1 <= |EstVotes(node, r, v)| ==> (r, v) in node.estSent && Sent(run[i], p, Est(r, v)))
            && (v in Bin(node, r) <==> 2 * c.f + 1 <= |EstVotes(node, r, v)|)
  {
    hide IsRun, AllAnswered, AuxAnswered, ConfAnswered, EntriesSent, DecisionsDue;
    RunAnswered(c, coin, run, i);
    OwnAnswers(c, coin, run[i], p);
    assert NodeInv(c, run[i], run[i].nodes[p]);
  }

  /** The honest nodes whose receive greenlet is alive. */
  ghost function Listeners(c: Config, s: System): (l: set<nat>)
    requires s.nodes.Keys == c.honest
    ensures l <= c.honest
  {
    set p | p in c.honest && s.nodes[p].listening
  }

  ghost function EstSenders(c: Config, s: System, r: int, v: int): (l: set<nat>)
    ensures l <= c.honest
  {
    set p | p in c.honest && Sent(s, p, Est(r, v))
  }

  /** All ESTs that honest nodes sent in round r have arrived at every honest node that listens. */
  ghost predicate EstsArrived(c: Config, s: System, r: int)
    requires s.nodes.Keys == c.honest
  {
    forall p, v :: p in Listeners(c, s) ==> EstSenders(c, s, r, v) <= EstVotes(s.nodes[p], r, v)
  }

  ghost predicate AuxesArrived(c: Config, s: System, r: int)
    requires s.nodes.Keys == c.honest
  {
    forall p, q, v {:trigger p in Listeners(c, s), Sent(s, q, Aux(r, v))} ::
      p in Listeners(c, s) && q in c.honest && Sent(s, q, Aux(r, v)) ==> q in AuxVotes(s.nodes[p], r, v)
  }

  ghost predicate ConfsArrived(c: Config, s: System, r: int)
    requires s.nodes.Keys == c.honest
  {
    forall p, q, vs {:trigger p in Listeners(c, s), Sent(s, q, Conf(r, vs))} ::
      p in Listeners(c, s) && q in c.honest && Sent(s, q, Conf(r, vs)) ==> q in ConfVotes(s.nodes[p], r, vs)
  }

  /** Enough honest nodes can still relay v: they listen, or have sent it already. */
  ghost predicate CanSpread(c: Config, s: System, r: int, v: int)
    requires s.nodes.Keys == c.honest
  {
    2 * c.f + 1 <= |Listeners(c, s) + EstSenders(c, s, r, v)|
  }

  lemma AnswersVotesOf(c: Config, coin: int -> Bit, s: System, p: nat)
    requires AllAnswered(c, coin, s) && p in c.honest
    ensures p in s.nodes && VotesAnswered(c, s, p)
  {
  }

  /** What f + 1 honest nodes sent, every honest node that listens accepts, once the ESTs have arrived. */
  lemma ValueAccepted(c: Config, coin: int -> Bit, s: System, r: int, v: int, p: nat)
    requires c.Valid() && AllAnswered(c, coin, s) && EstsArrived(c, s, r) && CanSpread(c, s, r, v)
    requires c.f + 1 <= |EstSenders(c, s, r, v)| && p in Listeners(c, s)
    ensures v in Bin(s.nodes[p], r)
  {
    hide Answered, EstVotes, Bin;
    forall q | q in Listeners(c, s) ensures q in EstSenders(c, s, r, v) {
      AnswersVotesOf(c, coin, s, q);
      SubsetSize(EstSenders(c, s, r, v), EstVotes(s.nodes[q], r, v));
      assert (r, v) in s.nodes[q].estSent;
    }
    assert Listeners(c, s) + EstSenders(c, s, r, v) == EstSenders(c, s, r, v);
    AnswersVotesOf(c, coin, s, p);
    SubsetSize(EstSenders(c, s, r, v), EstVotes(s.nodes[p], r, v));
  }

  /** Without Byzantine help that condition is needed too: nodes that stopped listening do not relay. */
  lemma SpreadsIff(c: Config, coin: int -> Bit, s: System, r: int, v: int, p: nat)
    requires c.Valid() && Inv(c, coin, s) && AllAnswered(c, coin, s) && s.nodes.Keys == c.honest
    requires EstsArrived(c, s, r) && c.f + 1 <= |EstSenders(c, s, r, v)| && p in Listeners(c, s)
    requires EstVotes(s.nodes[p], r, v) <= c.honest
    ensures v in Bin(s.nodes[p], r) <==> CanSpread(c, s, r, v)
  {
    hide AllAnswered;
    if CanSpread(c, s, r, v) {
      ValueAccepted(c, coin, s, r, v, p);
    } else if v in Bin(s.nodes[p], r) {
      assert NodeInv(c, s, s.nodes[p]);
      assert EstVotes(s.nodes[p], r, v) <= EstSenders(c, s, r, v);
      SubsetSize(EstVotes(s.nodes[p], r, v), Listeners(c, s) + EstSenders(c, s, r, v));
    }
  }

  /** A run is extended by a step. */
  lemma Extend(c: Config, coin: int -> Bit, run: seq<System>, step: Step) returns (longer: seq<System>)
    requires IsRun(c, coin, run) && Enabled(c, run[|run| - 1], step)
    ensures IsRun(c, coin, longer) && longer[|longer| - 1] == Apply(c, coin, run[|run| - 1], step)
  {
    hide Init, Enabled, Apply;
    var s := run[|run| - 1];
    longer := run + [Apply(c, coin, s, step)];
    assert Next(c, coin, s, Apply(c, coin, s, step));
    forall i | 0 <= i < |longer| - 1 ensures Next(c, coin, longer[i], longer[i + 1]) {
      if i < |run| - 1 { assert longer[i] == run[i] && longer[i + 1] == run[i + 1]; }
    }
  }

  /** Nodes 1 and 2 were silenced by a vote that is no bit, and node 1 got the input 1 afterwards. */
  lemma TwoSilenced(c: Config, coin: int -> Bit) returns (run: seq<System>)
    requires c == Config(4, 1, {0, 1, 2})
    ensures IsRun(c, coin, run)
    ensures var s := run[|run| - 1];
            && s.nodes == map[0 := FRESH_NODE, 1 := FRESH_NODE.(listening := false),
                              2 := FRESH_NODE.(listening := false)]
            && s.sent == {}
  {
    var start := map[0 := FRESH_NODE, 1 := FRESH_NODE, 2 := FRESH_NODE];
    run := [System(start, {}, map[], {}, {}, {})];
    run := Extend(c, coin, run, Deliver(1, 3, Aux(0, 5)));
    run := Extend(c, coin, run, Deliver(2, 3, Aux(0, 5)));
  }

  /** What a node is after the input 1. */
  function WithInput(node: NodeState): NodeState { OnInput(node.(phase := AwaitInput), 1).node }

  lemma TwoEntered(c: Config, coin: int -> Bit) returns (run: seq<System>)
    requires c == Config(4, 1, {0, 1, 2})
    ensures IsRun(c, coin, run)
    ensures var s := run[|run| - 1];
            && s.nodes == map[0 := WithInput(FRESH_NODE), 1 := WithInput(FRESH_NODE.(listening := false)),
                              2 := FRESH_NODE.(listening := false)]
            && s.sent == {(0, Est(0, 1)), (1, Est(0, 1))}
  {
    run := TwoSilenced(c, coin);
    run := Extend(c, coin, run, Input(0, 1));
    run := Extend(c, coin, run, Input(1, 1));
  }

  /** Two votes are too few for N = 4, and were relayed before. */
  lemma TwoVotes(node: NodeState)
    requires node == WithInput(FRESH_NODE)
    ensures var first := OnEst(1, node, 0, 0, 1);
            var second := OnEst(1, first.node, 1, 0, 1);
            && first.sent == [] && second.sent == [] && second.node.listening
            && EstVotes(second.node, 0, 1) == {0, 1} && Bin(second.node, 0) == {}
  {
    var first := OnEst(1, node, 0, 0, 1);
    assert EstVotes(node, 0, 1) == {} && EstVotes(first.node, 0, 1) == {0};
    assert EstVotes(OnEst(1, first.node, 1, 0, 1).node, 0, 1) == {0, 1};
  }

  /** Node 0 counts a vote and sends nothing. */
  lemma Hear(c: Config, coin: int -> Bit, run: seq<System>, q: nat) returns (longer: seq<System>)
    requires IsRun(c, coin, run) && 0 in c.honest && 0 in run[|run| - 1].nodes
    requires MayHaveSent(c, run[|run| - 1], q, Est(0, 1))
    requires OnEst(c.f, run[|run| - 1].nodes[0], q, 0, 1).sent == []
    ensures IsRun(c, coin, longer)
    ensures var s := run[|run| - 1];
            longer[|longer| - 1].nodes == s.nodes[0 := OnEst(c.f, s.nodes[0], q, 0, 1).node]
            && longer[|longer| - 1].sent == s.sent
  {
    hide OnEst;
    longer := Extend(c, coin, run, Deliver(0, q, Est(0, 1)));
  }

  /** Node 0 has both votes and has accepted nothing; the other two are silent. */
  ghost predicate HeardBoth(c: Config, s: System) {
    && s.nodes.Keys == c.honest == {0, 1, 2}
    && s.nodes[0].listening && !s.nodes[1].listening && !s.nodes[2].listening
    && EstVotes(s.nodes[0], 0, 1) == {0, 1} && Bin(s.nodes[0], 0) == {}
    && s.sent == {(0, Est(0, 1)), (1, Est(0, 1))}
  }

  lemma InputListens(node: NodeState)
    ensures WithInput(node).listening == node.listening
  {
  }

  lemma TwoHeard(c: Config, coin: int -> Bit) returns (run: seq<System>)
    requires c == Config(4, 1, {0, 1, 2})
    ensures IsRun(c, coin, run) && HeardBoth(c, run[|run| - 1])
  {
    hide OnEst, OnInput, EstVotes, Bin, Init, Next;
    run := TwoEntered(c, coin);
    assert 0 in Ids(c.n) && 1 in Ids(c.n);
    TwoVotes(WithInput(FRESH_NODE));
    InputListens(FRESH_NODE.(listening := false));
    run := Hear(c, coin, run, 0);
    run := Hear(c, coin, run, 1);
  }

  lemma HeardIsStuck(c: Config, s: System)
    requires c == Config(4, 1, {0, 1, 2}) && HeardBoth(c, s)
    ensures EstsArrived(c, s, 0) && 0 in Listeners(c, s)
    ensures c.f + 1 <= |EstSenders(c, s, 0, 1)| && 1 !in Bin(s.nodes[0], 0)
  {
    assert EstSenders(c, s, 0, 1) == {0, 1};
    forall p, v | p in Listeners(c, s) ensures EstSenders(c, s, 0, v) <= EstVotes(s.nodes[p], 0, v) {}
  }

  lemma FourNodes(c: Config)
    requires c == Config(4, 1, {0, 1, 2})
    ensures c.Valid()
  {
    assert Ids(4) == {0, 1, 2, 3};
  }

  /** The condition is needed: here f + 1 honest nodes sent 1 and all ESTs arrived at the one that listens, which does
      not accept 1. */
  lemma SilencedRelays(c: Config, coin: int -> Bit) returns (run: seq<System>)
    requires c == Config(4, 1, {0, 1, 2})
    ensures c.Valid() && IsRun(c, coin, run) && run[|run| - 1].nodes.Keys == c.honest
    ensures EstsArrived(c, run[|run| - 1], 0) && 0 in Listeners(c, run[|run| - 1])
    ensures c.f + 1 <= |EstSenders(c, run[|run| - 1], 0, 1)| && 1 !in Bin(run[|run| - 1].nodes[0], 0)
  {
    hide Init, Next;
    FourNodes(c);
    run := TwoHeard(c, coin);
    HeardIsStuck(c, run[|run| - 1]);
  }

  /** An accepted value was sent by f + 1 honest nodes. */
  lemma AcceptedWasSent(c: Config, coin: int -> Bit, s: System, q: nat, r: int, v: int)
    requires c.Valid() && Inv(c, coin, s) && q in c.honest && v in Bin(s.nodes[q], r)
    ensures c.f + 1 <= |EstSenders(c, s, r, v)|
  {
    assert NodeInv(c, s, s.nodes[q]);
    var votes := EstVotes(s.nodes[q], r, v);
    forall x | x in votes ensures MayHaveSent(c, s, x, Est(r, v)) {}
    HonestPart(c, votes);
    SubsetSize(votes * c.honest, EstSenders(c, s, r, v));
  }

  /** Enough honest nodes listen for every value to spread. */
  ghost predicate EnoughListen(c: Config, s: System)
    requires s.nodes.Keys == c.honest
  {
    2 * c.f + 1 <= |Listeners(c, s)|
  }

  lemma ListenersSpread(c: Config, s: System, r: int, v: int)
    requires s.nodes.Keys == c.honest && EnoughListen(c, s)
    ensures CanSpread(c, s, r, v)
  {
    SubsetSize(Listeners(c, s), Listeners(c, s) + EstSenders(c, s, r, v));
  }

  /** A value accepted by one honest node is accepted by all that listen, once the ESTs have arrived. */
  lemma AcceptedSpreads(c: Config, coin: int -> Bit, s: System, q: nat, p: nat, r: int, v: int)
    requires c.Valid() && Inv(c, coin, s) && AllAnswered(c, coin, s) && EnoughListen(c, s) && EstsArrived(c, s, r)
    requires q in c.honest && v in Bin(s.nodes[q], r) && p in Listeners(c, s)
    ensures v in Bin(s.nodes[p], r)
  {
    hide Inv, AllAnswered, Bin;
    KeysOf(c, coin, s);
    AcceptedWasSent(c, coin, s, q, r, v);
    ListenersSpread(c, s, r, v);
    ValueAccepted(c, coin, s, r, v, p);
  }

  lemma KeysOf(c: Config, coin: int -> Bit, s: System)
    requires AllAnswered(c, coin, s)
    ensures s.nodes.Keys == c.honest
  {
  }

  /** All honest nodes have entered round r. */
  ghost predicate AllEntered(c: Config, s: System, r: int) {
    forall q :: q in c.honest ==> HasEntered(s, q, r)
  }

  lemma EntrySent(c: Config, coin: int -> Bit, s: System, q: nat, r: int)
    requires AllAnswered(c, coin, s) && q in c.honest && HasEntered(s, q, r)
    ensures q in EstSenders(c, s, r, 0) || q in EstSenders(c, s, r, 1)
  {
    hide AuxAnswered, ConfAnswered, DecisionsDue;
    assert Answered(c, coin, s, q);
    var e :| Entered(s, q, r, e);
    assert (r, e) in s.nodes[q].estSent && IsBit(e);
    assert Sent(s, q, Est(r, e));
  }

  /** Once all honest nodes have entered a round, some bit has f + 1 honest senders. */
  lemma SomeBitSent(c: Config, coin: int -> Bit, s: System, r: int) returns (v: int)
    requires c.Valid() && AllAnswered(c, coin, s) && AllEntered(c, s, r)
    ensures c.f + 1 <= |EstSenders(c, s, r, v)|
  {
    hide AllAnswered, EstSenders;
    var zeros, ones := EstSenders(c, s, r, 0), EstSenders(c, s, r, 1);
    forall q | q in c.honest ensures q in zeros + ones { EntrySent(c, coin, s, q, r); }
    SubsetSize(c.honest, zeros + ones);
    UnionSize(zeros, ones);
    v := if |zeros| >= c.f + 1 then 0 else 1;
  }

  lemma UnionSize(a: set<nat>, b: set<nat>)
    ensures |a + b| <= |a| + |b|
  {
    assert |a + b| == |a| + |b| - |a * b|;
  }

  /** The wait for a binary value ends: then some value is accepted by every honest node that listens. */
  lemma BinWaitEnds(c: Config, coin: int -> Bit, s: System, r: int) returns (v: int)
    requires c.Valid() && AllAnswered(c, coin, s) && s.nodes.Keys == c.honest && EnoughListen(c, s)
    requires EstsArrived(c, s, r) && AllEntered(c, s, r)
    ensures forall p :: p in Listeners(c, s) ==> v in Bin(s.nodes[p], r)
  {
    hide AllAnswered, Bin;
    v := SomeBitSent(c, coin, s, r);
    ListenersSpread(c, s, r, v);
    forall p | p in Listeners(c, s) ensures v in Bin(s.nodes[p], r) { ValueAccepted(c, coin, s, r, v, p); }
  }

  // ---------------------------------------------------------------- the waits of a round

  ghost function AuxSenders(c: Config, s: System, r: int, v: int): (l: set<nat>)
    ensures l <= c.honest
  {
    set p | p in c.honest && Sent(s, p, Aux(r, v))
  }

  lemma AuxAccepted(c: Config, coin: int -> Bit, s: System, r: int, q: nat, v: int, p: nat)
    requires c.Valid() && Inv(c, coin, s) && AllAnswered(c, coin, s) && s.nodes.Keys == c.honest
    requires EnoughListen(c, s) && EstsArrived(c, s, r) && p in Listeners(c, s) && q in AuxSenders(c, s, r, v)
    ensures v in Bin(s.nodes[p], r) && IsBit(v)
  {
    hide Inv, EnoughListen, EstsArrived, Bin;
    assert AuxAnswered(s, q) by { assert Answered(c, coin, s, q); }
    assert v in Bin(s.nodes[q], r);
    AcceptedSpreads(c, coin, s, q, p, r, v);
    BitAccepted(c, coin, s, p, r, v);
  }

  lemma BitAccepted(c: Config, coin: int -> Bit, s: System, p: nat, r: int, v: int)
    requires Inv(c, coin, s) && p in c.honest && v in Bin(s.nodes[p], r)
    ensures IsBit(v)
  {
    assert NodeInv(c, s, s.nodes[p]);
  }

  /** Every honest vote is counted by the third AUX test. */
  lemma AuxCounted(c: Config, coin: int -> Bit, s: System, p: nat, v: int)
    requires c.Valid() && Inv(c, coin, s) && AllAnswered(c, coin, s) && s.nodes.Keys == c.honest
    requires p in Listeners(c, s)
    requires EnoughListen(c, s) && EstsArrived(c, s, s.nodes[p].r) && AuxesArrived(c, s, s.nodes[p].r)
    ensures |AuxSenders(c, s, s.nodes[p].r, v)| <= AuxCount(s.nodes[p], v)
  {
    hide Inv, AllAnswered, EnoughListen, EstsArrived, Bin, AuxVotes;
    var r := s.nodes[p].r;
    var senders := AuxSenders(c, s, r, v);
    if q :| q in senders {
      AuxAccepted(c, coin, s, r, q, v, p);
      forall x | x in senders ensures x in AuxVotes(s.nodes[p], r, v) { assert Sent(s, x, Aux(r, v)); }
      SubsetSize(senders, AuxVotes(s.nodes[p], r, v));
    } else {
      assert senders == {};
    }
  }

  /** The AUX wait ends once the votes of all honest nodes have arrived. */
  lemma AuxWaitEnds(c: Config, coin: int -> Bit, s: System, p: nat)
    requires c.Valid() && Inv(c, coin, s) && AllAnswered(c, coin, s) && s.nodes.Keys == c.honest
    requires p in Listeners(c, s) && s.nodes[p].phase == AwaitAux
    requires EnoughListen(c, s) && EstsArrived(c, s, s.nodes[p].r) && AuxesArrived(c, s, s.nodes[p].r)
    requires forall q :: q in c.honest ==> SentAux(s, q, s.nodes[p].r)
    ensures Enabled(c, s, AuxQuorum(p))
  {
    hide Inv, EnoughListen, EstsArrived, AuxesArrived, Bin, AuxVotes, AllAnswered;
    var r := s.nodes[p].r;
    var zeros, ones := AuxSenders(c, s, r, 0), AuxSenders(c, s, r, 1);
    forall q | q in c.honest ensures q in zeros + ones {
      assert SentAux(s, q, r);
      var w :| Sent(s, q, Aux(r, w));
      AuxAccepted(c, coin, s, r, q, w, p);
    }
    SubsetSize(c.honest, zeros + ones);
    UnionSize(zeros, ones);
    AuxCounted(c, coin, s, p, 0);
    AuxCounted(c, coin, s, p, 1);
  }

  ghost function ConfSenders(c: Config, s: System, r: int, vs: seq<int>): (l: set<nat>)
    ensures l <= c.honest
  {
    set p | p in c.honest && Sent(s, p, Conf(r, vs))
  }

  lemma ConfAccepted(c: Config, coin: int -> Bit, s: System, r: int, q: nat, vs: seq<int>, p: nat)
    requires c.Valid() && Inv(c, coin, s) && AllAnswered(c, coin, s) && s.nodes.Keys == c.honest
    requires EnoughListen(c, s) && EstsArrived(c, s, r) && p in Listeners(c, s) && q in ConfSenders(c, s, r, vs)
    ensures IsConfValue(vs) && forall v :: v in vs ==> v in Bin(s.nodes[p], r)
  {
    hide Inv, EnoughListen, EstsArrived, Bin, IsConfValue;
    assert ConfAnswered(s, q) by { assert Answered(c, coin, s, q); }
    assert Sent(s, q, Conf(r, vs));
    forall v | v in vs ensures v in Bin(s.nodes[p], r) {
      assert v in Bin(s.nodes[q], r);
      AcceptedSpreads(c, coin, s, q, p, r, v);
    }
  }

  lemma ConfCounted(c: Config, coin: int -> Bit, s: System, p: nat, vs: seq<int>)
    requires c.Valid() && Inv(c, coin, s) && AllAnswered(c, coin, s) && s.nodes.Keys == c.honest
    requires p in Listeners(c, s)
    requires EnoughListen(c, s) && EstsArrived(c, s, s.nodes[p].r) && ConfsArrived(c, s, s.nodes[p].r)
    ensures |ConfSenders(c, s, s.nodes[p].r, vs)| <= ConfCount(s.nodes[p], vs)
  {
    hide Inv, AllAnswered, EnoughListen, EstsArrived, Bin, ConfVotes, IsConfValue;
    var r := s.nodes[p].r;
    var senders := ConfSenders(c, s, r, vs);
    if q :| q in senders {
      ConfAccepted(c, coin, s, r, q, vs, p);
      forall x | x in senders ensures x in ConfVotes(s.nodes[p], r, vs) { assert Sent(s, x, Conf(r, vs)); }
      SubsetSize(senders, ConfVotes(s.nodes[p], r, vs));
    } else {
      assert senders == {};
    }
  }

  /** The CONF wait ends once the confirmations of all honest nodes have arrived. */
  lemma ConfWaitEnds(c: Config, coin: int -> Bit, s: System, p: nat)
    requires c.Valid() && Inv(c, coin, s) && AllAnswered(c, coin, s) && s.nodes.Keys == c.honest
    requires p in Listeners(c, s) && s.nodes[p].phase == AwaitConf
    requires EnoughListen(c, s) && EstsArrived(c, s, s.nodes[p].r) && ConfsArrived(c, s, s.nodes[p].r)
    requires forall q :: q in c.honest ==> SentConf(s, q, s.nodes[p].r)
    ensures Enabled(c, s, ConfQuorum(p))
  {
    hide Inv, EnoughListen, EstsArrived, ConfsArrived, Bin, ConfVotes, ConfCount, AllAnswered;
    var r := s.nodes[p].r;
    var zeros, ones, both := ConfSenders(c, s, r, [0]), ConfSenders(c, s, r, [1]), ConfSenders(c, s, r, [0, 1]);
    forall q | q in c.honest ensures q in zeros + ones + both {
      assert SentConf(s, q, r);
      var vs :| Sent(s, q, Conf(r, vs));
      ConfAccepted(c, coin, s, r, q, vs, p);
    }
    SubsetSize(c.honest, zeros + ones + both);
    UnionSize(zeros, ones);
    UnionSize(zeros + ones, both);
    ConfCounted(c, coin, s, p, [0]);
    ConfCounted(c, coin, s, p, [1]);
    ConfCounted(c, coin, s, p, [0, 1]);
  }

  // ---------------------------------------------------------------- no standstill

  /** All honest nodes are in the loop and listen, and everything they sent has arrived. */
  ghost predicate Settled(c: Config, s: System)
    requires s.nodes.Keys == c.honest
  {
    && (forall p :: p in c.honest ==> InLoop(s.nodes[p]) && s.nodes[p].listening)
    && (forall r :: EstsArrived(c, s, r) && AuxesArrived(c, s, r) && ConfsArrived(c, s, r))
  }

  /** How far a node has come: its round, then its phase. */
  function Stage(phase: Phase): nat {
    match phase
    case AwaitInput => 0
    case AwaitBinValue => 0
    case AwaitAux => 1
    case AwaitConf => 2
    case AwaitCoin => 3
    case Stopped => 4
  }

  predicate NotAhead(a: NodeState, b: NodeState) {
    a.r < b.r || (a.r == b.r && Stage(a.phase) <= Stage(b.phase))
  }

  lemma {:induction false} LeastAdvanced(c: Config, s: System, group: set<nat>) returns (p: nat)
    requires s.nodes.Keys == c.honest && group <= c.honest && group != {}
    ensures p in group && forall q :: q in group ==> NotAhead(s.nodes[p], s.nodes[q])
    decreases |group|
  {
    var x :| x in group;
    if group == {x} {
      p := x;
    } else {
      var rest := group - {x};
      assert rest != {} by { assert group == rest + {x}; }
      var y := LeastAdvanced(c, s, rest);
      p := if NotAhead(s.nodes[x], s.nodes[y]) then x else y;
      forall q | q in group ensures NotAhead(s.nodes[p], s.nodes[q]) {
        assert q == x || q in rest;
      }
    }
  }

  predicate LoopStep(step: Step) { step.BinValue? || step.AuxQuorum? || step.ConfQuorum? || step.Coin? }

  /** In every reachable state in which all honest nodes are in the loop and everything sent has arrived, a main
      greenlet can move: the node that is furthest behind. */
  lemma NeverStandsStill(c: Config, coin: int -> Bit, run: seq<System>, i: nat) returns (step: Step)
    requires c.Valid() && IsRun(c, coin, run) && i < |run| && run[i].nodes.Keys == c.honest && Settled(c, run[i])
    ensures LoopStep(step) && Enabled(c, run[i], step)
  {
    hide IsRun, Inv, AllAnswered, Settled, Enabled;
    RunAnswered(c, coin, run, i);
    assert c.honest != {};
    var p := LeastAdvanced(c, run[i], c.honest);
    step := Moves(c, coin, run[i], p);
  }

  lemma Moves(c: Config, coin: int -> Bit, s: System, p: nat) returns (step: Step)
    requires c.Valid() && Inv(c, coin, s) && AllAnswered(c, coin, s) && s.nodes.Keys == c.honest && Settled(c, s)
    requires p in c.honest && forall q :: q in c.honest ==> NotAhead(s.nodes[p], s.nodes[q])
    ensures LoopStep(step) && Enabled(c, s, step)
  {
    hide Inv, Bin, AuxOutcome, ConfOutcome, EstsArrived, AuxesArrived, ConfsArrived, VotesAnswered, AllAnswered,
         EnoughListen;
    var node := s.nodes[p];
    SettledListen(c, s);
    Behind(c, coin, s, p);
    match node.phase
    case AwaitBinValue =>
      var v := BinWaitEnds(c, coin, s, node.r);
      step := BinValue(p, v);
    case AwaitAux =>
      AuxWaitEnds(c, coin, s, p);
      step := AuxQuorum(p);
    case AwaitConf =>
      ConfWaitEnds(c, coin, s, p);
      step := ConfQuorum(p);
    case AwaitCoin => step := Coin(p);
  }

  lemma SettledListen(c: Config, s: System)
    requires c.Valid() && s.nodes.Keys == c.honest && Settled(c, s)
    ensures Listeners(c, s) == c.honest && EnoughListen(c, s)
  {
    hide EstsArrived, AuxesArrived, ConfsArrived;
  }

  /** All others have entered the round of the last one, and have sent what it waits for. */
  lemma Behind(c: Config, coin: int -> Bit, s: System, p: nat)
    requires Inv(c, coin, s) && AllAnswered(c, coin, s) && s.nodes.Keys == c.honest && Settled(c, s)
    requires p in c.honest && forall q :: q in c.honest ==> NotAhead(s.nodes[p], s.nodes[q])
    ensures AllEntered(c, s, s.nodes[p].r)
    ensures s.nodes[p].phase == AwaitAux ==> forall q :: q in c.honest ==> SentAux(s, q, s.nodes[p].r)
    ensures s.nodes[p].phase == AwaitConf ==> forall q :: q in c.honest ==> SentConf(s, q, s.nodes[p].r)
  {
    hide VotesAnswered, DecisionsDue, EstsArrived, AuxesArrived, ConfsArrived;
    var r := s.nodes[p].r;
    assert 0 <= r by { assert NodeInv(c, s, s.nodes[p]); }
    forall q | q in c.honest
      ensures HasEntered(s, q, r)
      ensures s.nodes[p].phase == AwaitAux ==> SentAux(s, q, r)
      ensures s.nodes[p].phase == AwaitConf ==> SentConf(s, q, r)
    {
      assert Answered(c, coin, s, q) && NotAhead(s.nodes[p], s.nodes[q]);
      assert InLoop(s.nodes[q]) && InLoop(s.nodes[p]);
      assert HasEntered(s, q, r);
      if s.nodes[p].phase == AwaitAux { assert PastBin(s.nodes[q], r); }
      if s.nodes[p].phase == AwaitConf { assert PastAuxWait(s.nodes[q], r); }
    }
  }

  // ---------------------------------------------------------------- arrival

  /** The vote m of q has been counted. */
  predicate Counted(node: NodeState, q: nat, m: Msg) {
    match m
    case Est(r, v) => q in EstVotes(node, r, v)
    case Aux(r, v) => q in AuxVotes(node, r, v)
    case Conf(r, vs) => q in ConfVotes(node, r, vs)
  }

  /** What an honest node sends passes the receiver's checks. */
  predicate WellFormed(m: Msg) {
    match m
    case Est(_, v) => IsBit(v)
    case Aux(_, v) => IsBit(v)
    case Conf(_, vs) => IsConfValue(vs)
  }

  lemma SentIsWellFormed(c: Config, coin: int -> Bit, s: System, q: nat, m: Msg)
    requires Inv(c, coin, s) && AllAnswered(c, coin, s) && q in c.honest && Sent(s, q, m)
    ensures WellFormed(m)
  {
    hide VotesAnswered, DecisionsDue, IsConfValue;
    assert Answered(c, coin, s, q);
    match m
    case Est(r, v) =>
      assert EnteredWith(c, s, r, v);
      var h :| h in c.honest && Entered(s, h, r, v);
      assert Answered(c, coin, s, h);
    case Aux(r, v) => BitAccepted(c, coin, s, q, r, v);
    case Conf(r, vs) =>
  }

  lemma CountedOnce(f: nat, node: NodeState, q: nat, m: Msg)
    requires node.listening && WellFormed(m) && !Counted(node, q, m)
    ensures OnMessage(f, node, q, m).node.listening && Counted(OnMessage(f, node, q, m).node, q, m)
  {
    hide IsBit, IsConfValue;
  }

  /** A message of an honest node that was not counted yet can be delivered, and then is. */
  lemma DeliveryCounts(c: Config, coin: int -> Bit, s: System, p: nat, q: nat, m: Msg)
    requires Inv(c, coin, s) && AllAnswered(c, coin, s) && s.nodes.Keys == c.honest && c.Valid()
    requires p in c.honest && q in c.honest && s.nodes[p].listening && Sent(s, q, m) && !Counted(s.nodes[p], q, m)
    ensures Enabled(c, s, Deliver(p, q, m))
    ensures var after := Apply(c, coin, s, Deliver(p, q, m)).nodes[p];
            after.listening && Counted(after, q, m)
  {
    hide Inv, AllAnswered, OnMessage, Counted;
    SentIsWellFormed(c, coin, s, q, m);
    CountedOnce(c.f, s.nodes[p], q, m);
    assert q in Ids(c.n);
  }

  lemma MessageKeepsCounted(f: nat, node: NodeState, x: nat, m: Msg, q: nat, k: Msg)
    requires Counted(node, q, k)
    ensures Counted(OnMessage(f, node, x, m).node, q, k)
  {
    hide IsBit, IsConfValue;
  }

  /** Nothing that was counted is lost. */
  lemma StepKeepsCounted(c: Config, coin: int -> Bit, s: System, step: Step, p: nat, q: nat, m: Msg)
    requires Enabled(c, s, step) && p in s.nodes && Counted(s.nodes[p], q, m)
    ensures p in Apply(c, coin, s, step).nodes && Counted(Apply(c, coin, s, step).nodes[p], q, m)
  {
    hide OnMessage, AuxOutcome, ConfOutcome, SetNewEstimate;
    if step.Deliver? && step.p == p { MessageKeepsCounted(c.f, s.nodes[step.p], step.sender, step.m, q, m); }
  }

  /** A step that gets something done: a main greenlet moves, or a message of an honest node is counted for the first
      time. */
  predicate Useful(c: Config, s: System, step: Step) {
    || LoopStep(step)
    || (step.Deliver? && step.sender in c.honest && step.p in s.nodes && s.nodes[step.p].listening
        && Sent(s, step.sender, step.m) && !Counted(s.nodes[step.p], step.sender, step.m))
  }

  /** As long as all honest nodes are in the loop and listen, something useful can happen. */
  lemma AlwaysUseful(c: Config, coin: int -> Bit, run: seq<System>, i: nat) returns (step: Step)
    requires c.Valid() && IsRun(c, coin, run) && i < |run| && run[i].nodes.Keys == c.honest
    requires forall p :: p in c.honest ==> InLoop(run[i].nodes[p]) && run[i].nodes[p].listening
    ensures Useful(c, run[i], step) && Enabled(c, run[i], step)
  {
    hide IsRun, Inv, AllAnswered, Enabled, EstsArrived, AuxesArrived, ConfsArrived, Counted;
    var s := run[i];
    if Settled(c, s) {
      step := NeverStandsStill(c, coin, run, i);
    } else {
      RunAnswered(c, coin, run, i);
      var r :| !(EstsArrived(c, s, r) && AuxesArrived(c, s, r) && ConfsArrived(c, s, r));
      var p, q, m := NotArrived(c, s, r);
      DeliveryCounts(c, coin, s, p, q, m);
      step := Deliver(p, q, m);
    }
  }

  lemma NotArrived(c: Config, s: System, r: int) returns (p: nat, q: nat, m: Msg)
    requires s.nodes.Keys == c.honest && !(EstsArrived(c, s, r) && AuxesArrived(c, s, r) && ConfsArrived(c, s, r))
    ensures p in c.honest && q in c.honest && s.nodes[p].listening && Sent(s, q, m) && !Counted(s.nodes[p], q, m)
  {
    hide EstVotes, AuxVotes, ConfVotes;
    if !EstsArrived(c, s, r) {
      var v;
      p, v :| p in Listeners(c, s) && !(EstSenders(c, s, r, v) <= EstVotes(s.nodes[p], r, v));
      q :| q in EstSenders(c, s, r, v) && q !in EstVotes(s.nodes[p], r, v);
      m := Est(r, v);
    } else if !AuxesArrived(c, s, r) {
      var v;
      p, q, v :| p in Listeners(c, s) && q in c.honest && Sent(s, q, Aux(r, v)) && q !in AuxVotes(s.nodes[p], r, v);
      m := Aux(r, v);
    } else {
      var vs;
      p, q, vs :| p in Listeners(c, s) && q in c.honest && Sent(s, q, Conf(r, vs))
                  && q !in ConfVotes(s.nodes[p], r, vs);
      m := Conf(r, vs);
    }
  }
}
