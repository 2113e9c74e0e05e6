// Agreement, validity and totality of the reliable broadcast, for every run.
module BroadcastTheorems {
  import opened Options
  import opened Quorums
  import opened Merkle
  import opened Erasure
  import opened Padding
  import opened ReliableBroadcast
  import opened BroadcastRuns

  /** All honest READYs of a run carry one root: their echo quorums share an honest node. */
  lemma OneReadyRoot(c: Config, b: Params, s: System, p: nat, q: nat)
    requires Fits(c, b) && Inv(c, b, s) && p in s.readyRoot && q in s.readyRoot
    ensures s.readyRoot[p] == s.readyRoot[q]
  {
    var h := QuorumsMeet(c, EchoBackers(c, s, s.readyRoot[p]), EchoBackers(c, s, s.readyRoot[q]));
    assert EchoBacker(c, s, h, s.readyRoot[p]) && EchoBacker(c, s, h, s.readyRoot[q]);
  }

  /** A node at the output guard for `root` has an honest READY for it and K verified stripes. */
  lemma GuardMeans(c: Config, b: Params, s: System, p: nat, root: Bytes) returns (h: nat)
    requires Fits(c, b) && Inv(c, b, s) && p in c.honest && OutputGuard(b, s.nodes[p], root)
    ensures h in c.honest && h in s.readyRoot && s.readyRoot[h] == root
    ensures |Row(c.n, s.nodes[p], root)| == c.n && AllVerified(root, Row(c.n, s.nodes[p], root))
    ensures b.K() <= PresentFrom(Row(c.n, s.nodes[p], root), 0)
  {
    var node := s.nodes[p];
    assert NodeInv(c, b, s, node);
    assert |Row(c.n, node, root)| == c.n && AllVerified(root, Row(c.n, node, root));
    assert Count(node, root) == PresentFrom(Row(c.n, node, root), 0);
    forall q | q in ReadyFor(node, root) ensures ReadyBacker(c, s, q, root) {}
    h := HonestMember(c, ReadyFor(node, root));
    assert ReadyBacker(c, s, h, root);
  }

  /** The root that ended a node's loop. */
  lemma HaltingRoot(c: Config, b: Params, s: System, p: nat) returns (root: Bytes)
    requires Fits(c, b) && Inv(c, b, s) && p in c.honest && s.nodes[p].outcome != Running
    ensures OutputGuard(b, s.nodes[p], root)
    ensures s.nodes[p].outcome == Output(b, Row(b.n, s.nodes[p], root), root)
  {
    assert NodeInv(c, b, s, s.nodes[p]);
    root :| OutputGuard(b, s.nodes[p], root) && s.nodes[p].outcome == Output(b, Row(b.n, s.nodes[p], root), root);
  }

  lemma AgreementInState(c: Config, b: Params, s: System, p: nat, q: nat)
    requires Fits(c, b) && Inv(c, b, s) && p in c.honest && q in c.honest
    requires s.nodes[p].outcome != Running && s.nodes[q].outcome != Running
    ensures s.nodes[p].outcome == s.nodes[q].outcome
  {
    var rp := HaltingRoot(c, b, s, p);
    var rq := HaltingRoot(c, b, s, q);
    var hp := GuardMeans(c, b, s, p, rp);
    var hq := GuardMeans(c, b, s, q, rq);
    OneReadyRoot(c, b, s, hp, hq);
    OutputDependsOnRoot(b.code, b.K(), b.n, rp, Row(c.n, s.nodes[p], rp), Row(c.n, s.nodes[q], rp));
  }

  lemma OutcomeStep(c: Config, b: Params, s: System, s': System, p: nat)
    requires Fits(c, b) && Next(c, b, s, s') && p in s.nodes && p in s'.nodes
    ensures s.nodes[p].outcome != Running ==> s'.nodes[p] == s.nodes[p]
  {
  }

  lemma {:induction false} OutcomesStay(c: Config, b: Params, run: seq<System>, i: nat, j: nat, p: nat)
    requires Fits(c, b) && IsRun(c, b, run) && i <= j < |run|
    requires forall k :: 0 <= k < |run| ==> p in run[k].nodes
    ensures run[i].nodes[p].outcome != Running ==> run[j].nodes[p].outcome == run[i].nodes[p].outcome
  {
    if i < j {
      OutcomesStay(c, b, run, i, j - 1, p);
      OutcomeStep(c, b, run[j - 1], run[j], p);
    }
  }

  /** Agreement: two honest nodes that return, whenever they do, return the same message;
      and if one of them fails the re-encoding check, so does the other. */
  lemma Agreement(c: Config, b: Params, run: seq<System>, i: nat, j: nat, p: nat, q: nat)
    requires Fits(c, b) && IsRun(c, b, run) && i < |run| && j < |run|
    requires p in c.honest && q in c.honest && p in run[i].nodes && q in run[j].nodes
    requires run[i].nodes[p].outcome != Running && run[j].nodes[q].outcome != Running
    ensures run[i].nodes[p].outcome == run[j].nodes[q].outcome
  {
    var last := |run| - 1;
    forall k | 0 <= k < |run| ensures Inv(c, b, run[k]) { RunInv(c, b, run, k); }
    OutcomesStay(c, b, run, i, last, p);
    OutcomesStay(c, b, run, j, last, q);
    AgreementInState(c, b, run[last], p, q);
  }

  /** With an honest leader every READY root is the root of its input. */
  lemma ReadyIsLeaders(c: Config, b: Params, s: System, h: nat)
    requires Fits(c, b) && Inv(c, b, s) && b.leader in c.honest && h in s.readyRoot
    ensures s.input.Some? && IsHonestRoot(b, s.input.value, s.readyRoot[h])
  {
    var x := HonestMember(c, EchoBackers(c, s, s.readyRoot[h]));
    assert EchoBacker(c, s, x, s.readyRoot[h]);
  }

  /** How the loop ends under the root of m's encoding. */
  function HonestOutcome(k: nat, m: Bytes): Outcome
    requires 1 <= k <= 256
  {
    match HonestOutput(k, m)
    case Some(x) => Returned(x)
    case None => Raised
  }

  lemma ValidityInState(c: Config, b: Params, s: System, p: nat)
    requires Fits(c, b) && Inv(c, b, s) && b.leader in c.honest
    requires p in c.honest && s.nodes[p].outcome != Running
    ensures s.input.Some? && s.nodes[p].outcome == HonestOutcome(b.K(), s.input.value)
    ensures s.nodes[p].outcome == Returned(s.input.value) <==> PadRecoverable(b.K(), |s.input.value|)
  {
    hide HonestOutput, PadRecoverable, DecodeOutput;
    var root := HaltingRoot(c, b, s, p);
    var h := GuardMeans(c, b, s, p, root);
    ReadyIsLeaders(c, b, s, h);
    OutputIs(b.code, b.K(), b.n, s.input.value, Row(c.n, s.nodes[p], root));
    HonestOutputIff(b.K(), s.input.value);
  }

  /** Validity: with an honest leader the loop ends in the leader's input exactly when the padding of that input is
      recoverable, which it always is for K <= 128; otherwise in its mimic, or in the failure of the re-encoding
      check. */
  lemma Validity(c: Config, b: Params, run: seq<System>, i: nat, p: nat)
    requires Fits(c, b) && IsRun(c, b, run) && i < |run| && b.leader in c.honest
    requires p in c.honest && p in run[i].nodes && run[i].nodes[p].outcome != Running
    ensures run[i].input.Some? && run[i].nodes[p].outcome == HonestOutcome(b.K(), run[i].input.value)
    ensures run[i].nodes[p].outcome == Returned(run[i].input.value) <==> PadRecoverable(b.K(), |run[i].input.value|)
    ensures b.K() <= 128 ==> run[i].nodes[p].outcome == Returned(run[i].input.value)
  {
    hide HonestOutcome;
    RunInv(c, b, run, i);
    ValidityInState(c, b, run[i], p);
  }

  // ---------------------------------------------------------------- totality

  /** Every message between honest nodes has been taken by its receiver, or the receiver has returned. */
  ghost predicate Quiescent(c: Config, s: System)
    requires s.nodes.Keys == c.honest
  {
    forall q, p, m {:trigger Sent(s, q, p, m)} ::
      q in c.honest && p in c.honest && Sent(s, q, p, m) && s.nodes[p].outcome == Running ==>
        Envelope(q, p, m) in s.delivered
  }

  /** A node that returned has announced READY. */
  lemma HaltedWasReady(c: Config, b: Params, s: System, p: nat)
    requires Fits(c, b) && Inv(c, b, s) && p in c.honest && s.nodes[p].outcome != Running
    ensures p in s.readyRoot
  {
    var root := HaltingRoot(c, b, s, p);
    assert NodeInv(c, b, s, s.nodes[p]);
    assert b.f + 1 <= |ReadyFor(s.nodes[p], root)|;
  }

  /** In a quiescent state the READY of an honest node has reached every node that still listens. */
  lemma ReadyArrived(c: Config, b: Params, s: System, h: nat, p: nat)
    requires Fits(c, b) && Inv(c, b, s) && Quiescent(c, s)
    requires h in c.honest && h in s.readyRoot && p in c.honest && s.nodes[p].outcome == Running
    ensures h in ReadyFor(s.nodes[p], s.readyRoot[h])
  {
    assert p in Ids(c.n);
    assert Sent(s, h, p, Ready(s.readyRoot[h]));
    assert Absorbed(c, b, s, h, p, Ready(s.readyRoot[h]));
  }

  lemma EchoArrived(c: Config, b: Params, s: System, h: nat, p: nat, root: Bytes)
    requires Fits(c, b) && Inv(c, b, s) && Quiescent(c, s)
    requires h in c.honest && s.nodes[h].fromLeader == Some(root) && p in c.honest && s.nodes[p].outcome == Running
    ensures h < |Row(c.n, s.nodes[p], root)| && Row(c.n, s.nodes[p], root)[h].Some?
  {
    assert p in Ids(c.n);
    assert EchoSentTo(c, s, h, root);
    var branch, stripe :| EchoAtAll(c, s, h, root, branch, stripe);
    assert Sent(s, h, p, Echo(root, branch, stripe));
    assert Absorbed(c, b, s, h, p, Echo(root, branch, stripe));
  }

  /** Enough honest READYs for `root` amplify to READYs of all honest nodes. */
  lemma AllReady(c: Config, b: Params, s: System, root: Bytes, ready: set<nat>)
    requires Fits(c, b) && Inv(c, b, s) && Quiescent(c, s)
    requires ready <= c.honest && c.f + 1 <= |ready|
    requires forall h :: h in ready ==> h in s.readyRoot && s.readyRoot[h] == root
    ensures forall p :: p in c.honest ==> p in s.readyRoot && s.readyRoot[p] == root
  {
    var h0 :| h0 in ready;
    forall p | p in c.honest ensures p in s.readyRoot && s.readyRoot[p] == root {
      if s.nodes[p].outcome == Running {
        forall h | h in ready ensures h in ReadyFor(s.nodes[p], root) { ReadyArrived(c, b, s, h, p); }
        SubsetSize(ready, ReadyFor(s.nodes[p], root));
        assert NodeInv(c, b, s, s.nodes[p]);
        assert c.f + 1 <= |ReadyFor(s.nodes[p], root)|;
      } else {
        HaltedWasReady(c, b, s, p);
      }
      OneReadyRoot(c, b, s, p, h0);
    }
  }

  /** When all honest nodes are ready for `root`, all of them are past the output guard. */
  lemma AllHalt(c: Config, b: Params, s: System, root: Bytes, p: nat)
    requires Fits(c, b) && Inv(c, b, s) && Quiescent(c, s) && p in c.honest
    requires forall h :: h in c.honest ==> h in s.readyRoot && s.readyRoot[h] == root
    ensures s.nodes[p].outcome != Running
  {
    var node := s.nodes[p];
    if node.outcome == Running {
      var row := Row(c.n, node, root);
      forall h | h in c.honest ensures h in ReadyFor(node, root) { ReadyArrived(c, b, s, h, p); }
      SubsetSize(c.honest, ReadyFor(node, root));
      HonestPart(c, EchoBackers(c, s, root));
      var echoers := EchoBackers(c, s, root) * c.honest;
      assert c.n - c.f <= |EchoBackers(c, s, root)| by { assert s.readyRoot[p] == root; }
      forall h | h in echoers ensures h in PresentSet(row, 0) {
        assert EchoBacker(c, s, h, root);
        EchoArrived(c, b, s, h, p, root);
      }
      SubsetSize(echoers, PresentSet(row, 0));
      PresentCount(row, 0);
      RunningBelowGuard(c, b, s, p, root);
    }
  }

  lemma RunningBelowGuard(c: Config, b: Params, s: System, p: nat, root: Bytes)
    requires Fits(c, b) && Inv(c, b, s) && p in c.honest && s.nodes[p].outcome == Running
    ensures |ReadyFor(s.nodes[p], root)| < 2 * c.f + 1 || PresentFrom(Row(c.n, s.nodes[p], root), 0) < b.K()
  {
    assert NodeInv(c, b, s, s.nodes[p]);
    assert !OutputGuard(b, s.nodes[p], root);
    assert Count(s.nodes[p], root) == PresentFrom(Row(c.n, s.nodes[p], root), 0);
  }

  /** Among the READYs of a node at the output guard f + 1 are honest. */
  lemma HonestReadies(c: Config, b: Params, s: System, p: nat, root: Bytes) returns (ready: set<nat>)
    requires Fits(c, b) && Inv(c, b, s) && p in c.honest && OutputGuard(b, s.nodes[p], root)
    ensures ready <= c.honest && c.f + 1 <= |ready|
    ensures forall h :: h in ready ==> h in s.readyRoot && s.readyRoot[h] == root
  {
    var all := ReadyFor(s.nodes[p], root);
    assert ReadyOk(c, s, s.nodes[p]) by { assert NodeInv(c, b, s, s.nodes[p]); }
    forall x | x in all ensures ReadyBacker(c, s, x, root) {}
    HonestPart(c, all);
    ready := all * c.honest;
  }

  lemma TotalityInState(c: Config, b: Params, s: System, p: nat, q: nat)
    requires Fits(c, b) && Inv(c, b, s) && Quiescent(c, s)
    requires p in c.honest && q in c.honest && s.nodes[p].outcome != Running
    ensures s.nodes[q].outcome == s.nodes[p].outcome
  {
    var root := HaltingRoot(c, b, s, p);
    var ready := HonestReadies(c, b, s, p, root);
    AllReady(c, b, s, root, ready);
    AllHalt(c, b, s, root, q);
    AgreementInState(c, b, s, p, q);
  }

  /** Totality: once everything between honest nodes is delivered, if one honest node has returned or
      raised then all have, with the same outcome. */
  lemma Totality(c: Config, b: Params, run: seq<System>, i: nat, p: nat, q: nat)
    requires Fits(c, b) && IsRun(c, b, run) && i < |run| && run[i].nodes.Keys == c.honest && Quiescent(c, run[i])
    requires p in c.honest && q in c.honest && run[i].nodes[p].outcome != Running
    ensures run[i].nodes[q].outcome == run[i].nodes[p].outcome
  {
    hide Inv, IsRun, Quiescent;
    RunInv(c, b, run, i);
    TotalityInState(c, b, run[i], p, q);
  }

  lemma HonestLeaderInState(c: Config, b: Params, s: System, p: nat)
    requires Fits(c, b) && Inv(c, b, s) && Quiescent(c, s)
    requires b.leader in c.honest && s.input.Some? && p in c.honest
    ensures s.nodes[p].outcome != Running
  {
    if h :| h in c.honest && s.nodes[h].outcome != Running {
      TotalityInState(c, b, s, h, p);
    } else {
      EchoCode(c, b, s);
      var root := HonestRoot(b, s.input.value);
      forall q | q in c.honest ensures q in s.readyRoot && s.readyRoot[q] == root {
        AllEcho(c, b, s, q, root);
      }
      AllHalt(c, b, s, root, p);
    }
  }

  /** With an honest leader that has its input, quiescence alone makes every honest node return. */
  lemma HonestLeaderDelivers(c: Config, b: Params, run: seq<System>, i: nat, p: nat)
    requires Fits(c, b) && IsRun(c, b, run) && i < |run| && run[i].nodes.Keys == c.honest && Quiescent(c, run[i])
    requires b.leader in c.honest && run[i].input.Some? && p in c.honest
    ensures run[i].nodes[p].outcome != Running
  {
    hide Inv, IsRun, Quiescent;
    RunInv(c, b, run, i);
    HonestLeaderInState(c, b, run[i], p);
  }

  lemma EchoCode(c: Config, b: Params, s: System)
    requires Fits(c, b) && s.input.Some?
    ensures |Encode(b.code, b.K(), s.input.value)| == b.n
  {
    EncodeShape(b.code, b.K(), b.n, s.input.value);
  }

  lemma ValArrived(c: Config, b: Params, s: System, p: nat)
    requires Fits(c, b) && Inv(c, b, s) && Quiescent(c, s)
    requires b.leader in c.honest && s.input.Some? && p in c.honest && s.nodes[p].outcome == Running
    ensures s.nodes[p].fromLeader.Some? && IsHonestRoot(b, s.input.value, s.nodes[p].fromLeader.value)
  {
    assert p in Ids(c.n);
    assert ValSent(c, b, s, p);
    var x :| Sent(s, b.leader, p, x) && LeaderSent(b, s.input.value, p, x);
    assert Absorbed(c, b, s, b.leader, p, x);
  }

  /** While nobody has returned, all honest echoes of the leader's root have arrived everywhere. */
  lemma AllEcho(c: Config, b: Params, s: System, q: nat, root: Bytes)
    requires Fits(c, b) && Inv(c, b, s) && Quiescent(c, s)
    requires b.leader in c.honest && s.input.Some? && q in c.honest
    requires |Encode(b.code, b.K(), s.input.value)| == b.n && root == HonestRoot(b, s.input.value)
    requires forall h :: h in c.honest ==> s.nodes[h].outcome == Running
    ensures q in s.readyRoot && s.readyRoot[q] == root
  {
    var row := Row(c.n, s.nodes[q], root);
    forall h | h in c.honest ensures h in PresentSet(row, 0) {
      ValArrived(c, b, s, h);
      EchoArrived(c, b, s, h, q, root);
    }
    SubsetSize(c.honest, PresentSet(row, 0));
    PresentCount(row, 0);
    assert NodeInv(c, b, s, s.nodes[q]);
    assert Count(s.nodes[q], root) == PresentFrom(row, 0);
    ReadyIsLeaders(c, b, s, q);
  }
}
