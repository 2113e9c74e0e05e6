// Runs of N dissemination nodes, at most f of them Byzantine, whose honest members start from one message.
module DisseminationRuns {
  import opened Options
  import opened Quorums
  import opened Merkle
  import opened Erasure
  import opened Padding
  import opened Dissemination

  datatype Envelope = Envelope(from: nat, to: nat, m: Msg)

  datatype System = System(nodes: map<nat, NodeState>, started: set<nat>, sent: set<Envelope>)

  datatype Step = Start(p: nat) | Deliver(p: nat, q: nat, m: Msg)

  predicate Sent(s: System, q: nat, p: nat, m: Msg) { Envelope(q, p, m) in s.sent }

  ghost predicate Fits(c: Config, b: Params) {
    && c.Valid() && b.Valid() && b.n == c.n && b.f == c.f
    && IsErasureCode(b.code, b.K(), b.n)
  }

  /** The stripes of the common message; K-of-N coding gives one per node. */
  ghost function Stripes(c: Config, b: Params, m: Bytes): (strs: seq<Bytes>)
    requires Fits(c, b)
    ensures |strs| == c.n
  {
    EncodeShape(b.code, b.K(), b.n, m);
    Encode(b.code, b.K(), m)
  }

  ghost predicate Init(c: Config, s: System) {
    && s.nodes.Keys == c.honest
    && (forall p :: p in c.honest ==> s.nodes[p] == FreshNode(c.n))
    && s.started == {} && s.sent == {}
  }

  ghost predicate Enabled(c: Config, s: System, step: Step) {
    match step
    case Start(p) => p in c.honest && p !in s.started
    case Deliver(p, q, m) =>
      && p in c.honest && p in s.nodes && p in s.started && q < c.n
      && s.nodes[p].outcome == Running && |s.nodes[p].reconstCounter| == c.n
      && (q in c.honest ==> Sent(s, q, p, m))
  }

  ghost function Apply(c: Config, b: Params, m: Bytes, s: System, step: Step): System
    requires Fits(c, b) && Enabled(c, s, step)
  {
    match step
    case Start(p) =>
      var strs := Stripes(c, b, m);
      s.(started := s.started + {p},
         sent := s.sent + (set i | i in Ids(c.n) :: Envelope(p, i, AddVal(strs[i]))))
    case Deliver(p, q, AddVal(value)) =>
      var e := OnAddVal(b.f, s.nodes[p], q, value);
      s.(nodes := s.nodes[p := e.node],
         sent := if e.reconst == None then s.sent
                 else s.sent + (set i | i in Ids(c.n) :: Envelope(p, i, Reconst(e.reconst.value))))
    case Deliver(p, q, Reconst(value)) =>
      s.(nodes := s.nodes[p := OnReconst(b, s.nodes[p], q, value)])
  }

  ghost predicate Next(c: Config, b: Params, m: Bytes, s: System, s': System)
    requires Fits(c, b)
  {
    exists step :: Enabled(c, s, step) && s' == Apply(c, b, m, s, step)
  }

  ghost predicate IsRun(c: Config, b: Params, m: Bytes, run: seq<System>)
    requires Fits(c, b)
  {
    && run != []
    && Init(c, run[0])
    && forall i :: 0 <= i < |run| - 1 ==> Next(c, b, m, run[i], run[i + 1])
  }

  // ---------------------------------------------------------------- the invariant

  /** Honest nodes send the stripes of the common message. */
  ghost predicate SentOk(c: Config, strs: seq<Bytes>, s: System)
    requires |strs| == c.n
  {
    && (forall q, p: nat, x {:trigger Sent(s, q, p, AddVal(x))} ::
          q in c.honest && Sent(s, q, p, AddVal(x)) ==> p < c.n && x == strs[p])
    && (forall q, p: nat, x {:trigger Sent(s, q, p, Reconst(x))} ::
          q in c.honest && Sent(s, q, p, Reconst(x)) ==> q < c.n && x == strs[q])
  }

  predicate Vote(c: Config, strs: seq<Bytes>, p: nat, q: nat, h: Bytes)
    requires |strs| == c.n && p < c.n
  {
    q < c.n && (q in c.honest ==> h == Hash(strs[p]))
  }

  predicate Share(c: Config, strs: seq<Bytes>, q: nat, h: Bytes)
    requires |strs| == c.n
  {
    q < c.n && (q in c.honest ==> h == Hash(strs[q]))
  }

  ghost predicate VotesOk(c: Config, strs: seq<Bytes>, p: nat, node: NodeState)
    requires |strs| == c.n && p < c.n
  {
    forall h, q {:trigger q in Senders(node.dispCounter, h)} ::
      q in Senders(node.dispCounter, h) ==> Vote(c, strs, p, q, h)
  }

  /** Votes and shares of honest nodes are for the common message; a returned message has its stripes. */
  ghost predicate NodeInv(c: Config, b: Params, strs: seq<Bytes>, m: Bytes, p: nat, node: NodeState)
    requires |strs| == c.n && b.Valid()
  {
    && p < c.n && |node.reconstCounter| == c.n
    && VotesOk(c, strs, p, node)
    && SharesOk(c, strs, node)
    && (node.outcome.Returned? ==> SamePadding(b.K(), node.outcome.m, m))
  }

  ghost predicate SharesOk(c: Config, strs: seq<Bytes>, node: NodeState)
    requires |strs| == c.n
  {
    && (forall i :: 0 <= i < |node.reconstCheck| ==>
          Share(c, strs, node.reconstCheck[i].0, node.reconstCheck[i].1)
            && node.reconstCheck[i].0 in node.reconstSenders)
    && (forall i, j :: 0 <= i < j < |node.reconstCheck| ==> node.reconstCheck[i].0 != node.reconstCheck[j].0)
  }

  ghost predicate Inv(c: Config, b: Params, m: Bytes, s: System)
    requires Fits(c, b)
  {
    && s.nodes.Keys == c.honest
    && SentOk(c, Stripes(c, b, m), s)
    && (forall p :: p in c.honest ==> NodeInv(c, b, Stripes(c, b, m), m, p, s.nodes[p]))
  }

  // ---------------------------------------------------------------- what a node keeps

  /** The senders counted by `Matches` are distinct. */
  lemma {:induction false} MatchingSenders(c: Config, strs: seq<Bytes>, node: NodeState, enc: seq<Bytes>, i: nat)
    returns (same: set<nat>)
    requires |strs| == c.n == |enc| && SharesOk(c, strs, node) && i <= |node.reconstCheck|
    ensures |same| == Matches(enc, node.reconstCheck, i)
    ensures forall q :: q in same ==>
              exists j :: 0 <= j < i && node.reconstCheck[j] == (q, Hash(enc[node.reconstCheck[j].0]))
    ensures same <= Ids(c.n)
  {
    if i == 0 {
      same := {};
    } else {
      same := MatchingSenders(c, strs, node, enc, i - 1);
      var (q, h) := node.reconstCheck[i - 1];
      assert Share(c, strs, q, h);
      if Hash(enc[q]) == h {
        same := same + {q};
      }
    }
  }

  /** 2f + 1 matching shares include K honest ones, so what was decoded has the stripes of the common message. */
  lemma MatchesForce(c: Config, b: Params, m: Bytes, m': Bytes, node: NodeState)
    requires Fits(c, b) && b.K() <= c.f + 1
    requires SharesOk(c, Stripes(c, b, m), node)
    requires 2 * c.f + 1 <= Matches(Encode(b.code, b.K(), m'), node.reconstCheck, |node.reconstCheck|)
    ensures SamePadding(b.K(), m', m)
  {
    var strs, enc := Stripes(c, b, m), Stripes(c, b, m');
    var same := MatchingSenders(c, strs, node, enc, |node.reconstCheck|);
    HonestPart(c, same);
    forall q | q in same * c.honest ensures q < c.n && enc[q] == strs[q] {
      var j :| 0 <= j < |node.reconstCheck| && node.reconstCheck[j] == (q, Hash(enc[node.reconstCheck[j].0]));
      assert Share(c, strs, q, Hash(enc[q]));
    }
    SharedStripesDetermine(b.code, b.K(), c.n, m', m, same * c.honest);
  }

  lemma TakeShareKeeps(c: Config, strs: seq<Bytes>, node: NodeState, q: nat, value: Bytes)
    requires |strs| == c.n && |node.reconstCounter| == c.n && SharesOk(c, strs, node)
    requires q !in node.reconstSenders && Share(c, strs, q, Hash(value))
    ensures SharesOk(c, strs, TakeShare(node, q, value))
  {
  }

  lemma ReconstKeeps(c: Config, b: Params, m: Bytes, p: nat, node: NodeState, q: nat, value: Bytes)
    requires Fits(c, b) && b.K() <= c.f + 1
    requires NodeInv(c, b, Stripes(c, b, m), m, p, node) && node.outcome == Running
    requires Share(c, Stripes(c, b, m), q, Hash(value))
    ensures NodeInv(c, b, Stripes(c, b, m), m, p, OnReconst(b, node, q, value))
  {
    if q !in node.reconstSenders {
      TakeShareKeeps(c, Stripes(c, b, m), node, q, value);
      var t := TakeShare(node, q, value);
      var o := Attempt(b, t);
      if o.Returned? {
        MatchesForce(c, b, m, o.m, t);
      }
    }
  }

  lemma VoteKept(c: Config, strs: seq<Bytes>, p: nat, node: NodeState, q: nat, value: Bytes)
    requires |strs| == c.n && p < c.n && VotesOk(c, strs, p, node) && Vote(c, strs, p, q, Hash(value))
    ensures VotesOk(c, strs, p, OnAddVal(c.f, node, q, value).node)
  {
    hide Vote;
    var t := OnAddVal(c.f, node, q, value).node;
    forall h, x | x in Senders(t.dispCounter, h) ensures Vote(c, strs, p, x, h) {
      assert x in Senders(node.dispCounter, h) || (x == q && h == Hash(value));
    }
  }

  /** f + 1 equal values include an honest one, whose value is the stripe of the receiver. */
  lemma VotedStripe(c: Config, strs: seq<Bytes>, p: nat, node: NodeState, value: Bytes)
    requires c.Valid() && |strs| == c.n && p < c.n && VotesOk(c, strs, p, node)
    requires c.f + 1 <= |Senders(node.dispCounter, Hash(value))|
    ensures value == strs[p]
  {
    var votes := Senders(node.dispCounter, Hash(value));
    forall x | x in votes ensures Vote(c, strs, p, x, Hash(value)) {}
    var h := HonestMember(c, votes);
    assert Vote(c, strs, p, h, Hash(value));
  }

  lemma AddValKeeps(c: Config, b: Params, m: Bytes, p: nat, node: NodeState, q: nat, value: Bytes)
    requires Fits(c, b) && NodeInv(c, b, Stripes(c, b, m), m, p, node) && Vote(c, Stripes(c, b, m), p, q, Hash(value))
    ensures var e := OnAddVal(c.f, node, q, value);
            && NodeInv(c, b, Stripes(c, b, m), m, p, e.node)
            && (e.reconst.Some? ==> e.reconst.value == Stripes(c, b, m)[p])
  {
    hide VotesOk, Vote, Stripes, SamePadding;
    VoteKept(c, Stripes(c, b, m), p, node, q, value);
    var e := OnAddVal(c.f, node, q, value);
    if e.reconst.Some? { VotedStripe(c, Stripes(c, b, m), p, e.node, value); }
  }

  // ---------------------------------------------------------------- steps and runs

  lemma SentKept(c: Config, strs: seq<Bytes>, s: System, s': System, p: nat)
    requires |strs| == c.n && SentOk(c, strs, s) && p < c.n
    requires forall q: nat, i: nat, x {:trigger Sent(s', q, i, x)} :: Sent(s', q, i, x) ==>
               Sent(s, q, i, x) || (q == p && i < c.n && (x == AddVal(strs[i]) || x == Reconst(strs[p])))
    ensures SentOk(c, strs, s')
  {
  }

  lemma StartInv(c: Config, b: Params, m: Bytes, s: System, p: nat)
    requires Fits(c, b) && Inv(c, b, m, s) && Enabled(c, s, Start(p))
    ensures Inv(c, b, m, Apply(c, b, m, s, Start(p)))
  {
    hide NodeInv, Encode;
    assert p in Ids(c.n);
    SentKept(c, Stripes(c, b, m), s, Apply(c, b, m, s, Start(p)), p);
  }

  lemma AddValInv(c: Config, b: Params, m: Bytes, s: System, p: nat, q: nat, value: Bytes)
    requires Fits(c, b) && Inv(c, b, m, s) && Enabled(c, s, Deliver(p, q, AddVal(value)))
    ensures Inv(c, b, m, Apply(c, b, m, s, Deliver(p, q, AddVal(value))))
  {
    hide NodeInv, Encode, OnAddVal;
    assert p in Ids(c.n) && Vote(c, Stripes(c, b, m), p, q, Hash(value));
    AddValKeeps(c, b, m, p, s.nodes[p], q, value);
    SentKept(c, Stripes(c, b, m), s, Apply(c, b, m, s, Deliver(p, q, AddVal(value))), p);
  }

  lemma ReconstInv(c: Config, b: Params, m: Bytes, s: System, p: nat, q: nat, value: Bytes)
    requires Fits(c, b) && b.K() <= c.f + 1 && Inv(c, b, m, s) && Enabled(c, s, Deliver(p, q, Reconst(value)))
    ensures Inv(c, b, m, Apply(c, b, m, s, Deliver(p, q, Reconst(value))))
  {
    hide NodeInv, Encode, OnReconst;
    assert p in Ids(c.n) && Share(c, Stripes(c, b, m), q, Hash(value));
    ReconstKeeps(c, b, m, p, s.nodes[p], q, value);
    SentKept(c, Stripes(c, b, m), s, Apply(c, b, m, s, Deliver(p, q, Reconst(value))), p);
  }

  lemma StepInv(c: Config, b: Params, m: Bytes, s: System, step: Step)
    requires Fits(c, b) && b.K() <= c.f + 1 && Inv(c, b, m, s) && Enabled(c, s, step)
    ensures Inv(c, b, m, Apply(c, b, m, s, step))
  {
    hide Inv, Enabled, Apply;
    match step
    case Start(p) => StartInv(c, b, m, s, p);
    case Deliver(p, q, AddVal(value)) => AddValInv(c, b, m, s, p, q, value);
    case Deliver(p, q, Reconst(value)) => ReconstInv(c, b, m, s, p, q, value);
  }

  lemma {:induction false} RunInv(c: Config, b: Params, m: Bytes, run: seq<System>, i: nat)
    requires Fits(c, b) && b.K() <= c.f + 1
    requires IsRun(c, b, m, run) && i < |run|
    ensures Inv(c, b, m, run[i])
  {
    if i == 0 {
      forall p | p in c.honest ensures NodeInv(c, b, Stripes(c, b, m), m, p, run[0].nodes[p]) {
        assert p in Ids(c.n);
      }
    } else {
      RunInv(c, b, m, run, i - 1);
      NextInv(c, b, m, run[i - 1], run[i]);
    }
  }

  lemma NextInv(c: Config, b: Params, m: Bytes, s: System, s': System)
    requires Fits(c, b) && b.K() <= c.f + 1 && Inv(c, b, m, s) && Next(c, b, m, s, s')
    ensures Inv(c, b, m, s')
  {
    hide Inv, Enabled, Apply;
    var step :| Enabled(c, s, step) && s' == Apply(c, b, m, s, step);
    StepInv(c, b, m, s, step);
  }

  /** Safety: with N = 3f + 1, whatever an honest node returns, other than "Failed", has the stripes of the common
      message. It is the common message when the padding for K is injective, as it is for every N that zfec takes. */
  lemma Safety(c: Config, b: Params, m: Bytes, run: seq<System>, i: nat, p: nat)
    requires Fits(c, b) && c.n == 3 * c.f + 1
    requires IsRun(c, b, m, run) && i < |run| && p in c.honest && p in run[i].nodes
    ensures run[i].nodes[p].outcome.Returned? ==> SamePadding(b.K(), run[i].nodes[p].outcome.m, m)
    ensures run[i].nodes[p].outcome.Returned? && NoCollision(b.K()) ==> run[i].nodes[p].outcome.m == m
    ensures run[i].nodes[p].outcome.Returned? && c.n <= ZFEC_LIMIT ==> run[i].nodes[p].outcome.m == m
  {
    RunInv(c, b, m, run, i);
    var node := run[i].nodes[p];
    if node.outcome.Returned? && NoCollision(b.K()) { PaddingInjective(b.K(), node.outcome.m, m); }
  }
}
