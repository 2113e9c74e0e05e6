// Runs of N reliable-broadcast nodes over authenticated channels, at most f of them Byzantine:
// what every step keeps. BroadcastTheorems draws agreement, validity and totality from it.
module BroadcastRuns {
  import opened Options
  import opened Quorums
  import opened Merkle
  import opened Erasure
  import opened ReliableBroadcast

  datatype Envelope = Envelope(from: nat, to: nat, m: Msg)

  /** `sent` holds what honest nodes sent; `delivered` what their receive loops took; `readyRoot` the root
      of the READY an honest node broadcast. */
  datatype System = System(
    nodes: map<nat, NodeState>,
    sent: set<Envelope>,
    delivered: set<Envelope>,
    input: Option<Bytes>,
    readyRoot: map<nat, Bytes>)

  datatype Step = Start(value: Bytes) | Deliver(p: nat, q: nat, m: Msg)

  ghost predicate Fits(c: Config, b: Params) {
    && c.Valid() && b.Valid() && b.n == c.n && b.f == c.f
    && IsErasureCode(b.code, b.K(), b.n)
  }

  ghost predicate Init(c: Config, s: System) {
    && s.nodes.Keys == c.honest
    && (forall p :: p in c.honest ==> s.nodes[p] == FRESH_NODE)
    && s.sent == {} && s.delivered == {} && s.input == None && s.readyRoot == map[]
  }

  predicate Sent(s: System, q: nat, p: nat, m: Msg) { Envelope(q, p, m) in s.sent }

  /** An honest leader blocks on its input first; a node that returned receives nothing more;
      a Byzantine sender may deliver anything at any time. */
  ghost predicate Enabled(c: Config, b: Params, s: System, step: Step) {
    match step
    case Start(m) => b.leader in c.honest && s.input == None
    case Deliver(p, q, m) =>
      && p in c.honest && p in s.nodes && q < c.n
      && (p == b.leader ==> s.input.Some?)
      && s.nodes[p].outcome == Running
      && RowsFit(c.n, s.nodes[p])
      && (q in c.honest ==> Sent(s, q, p, m))
  }

  function AnnouncedBy(sent: seq<Msg>): Option<Bytes> {
    if sent != [] && sent[0].Ready? then Some(sent[0].root) else None
  }

  /** The system after node `p` took `m` from `q` and did `e`. */
  function After(n: nat, s: System, p: nat, q: nat, m: Msg, e: Effect): System {
    s.(nodes := s.nodes[p := e.node],
       sent := s.sent + (set i, x | i in Ids(n) && x in e.sent :: Envelope(p, i, x)),
       delivered := s.delivered + {Envelope(q, p, m)},
       readyRoot := match AnnouncedBy(e.sent) case Some(root) => s.readyRoot[p := root] case None => s.readyRoot)
  }

  ghost function Apply(c: Config, b: Params, s: System, step: Step): System
    requires Fits(c, b) && Enabled(c, b, s, step)
  {
    match step
    case Start(m) =>
      EncodeShape(b.code, b.K(), b.n, m);
      s.(input := Some(m), sent := s.sent + (set i | i in Ids(c.n) :: Envelope(b.leader, i, LeaderVal(b, m, i))))
    case Deliver(p, q, m) => After(c.n, s, p, q, m, OnMessage(b, p, s.nodes[p], q, m))
  }

  ghost predicate Next(c: Config, b: Params, s: System, s': System)
    requires Fits(c, b)
  {
    exists step: Step :: Enabled(c, b, s, step) && s' == Apply(c, b, s, step)
  }

  ghost predicate IsRun(c: Config, b: Params, run: seq<System>)
    requires Fits(c, b)
  {
    && run != []
    && Init(c, run[0])
    && forall i :: 0 <= i < |run| - 1 ==> Next(c, b, run[i], run[i + 1])
  }

  // ---------------------------------------------------------------- the invariant

  /** `q` may be counted among the echoes of `root`. */
  predicate EchoBacker(c: Config, s: System, q: nat, root: Bytes) {
    q < c.n && (q in c.honest ==> q in s.nodes && s.nodes[q].fromLeader == Some(root))
  }

  /** `q` may be counted among the READYs for `root`. */
  predicate ReadyBacker(c: Config, s: System, q: nat, root: Bytes) {
    q < c.n && (q in c.honest ==> q in s.readyRoot && s.readyRoot[q] == root)
  }

  ghost function EchoBackers(c: Config, s: System, root: Bytes): set<nat> {
    set q | q in Ids(c.n) && EchoBacker(c, s, q, root)
  }

  /** Stored stripes were accepted for their index, each from a different, recorded sender. */
  ghost predicate RowsOk(c: Config, s: System, node: NodeState) {
    && RowsFit(c.n, node)
    && (forall root :: AllVerified(root, Row(c.n, node, root)))
    && (forall root, i {:trigger Row(c.n, node, root)[i]} ::
          0 <= i < |Row(c.n, node, root)| && Row(c.n, node, root)[i].Some? ==>
            EchoBacker(c, s, i, root) && i in node.echoSenders)
    && (forall i :: i in node.echoSenders ==> Echoed(c.n, node, i))
  }

  ghost predicate Echoed(n: nat, node: NodeState, i: nat) {
    exists root :: i < |Row(n, node, root)| && Row(n, node, root)[i].Some?
  }

  ghost predicate CountsOk(n: nat, node: NodeState) {
    forall root {:trigger Count(node, root)} :: Count(node, root) == PresentFrom(Row(n, node, root), 0)
  }

  ghost predicate ReadyOk(c: Config, s: System, node: NodeState) {
    && (forall root, q {:trigger q in ReadyFor(node, root)} ::
          q in ReadyFor(node, root) ==> ReadyBacker(c, s, q, root) && q in node.readySenders)
    && (forall q :: q in node.readySenders ==> WasReady(node, q))
  }

  ghost predicate WasReady(node: NodeState, q: nat) {
    exists root :: q in ReadyFor(node, root)
  }

  /** The thresholds that announce READY, and the one that ends the loop, were acted upon. */
  ghost predicate ThresholdsOk(b: Params, node: NodeState)
    requires b.Valid()
  {
    && (forall root {:trigger ReadyFor(node, root)} {:trigger Count(node, root)} ::
          b.f + 1 <= |ReadyFor(node, root)| || b.n - b.f <= Count(node, root) ==> node.readySent)
    && (node.outcome == Running ==> forall root :: !OutputGuard(b, node, root))
    && (node.outcome != Running ==> HaltedFor(b, node))
  }

  ghost predicate HaltedFor(b: Params, node: NodeState)
    requires b.Valid()
  {
    exists root :: OutputGuard(b, node, root) && node.outcome == Output(b, Row(b.n, node, root), root)
  }

  ghost predicate NodeInv(c: Config, b: Params, s: System, node: NodeState)
    requires b.Valid()
  {
    RowsOk(c, s, node) && CountsOk(c.n, node) && ReadyOk(c, s, node) && ThresholdsOk(b, node)
  }

  ghost predicate EchoSentTo(c: Config, s: System, q: nat, root: Bytes) {
    exists branch, stripe :: EchoAtAll(c, s, q, root, branch, stripe)
  }

  ghost predicate EchoAtAll(c: Config, s: System, q: nat, root: Bytes, branch: seq<Bytes>, stripe: Bytes) {
    forall p: nat :: p < c.n ==> Sent(s, q, p, Echo(root, branch, stripe))
  }

  /** Honest ECHOs repeat the leader's VAL, verified for the echoing node. */
  ghost predicate EchoesOk(c: Config, s: System)
    requires s.nodes.Keys == c.honest && c.Valid()
  {
    && (forall q, p: nat, root, branch, stripe {:trigger Sent(s, q, p, Echo(root, branch, stripe))} ::
          q in c.honest && Sent(s, q, p, Echo(root, branch, stripe)) ==>
            s.nodes[q].fromLeader == Some(root) && Verifies(c.n, stripe, root, branch, q))
    && (forall q :: q in c.honest && s.nodes[q].fromLeader.Some? ==>
          EchoSentTo(c, s, q, s.nodes[q].fromLeader.value))
  }

  /** An honest node announces READY once, to all, and a quorum of echoes is behind the root. */
  ghost predicate ReadiesOk(c: Config, s: System)
    requires s.nodes.Keys == c.honest
  {
    && s.readyRoot.Keys <= c.honest
    && (forall q :: q in c.honest ==> (s.nodes[q].readySent <==> q in s.readyRoot))
    && (forall q, p: nat, root {:trigger Sent(s, q, p, Ready(root))} :: q in c.honest ==>
          (Sent(s, q, p, Ready(root)) <==> p < c.n && q in s.readyRoot && s.readyRoot[q] == root))
    && (forall q :: q in s.readyRoot ==> c.n - c.f <= |EchoBackers(c, s, s.readyRoot[q])|)
  }

  ghost function HonestRoot(b: Params, m: Bytes): Bytes
    requires b.Valid() && Encode(b.code, b.K(), m) != []
  {
    Root(Encode(b.code, b.K(), m))
  }

  /** An honest leader commits to the root of its input. */
  ghost predicate LeaderOk(c: Config, b: Params, s: System)
    requires s.nodes.Keys == c.honest && Fits(c, b)
  {
    b.leader in c.honest ==>
      && (forall p: nat, root, branch, stripe {:trigger Sent(s, b.leader, p, Val(root, branch, stripe))} ::
            Sent(s, b.leader, p, Val(root, branch, stripe)) ==>
              p < c.n && s.input.Some? && LeaderSent(b, s.input.value, p, Val(root, branch, stripe)))
      && (s.input.Some? ==> forall p {:trigger p in Ids(c.n)} :: p in Ids(c.n) ==> ValSent(c, b, s, p))
      && (forall p :: p in c.honest && s.nodes[p].fromLeader.Some? ==>
            s.input.Some? && IsHonestRoot(b, s.input.value, s.nodes[p].fromLeader.value))
  }

  ghost predicate LeaderSent(b: Params, m: Bytes, i: nat, x: Msg)
    requires b.Valid()
  {
    |Encode(b.code, b.K(), m)| == b.n && i < b.n && x == LeaderVal(b, m, i)
  }

  ghost predicate ValSent(c: Config, b: Params, s: System, p: nat)
    requires b.Valid()
  {
    exists x :: Sent(s, b.leader, p, x) && s.input.Some? && LeaderSent(b, s.input.value, p, x)
  }

  ghost predicate IsHonestRoot(b: Params, m: Bytes, root: Bytes)
    requires b.Valid()
  {
    |Encode(b.code, b.K(), m)| == b.n && root == Root(Encode(b.code, b.K(), m))
  }

  /** What a delivered message of an honest node left behind. */
  ghost predicate Absorbed(c: Config, b: Params, s: System, q: nat, p: nat, m: Msg)
    requires p in s.nodes
  {
    match m
    case Val(root, branch, stripe) => q == b.leader ==> s.nodes[p].fromLeader.Some?
    case Echo(root, branch, stripe) => q < |Row(c.n, s.nodes[p], root)| && Row(c.n, s.nodes[p], root)[q].Some?
    case Ready(root) => q in ReadyFor(s.nodes[p], root)
  }

  ghost predicate DeliveriesOk(c: Config, b: Params, s: System)
    requires s.nodes.Keys == c.honest
  {
    forall q, p, m {:trigger Envelope(q, p, m) in s.delivered} ::
      q in c.honest && p in c.honest && Envelope(q, p, m) in s.delivered ==> Absorbed(c, b, s, q, p, m)
  }

  ghost predicate Inv(c: Config, b: Params, s: System)
    requires Fits(c, b)
  {
    && s.nodes.Keys == c.honest
    && (forall p :: p in c.honest ==> NodeInv(c, b, s, s.nodes[p]))
    && EchoesOk(c, s)
    && ReadiesOk(c, s)
    && LeaderOk(c, b, s)
    && DeliveriesOk(c, b, s)
  }

  // ---------------------------------------------------------------- what a message does to a record

  /** Only the stripes of `root` changed, by one new stripe. */
  ghost predicate OneMoreEcho(b: Params, s: NodeState, q: nat, root: Bytes, stripe: Bytes, t: NodeState) {
    && q < |Row(b.n, s, root)| && Row(b.n, s, root)[q] == None && q !in s.echoSenders
    && Row(b.n, t, root) == Row(b.n, s, root)[q := Some(stripe)]
    && (forall r :: r != root ==> Row(b.n, t, r) == Row(b.n, s, r))
    && t.echoSenders == s.echoSenders + {q}
    && Count(t, root) == Count(s, root) + 1
    && (forall r :: r != root ==> Count(t, r) == Count(s, r))
    && t.ready == s.ready && t.readySenders == s.readySenders && t.fromLeader == s.fromLeader
  }

  /** Only the READYs for `root` changed, by one new sender. */
  ghost predicate OneMoreReady(b: Params, s: NodeState, q: nat, root: Bytes, t: NodeState) {
    && q !in s.readySenders
    && ReadyFor(t, root) == ReadyFor(s, root) + {q}
    && (forall r :: r != root ==> ReadyFor(t, r) == ReadyFor(s, r))
    && t.readySenders == s.readySenders + {q}
    && t.stripes == s.stripes && t.echoCounter == s.echoCounter && t.echoSenders == s.echoSenders
    && t.fromLeader == s.fromLeader
  }

  /** READY is announced once, at a threshold for `root`; the loop ends at the output guard for `root`. */
  ghost predicate Concludes(b: Params, s: NodeState, root: Bytes, reached: bool, e: Effect)
    requires b.Valid()
  {
    && e.node.readySent == (s.readySent || reached)
    && e.sent == (if reached && !s.readySent then [Ready(root)] else [])
    && e.node.outcome == (if OutputGuard(b, e.node, root) then Output(b, Row(b.n, e.node, root), root) else Running)
  }

  ghost predicate EchoTaken(b: Params, s: NodeState, q: nat, root: Bytes, branch: seq<Bytes>, stripe: Bytes, e: Effect)
    requires b.Valid()
  {
    && Verifies(b.n, stripe, root, branch, q)
    && OneMoreEcho(b, s, q, root, stripe, e.node)
    && Concludes(b, s, root, b.n - b.f <= Count(e.node, root), e)
  }

  ghost predicate ReadyTaken(b: Params, s: NodeState, q: nat, root: Bytes, e: Effect)
    requires b.Valid()
  {
    && OneMoreReady(b, s, q, root, e.node)
    && Concludes(b, s, root, b.f + 1 <= |ReadyFor(e.node, root)|, e)
  }

  ghost predicate ValTaken(b: Params, p: nat, s: NodeState, q: nat, root: Bytes, branch: seq<Bytes>, stripe: Bytes,
          e: Effect)
    requires b.Valid()
  {
    && q == b.leader && s.fromLeader == None && Verifies(b.n, stripe, root, branch, p)
    && e == Effect(s.(fromLeader := Some(root)), [Echo(root, branch, stripe)])
  }

  lemma EchoFacts(b: Params, s: NodeState, q: nat, root: Bytes, branch: seq<Bytes>, stripe: Bytes, e: Effect)
    requires b.Valid() && q < b.n && RowsFit(b.n, s) && s.outcome == Running && |Row(b.n, s, root)| == b.n
    requires e == OnEcho(b, s, q, root, branch, stripe)
    ensures e == Effect(s, []) || EchoTaken(b, s, q, root, branch, stripe, e)
    ensures Verifies(b.n, stripe, root, branch, q) && q !in s.echoSenders && Row(b.n, s, root)[q] == None ==>
              EchoTaken(b, s, q, root, branch, stripe, e)
  {
    hide Verifies, Output;
    if !RedundantEcho(b.n, s, q, root) && Verifies(b.n, stripe, root, branch, q) {
      var t := AddEcho(b.n, s, q, root, stripe);
      assert OneMoreEcho(b, s, q, root, stripe, t);
      assert forall r :: Row(b.n, e.node, r) == Row(b.n, t, r) && Count(e.node, r) == Count(t, r);
    }
  }

  lemma ReadyFacts(b: Params, s: NodeState, q: nat, root: Bytes, e: Effect)
    requires b.Valid() && s.outcome == Running
    requires forall r :: q in ReadyFor(s, r) ==> q in s.readySenders
    requires e == OnReady(b, s, q, root)
    ensures if q in s.readySenders then e == Effect(s, []) else ReadyTaken(b, s, q, root, e)
  {
    assert q in ReadyFor(s, root) ==> q in s.readySenders;
  }

  // ---------------------------------------------------------------- backing only grows

  /** Nothing an invariant relies on is ever taken back. */
  ghost predicate Grew(c: Config, s: System, s': System) {
    && s.nodes.Keys == c.honest && s'.nodes.Keys == c.honest
    && (forall q :: q in c.honest && s.nodes[q].fromLeader.Some? ==> s'.nodes[q].fromLeader == s.nodes[q].fromLeader)
    && (forall q :: q in s.readyRoot ==> q in s'.readyRoot && s'.readyRoot[q] == s.readyRoot[q])
    && s.sent <= s'.sent
    && (s.input.Some? ==> s'.input == s.input)
  }

  lemma NodeInvGrows(c: Config, b: Params, s: System, s': System, node: NodeState)
    requires b.Valid() && Grew(c, s, s') && NodeInv(c, b, s, node)
    ensures NodeInv(c, b, s', node)
  {
    forall root, i | 0 <= i < |Row(c.n, node, root)| && Row(c.n, node, root)[i].Some?
      ensures EchoBacker(c, s', i, root) && i in node.echoSenders
    {
      assert EchoBacker(c, s, i, root);
    }
    forall root, q | q in ReadyFor(node, root) ensures ReadyBacker(c, s', q, root) && q in node.readySenders {
      assert ReadyBacker(c, s, q, root);
    }
  }

  lemma BackersGrow(c: Config, s: System, s': System, root: Bytes)
    requires Grew(c, s, s')
    ensures |EchoBackers(c, s, root)| <= |EchoBackers(c, s', root)|
  {
    SubsetSize(EchoBackers(c, s, root), EchoBackers(c, s', root));
  }

  // ---------------------------------------------------------------- every step keeps the invariant

  /** Node `p` took `m` from `q` and did `e`. */
  ghost predicate Moved(c: Config, s: System, p: nat, q: nat, m: Msg, e: Effect, s': System) {
    && p in c.honest && s.nodes.Keys == c.honest
    && s'.nodes == s.nodes[p := e.node]
    && (forall x: nat, y: nat, z {:trigger Sent(s', x, y, z)} {:trigger Sent(s, x, y, z)} ::
          Sent(s', x, y, z) <==> Sent(s, x, y, z) || (x == p && y < c.n && z in e.sent))
    && s.sent <= s'.sent
    && s'.delivered == s.delivered + {Envelope(q, p, m)}
    && s'.input == s.input
    && s'.readyRoot == (match AnnouncedBy(e.sent) case Some(root) => s.readyRoot[p := root] case None => s.readyRoot)
  }

  lemma AfterMoved(c: Config, s: System, p: nat, q: nat, m: Msg, e: Effect, s': System)
    requires p in c.honest && s.nodes.Keys == c.honest && s' == After(c.n, s, p, q, m, e)
    ensures Moved(c, s, p, q, m, e, s')
  {
    forall x: nat, y: nat, z ensures Sent(s', x, y, z) <==> Sent(s, x, y, z) || (x == p && y < c.n && z in e.sent) {}
  }

  lemma MovedGrew(c: Config, s: System, p: nat, q: nat, m: Msg, e: Effect, s': System)
    requires Moved(c, s, p, q, m, e, s') && ReadiesOk(c, s)
    requires s.nodes[p].fromLeader.Some? ==> e.node.fromLeader == s.nodes[p].fromLeader
    requires AnnouncedBy(e.sent).Some? ==> !s.nodes[p].readySent
    ensures Grew(c, s, s')
  {
  }

  lemma NodesKept(c: Config, b: Params, s: System, p: nat, q: nat, m: Msg, e: Effect, s': System)
    requires b.Valid() && Moved(c, s, p, q, m, e, s') && Grew(c, s, s')
    requires forall x :: x in c.honest ==> NodeInv(c, b, s, s.nodes[x])
    requires NodeInv(c, b, s', e.node)
    ensures forall x :: x in c.honest ==> NodeInv(c, b, s', s'.nodes[x])
  {
    forall x | x in c.honest && x != p ensures NodeInv(c, b, s', s'.nodes[x]) {
      NodeInvGrows(c, b, s, s', s.nodes[x]);
    }
  }

  /** The records and the growth of the backing, once the new record of `p` is known to be sound. */
  lemma MovedNodes(c: Config, b: Params, s: System, p: nat, q: nat, m: Msg, e: Effect, s': System)
    requires b.Valid() && Moved(c, s, p, q, m, e, s') && ReadiesOk(c, s)
    requires s.nodes[p].fromLeader.Some? ==> e.node.fromLeader == s.nodes[p].fromLeader
    requires AnnouncedBy(e.sent).Some? ==> !s.nodes[p].readySent
    requires forall x :: x in c.honest ==> NodeInv(c, b, s, s.nodes[x])
    requires NodeInv(c, b, s, e.node)
    ensures Grew(c, s, s')
    ensures forall x :: x in c.honest ==> NodeInv(c, b, s', s'.nodes[x])
  {
    MovedGrew(c, s, p, q, m, e, s');
    NodeInvGrows(c, b, s, s', e.node);
    NodesKept(c, b, s, p, q, m, e, s');
  }

  lemma EchoesKept(c: Config, s: System, p: nat, q: nat, m: Msg, e: Effect, s': System)
    requires c.Valid() && Moved(c, s, p, q, m, e, s') && EchoesOk(c, s)
    requires forall root, branch, stripe :: Echo(root, branch, stripe) !in e.sent
    requires e.node.fromLeader == s.nodes[p].fromLeader
    ensures EchoesOk(c, s')
  {
    forall x | x in c.honest && s'.nodes[x].fromLeader.Some?
      ensures EchoSentTo(c, s', x, s'.nodes[x].fromLeader.value)
    {
      var root := s.nodes[x].fromLeader.value;
      assert EchoSentTo(c, s, x, root);
      var branch, stripe :| EchoAtAll(c, s, x, root, branch, stripe);
      assert EchoAtAll(c, s', x, root, branch, stripe);
    }
  }

  /** A first READY is announced to all, with a quorum of echoes behind its root. */
  lemma ReadiesKept(c: Config, s: System, p: nat, q: nat, m: Msg, root: Bytes, e: Effect, s': System)
    requires Moved(c, s, p, q, m, e, s') && Grew(c, s, s') && ReadiesOk(c, s)
    requires
      || (e.node.readySent == s.nodes[p].readySent && forall r :: Ready(r) !in e.sent)
      || (e.sent == [Ready(root)] && !s.nodes[p].readySent && e.node.readySent &&
          c.n - c.f <= |EchoBackers(c, s, root)|)
    ensures ReadiesOk(c, s')
  {
    forall x | x in s'.readyRoot ensures c.n - c.f <= |EchoBackers(c, s', s'.readyRoot[x])| {
      BackersGrow(c, s, s', s'.readyRoot[x]);
    }
  }

  lemma LeaderKept(c: Config, b: Params, s: System, p: nat, q: nat, m: Msg, e: Effect, s': System)
    requires Fits(c, b) && Moved(c, s, p, q, m, e, s') && LeaderOk(c, b, s)
    requires forall x :: x in e.sent ==> !x.Val?
    requires e.node.fromLeader == s.nodes[p].fromLeader
    ensures LeaderOk(c, b, s')
  {
    hide Verifies, Encode, LeaderVal, Root;
    if b.leader in c.honest && s'.input.Some? {
      forall x | x in Ids(c.n) ensures ValSent(c, b, s', x) {
        assert ValSent(c, b, s, x);
        var z :| Sent(s, b.leader, x, z) && LeaderSent(b, s.input.value, x, z);
        assert Sent(s', b.leader, x, z);
      }
    }
  }

  lemma DeliveriesKept(c: Config, b: Params, s: System, p: nat, q: nat, m: Msg, e: Effect, s': System)
    requires Moved(c, s, p, q, m, e, s') && DeliveriesOk(c, b, s)
    requires s.nodes[p].fromLeader.Some? ==> e.node.fromLeader.Some?
    requires forall root, i :: 0 <= i < |Row(c.n, s.nodes[p], root)| && Row(c.n, s.nodes[p], root)[i].Some? ==>
               i < |Row(c.n, e.node, root)| && Row(c.n, e.node, root)[i].Some?
    requires forall root, i :: i in ReadyFor(s.nodes[p], root) ==> i in ReadyFor(e.node, root)
    requires q in c.honest ==> Absorbed(c, b, s', q, p, m)
    ensures DeliveriesOk(c, b, s')
  {
    forall x, y, z | x in c.honest && y in c.honest && Envelope(x, y, z) in s'.delivered
      ensures Absorbed(c, b, s', x, y, z)
    {
      if Envelope(x, y, z) != Envelope(q, p, m) {
        assert Absorbed(c, b, s, x, y, z);
      }
    }
  }

  /** The echoes counted for a root are echoes of that root. */
  lemma CountedEchoes(c: Config, s: System, node: NodeState, root: Bytes)
    requires RowsOk(c, s, node) && CountsOk(c.n, node)
    ensures Count(node, root) <= |EchoBackers(c, s, root)|
  {
    var row := Row(c.n, node, root);
    PresentCount(row, 0);
    forall i | i in PresentSet(row, 0) ensures i in EchoBackers(c, s, root) {
      assert row[i].Some?;
    }
    SubsetSize(PresentSet(row, 0), EchoBackers(c, s, root));
  }

  lemma EchoRows(c: Config, b: Params, s: System, node: NodeState, q: nat, root: Bytes, branch: seq<Bytes>,
          stripe: Bytes, t: NodeState)
    requires 1 <= c.n == b.n && RowsOk(c, s, node) && EchoBacker(c, s, q, root)
    requires Verifies(c.n, stripe, root, branch, q) && OneMoreEcho(b, node, q, root, stripe, t)
    ensures RowsOk(c, s, t)
  {
    assert Accepted(c.n, root, q, stripe);
    forall r ensures |Row(c.n, t, r)| == c.n && AllVerified(r, Row(c.n, t, r)) {
      assert AllVerified(r, Row(c.n, node, r));
      assert |Row(c.n, node, r)| == c.n;
    }
    forall r, i | 0 <= i < |Row(c.n, t, r)| && Row(c.n, t, r)[i].Some?
      ensures EchoBacker(c, s, i, r) && i in t.echoSenders
    {
      assert (r == root && i == q) || Row(c.n, node, r)[i].Some?;
    }
    forall i | i in t.echoSenders ensures Echoed(c.n, t, i) {
      if i == q {
        assert Row(c.n, t, root)[q].Some?;
      } else {
        assert Echoed(c.n, node, i);
        var r :| i < |Row(c.n, node, r)| && Row(c.n, node, r)[i].Some?;
        assert Row(c.n, t, r)[i].Some?;
      }
    }
  }

  lemma EchoCounts(c: Config, b: Params, s: System, node: NodeState, q: nat, root: Bytes, stripe: Bytes, t: NodeState)
    requires b.n == c.n && CountsOk(c.n, node) && OneMoreEcho(b, node, q, root, stripe, t)
    ensures CountsOk(c.n, t)
  {
    OneMorePresent(Row(c.n, node, root), q, stripe, 0);
    forall r ensures Count(t, r) == PresentFrom(Row(c.n, t, r), 0) {
      assert Count(node, r) == PresentFrom(Row(c.n, node, r), 0);
    }
  }

  /** Rows and their senders untouched. */
  lemma RowsSame(c: Config, s: System, node: NodeState, t: NodeState)
    requires RowsOk(c, s, node) && CountsOk(c.n, node)
    requires t.stripes == node.stripes && t.echoSenders == node.echoSenders && t.echoCounter == node.echoCounter
    ensures RowsOk(c, s, t) && CountsOk(c.n, t)
    ensures forall r :: Row(c.n, t, r) == Row(c.n, node, r) && Count(t, r) == Count(node, r)
  {
    hide EchoBacker, AllVerified;
    assert forall r :: Row(c.n, t, r) == Row(c.n, node, r);
    assert forall r :: Count(t, r) == Count(node, r);
    forall i | i in t.echoSenders ensures Echoed(c.n, t, i) {
      assert Echoed(c.n, node, i);
      var r :| i < |Row(c.n, node, r)| && Row(c.n, node, r)[i].Some?;
      assert Row(c.n, t, r)[i].Some?;
    }
  }

  /** READYs and their senders untouched. */
  lemma ReadiesSame(c: Config, s: System, node: NodeState, t: NodeState)
    requires ReadyOk(c, s, node) && t.ready == node.ready && t.readySenders == node.readySenders
    ensures ReadyOk(c, s, t) && forall r :: ReadyFor(t, r) == ReadyFor(node, r)
  {
    hide ReadyBacker;
    assert forall r :: ReadyFor(t, r) == ReadyFor(node, r);
    forall x | x in t.readySenders ensures WasReady(t, x) {
      assert WasReady(node, x);
      var r :| x in ReadyFor(node, r);
      assert x in ReadyFor(t, r);
    }
  }

  lemma OneReadyMore(c: Config, b: Params, s: System, node: NodeState, q: nat, root: Bytes, t: NodeState)
    requires ReadyOk(c, s, node) && ReadyBacker(c, s, q, root) && OneMoreReady(b, node, q, root, t)
    ensures ReadyOk(c, s, t)
  {
    hide ReadyBacker, ReadyFor;
    assert forall r :: ReadyFor(t, r) == if r == root then ReadyFor(node, r) + {q} else ReadyFor(node, r);
    forall x | x in t.readySenders ensures WasReady(t, x) {
      if x == q {
        assert x in ReadyFor(t, root);
      } else {
        assert WasReady(node, x);
        var r :| x in ReadyFor(node, r);
        assert x in ReadyFor(t, r);
      }
    }
  }

  /** After a message about `root` the thresholds of every root have been acted upon. */
  lemma Concluded(b: Params, node: NodeState, root: Bytes, reached: bool, e: Effect)
    requires b.Valid() && ThresholdsOk(b, node) && node.outcome == Running && Concludes(b, node, root, reached, e)
    requires forall r :: r != root ==> ReadyFor(e.node, r) == ReadyFor(node, r) && Count(e.node, r) == Count(node, r)
    requires b.f + 1 <= |ReadyFor(e.node, root)| || b.n - b.f <= Count(e.node, root) ==> reached || node.readySent
    ensures ThresholdsOk(b, e.node)
  {
    forall r ensures b.f + 1 <= |ReadyFor(e.node, r)| || b.n - b.f <= Count(e.node, r) ==> e.node.readySent {
      assert r == root || (ReadyFor(e.node, r) == ReadyFor(node, r) && Count(e.node, r) == Count(node, r));
    }
    forall r | r != root ensures !OutputGuard(b, e.node, r) {
      assert !OutputGuard(b, node, r);
    }
  }

  lemma EchoNode(c: Config, b: Params, s: System, p: nat, q: nat, root: Bytes, branch: seq<Bytes>, stripe: Bytes,
          e: Effect)
    requires Fits(c, b) && Inv(c, b, s) && p in c.honest && q < c.n && s.nodes[p].outcome == Running
    requires q in c.honest ==> Sent(s, q, p, Echo(root, branch, stripe))
    requires EchoTaken(b, s.nodes[p], q, root, branch, stripe, e)
    ensures NodeInv(c, b, s, e.node)
  {
    var node := s.nodes[p];
    assert NodeInv(c, b, s, node);
    assert EchoBacker(c, s, q, root);
    EchoRows(c, b, s, node, q, root, branch, stripe, e.node);
    EchoCounts(c, b, s, node, q, root, stripe, e.node);
    ReadiesSame(c, s, node, e.node);
    Concluded(b, node, root, b.n - b.f <= Count(e.node, root), e);
  }

  lemma EchoDelivered(c: Config, b: Params, s: System, p: nat, q: nat, root: Bytes, branch: seq<Bytes>, stripe: Bytes,
          e: Effect, s': System)
    requires b.n == c.n && Moved(c, s, p, q, Echo(root, branch, stripe), e, s') && DeliveriesOk(c, b, s)
    requires OneMoreEcho(b, s.nodes[p], q, root, stripe, e.node)
    ensures DeliveriesOk(c, b, s')
  {
    assert forall r :: ReadyFor(e.node, r) == ReadyFor(s.nodes[p], r);
    DeliveriesKept(c, b, s, p, q, Echo(root, branch, stripe), e, s');
  }

  lemma ConcludedReadies(c: Config, b: Params, s: System, p: nat, q: nat, m: Msg, root: Bytes, reached: bool,
          e: Effect, s': System)
    requires b.Valid() && Moved(c, s, p, q, m, e, s') && Grew(c, s, s') && ReadiesOk(c, s)
    requires Concludes(b, s.nodes[p], root, reached, e)
    requires reached ==> c.n - c.f <= |EchoBackers(c, s, root)|
    ensures ReadiesOk(c, s')
  {
    ReadiesKept(c, s, p, q, m, root, e, s');
  }

  lemma EchoKeeps(c: Config, b: Params, s: System, p: nat, q: nat, root: Bytes, branch: seq<Bytes>, stripe: Bytes,
          e: Effect, s': System)
    requires Fits(c, b) && Inv(c, b, s) && p in c.honest && EchoTaken(b, s.nodes[p], q, root, branch, stripe, e)
    requires Moved(c, s, p, q, Echo(root, branch, stripe), e, s')
    requires s'.nodes.Keys == c.honest && DeliveriesOk(c, b, s') && LeaderOk(c, b, s') && NodeInv(c, b, s, e.node)
             && Count(e.node, root) <= |EchoBackers(c, s, root)|
    ensures Inv(c, b, s')
  {
    hide NodeInv, EchoesOk, LeaderOk, DeliveriesOk;
    var m := Echo(root, branch, stripe);
    MovedNodes(c, b, s, p, q, m, e, s');
    assert EchoesOk(c, s') by { EchoesKept(c, s, p, q, m, e, s'); }
    assert ReadiesOk(c, s') by { ConcludedReadies(c, b, s, p, q, m, root, b.n - b.f <= Count(e.node, root), e, s'); }
  }

  // ---------------------------------------------------------------- READY

  lemma ReadyNode(c: Config, b: Params, s: System, p: nat, q: nat, root: Bytes, e: Effect)
    requires Fits(c, b) && Inv(c, b, s) && p in c.honest && ReadyBacker(c, s, q, root) && s.nodes[p].outcome == Running
    requires ReadyTaken(b, s.nodes[p], q, root, e)
    ensures NodeInv(c, b, s, e.node)
  {
    var node := s.nodes[p];
    assert NodeInv(c, b, s, node);
    RowsSame(c, s, node, e.node);
    OneReadyMore(c, b, s, node, q, root, e.node);
    Concluded(b, node, root, b.f + 1 <= |ReadyFor(e.node, root)|, e);
  }

  /** f + 1 READYs include an honest one, which has a quorum of echoes behind it. */
  lemma AmplifiedBacked(c: Config, s: System, node: NodeState, root: Bytes)
    requires c.Valid() && s.nodes.Keys == c.honest && ReadiesOk(c, s) && ReadyOk(c, s, node)
    requires c.f + 1 <= |ReadyFor(node, root)|
    ensures c.n - c.f <= |EchoBackers(c, s, root)|
  {
    forall q | q in ReadyFor(node, root) ensures ReadyBacker(c, s, q, root) {}
    var h := HonestMember(c, ReadyFor(node, root));
    assert ReadyBacker(c, s, h, root);
  }

  lemma ReadyDelivered(c: Config, b: Params, s: System, p: nat, q: nat, root: Bytes, e: Effect, s': System)
    requires b.n == c.n && Moved(c, s, p, q, Ready(root), e, s') && DeliveriesOk(c, b, s)
    requires OneMoreReady(b, s.nodes[p], q, root, e.node)
    ensures DeliveriesOk(c, b, s')
  {
    assert forall r :: Row(c.n, e.node, r) == Row(c.n, s.nodes[p], r);
    DeliveriesKept(c, b, s, p, q, Ready(root), e, s');
  }

  lemma ReadyKeeps(c: Config, b: Params, s: System, p: nat, q: nat, root: Bytes, e: Effect, s': System)
    requires Fits(c, b) && Inv(c, b, s) && p in c.honest && ReadyTaken(b, s.nodes[p], q, root, e)
    requires Moved(c, s, p, q, Ready(root), e, s')
    requires s'.nodes.Keys == c.honest && DeliveriesOk(c, b, s') && LeaderOk(c, b, s') && NodeInv(c, b, s, e.node)
    requires c.f + 1 <= |ReadyFor(e.node, root)| ==> c.n - c.f <= |EchoBackers(c, s, root)|
    ensures Inv(c, b, s')
  {
    hide NodeInv, EchoesOk, LeaderOk, DeliveriesOk;
    var m := Ready(root);
    MovedNodes(c, b, s, p, q, m, e, s');
    assert EchoesOk(c, s') by { EchoesKept(c, s, p, q, m, e, s'); }
    assert ReadiesOk(c, s') by { ConcludedReadies(c, b, s, p, q, m, root, b.f + 1 <= |ReadyFor(e.node, root)|, e, s'); }
  }

  // ---------------------------------------------------------------- VAL

  lemma ValNode(c: Config, b: Params, s: System, p: nat, q: nat, root: Bytes, branch: seq<Bytes>, stripe: Bytes,
          e: Effect)
    requires Fits(c, b) && s.nodes.Keys == c.honest && p in c.honest && NodeInv(c, b, s, s.nodes[p])
    requires ValTaken(b, p, s.nodes[p], q, root, branch, stripe, e)
    ensures NodeInv(c, b, s, e.node)
  {
    var node := s.nodes[p];
    RowsSame(c, s, node, e.node);
    ReadiesSame(c, s, node, e.node);
    forall r ensures OutputGuard(b, e.node, r) == OutputGuard(b, node, r) {}
    assert ThresholdsOk(b, e.node) by {
      if node.outcome != Running {
        assert HaltedFor(b, node);
        var r :| OutputGuard(b, node, r) && node.outcome == Output(b, Row(b.n, node, r), r);
        assert OutputGuard(b, e.node, r);
      }
    }
  }

  lemma ValEchoes(c: Config, b: Params, s: System, p: nat, q: nat, root: Bytes, branch: seq<Bytes>, stripe: Bytes,
          e: Effect, s': System)
    requires Fits(c, b) && Moved(c, s, p, q, Val(root, branch, stripe), e, s') && EchoesOk(c, s)
    requires ValTaken(b, p, s.nodes[p], q, root, branch, stripe, e)
    ensures EchoesOk(c, s')
  {
    forall x | x in c.honest && s'.nodes[x].fromLeader.Some?
      ensures EchoSentTo(c, s', x, s'.nodes[x].fromLeader.value)
    {
      if x == p {
        assert EchoAtAll(c, s', p, root, branch, stripe);
      } else {
        var r := s.nodes[x].fromLeader.value;
        assert EchoSentTo(c, s, x, r);
        var br, st :| EchoAtAll(c, s, x, r, br, st);
        assert EchoAtAll(c, s', x, r, br, st);
      }
    }
  }

  lemma HonestVal(c: Config, b: Params, s: System, p: nat, root: Bytes, branch: seq<Bytes>, stripe: Bytes)
    requires Fits(c, b) && s.nodes.Keys == c.honest && LeaderOk(c, b, s) && b.leader in c.honest
    requires Sent(s, b.leader, p, Val(root, branch, stripe))
    ensures s.input.Some? && IsHonestRoot(b, s.input.value, root)
  {
    hide Verifies, Encode, Root, Branch;
  }

  lemma ValLeader(c: Config, b: Params, s: System, p: nat, q: nat, root: Bytes, branch: seq<Bytes>, stripe: Bytes,
          e: Effect, s': System)
    requires Fits(c, b) && Moved(c, s, p, q, Val(root, branch, stripe), e, s') && LeaderOk(c, b, s)
    requires q in c.honest ==> Sent(s, q, p, Val(root, branch, stripe))
    requires ValTaken(b, p, s.nodes[p], q, root, branch, stripe, e)
    ensures LeaderOk(c, b, s')
  {
    hide LeaderSent, IsHonestRoot, Verifies;
    if b.leader in c.honest { HonestVal(c, b, s, p, root, branch, stripe); }
    if b.leader in c.honest && s'.input.Some? {
      forall x | x in Ids(c.n) ensures ValSent(c, b, s', x) {
        assert ValSent(c, b, s, x);
        var z :| Sent(s, b.leader, x, z) && LeaderSent(b, s.input.value, x, z);
        assert Sent(s', b.leader, x, z);
      }
    }
  }

  lemma ValDelivered(c: Config, b: Params, s: System, p: nat, q: nat, root: Bytes, branch: seq<Bytes>, stripe: Bytes,
          e: Effect, s': System)
    requires b.Valid() && Moved(c, s, p, q, Val(root, branch, stripe), e, s') && DeliveriesOk(c, b, s)
    requires ValTaken(b, p, s.nodes[p], q, root, branch, stripe, e)
    ensures DeliveriesOk(c, b, s')
  {
    assert forall r :: Row(c.n, e.node, r) == Row(c.n, s.nodes[p], r) && ReadyFor(e.node, r) == ReadyFor(s.nodes[p], r);
    DeliveriesKept(c, b, s, p, q, Val(root, branch, stripe), e, s');
  }

  lemma ValKeeps(c: Config, b: Params, s: System, p: nat, q: nat, root: Bytes, branch: seq<Bytes>, stripe: Bytes,
          e: Effect, s': System)
    requires Fits(c, b) && Inv(c, b, s) && p in c.honest && ValTaken(b, p, s.nodes[p], q, root, branch, stripe, e)
    requires q in c.honest ==> Sent(s, q, p, Val(root, branch, stripe))
    requires Moved(c, s, p, q, Val(root, branch, stripe), e, s')
    requires s'.nodes.Keys == c.honest && DeliveriesOk(c, b, s') && LeaderOk(c, b, s') && NodeInv(c, b, s, e.node)
    ensures Inv(c, b, s')
  {
    hide NodeInv, EchoesOk, LeaderOk, DeliveriesOk;
    var m := Val(root, branch, stripe);
    MovedNodes(c, b, s, p, q, m, e, s');
    assert EchoesOk(c, s') by { ValEchoes(c, b, s, p, q, root, branch, stripe, e, s'); }
    assert ReadiesOk(c, s') by { ReadiesKept(c, s, p, q, m, root, e, s'); }
  }

  // ---------------------------------------------------------------- ignored messages

  /** An honest message is ignored only when what it carries is already there. */
  lemma IgnoredKeeps(c: Config, b: Params, s: System, p: nat, q: nat, m: Msg, s': System)
    requires Fits(c, b) && Inv(c, b, s) && p in c.honest
    requires Moved(c, s, p, q, m, Effect(s.nodes[p], []), s')
    requires q in c.honest ==> Absorbed(c, b, s, q, p, m)
    ensures Inv(c, b, s')
  {
    var e := Effect(s.nodes[p], []);
    assert NodeInv(c, b, s, s.nodes[p]);
    MovedNodes(c, b, s, p, q, m, e, s');
    assert EchoesOk(c, s') by { EchoesKept(c, s, p, q, m, e, s'); }
    assert ReadiesOk(c, s') by { ReadiesKept(c, s, p, q, m, [], e, s'); }
    assert LeaderOk(c, b, s') by { LeaderKept(c, b, s, p, q, m, e, s'); }
    assert DeliveriesOk(c, b, s') by { DeliveriesKept(c, b, s, p, q, m, e, s'); }
  }

  lemma IgnoredEcho(c: Config, b: Params, s: System, p: nat, q: nat, root: Bytes, branch: seq<Bytes>, stripe: Bytes)
    requires Fits(c, b) && Inv(c, b, s) && p in c.honest && q in c.honest && q < c.n
    requires Sent(s, q, p, Echo(root, branch, stripe))
    requires q in s.nodes[p].echoSenders || !Verifies(b.n, stripe, root, branch, q)
    ensures Absorbed(c, b, s, q, p, Echo(root, branch, stripe))
  {
    var node := s.nodes[p];
    assert NodeInv(c, b, s, node);
    assert Echoed(c.n, node, q);
    var r :| q < |Row(c.n, node, r)| && Row(c.n, node, r)[q].Some?;
    assert EchoBacker(c, s, q, r);
  }

  lemma IgnoredReady(c: Config, b: Params, s: System, p: nat, q: nat, root: Bytes)
    requires Fits(c, b) && Inv(c, b, s) && p in c.honest && q in c.honest
    requires Sent(s, q, p, Ready(root)) && q in s.nodes[p].readySenders
    ensures Absorbed(c, b, s, q, p, Ready(root))
  {
    var node := s.nodes[p];
    assert NodeInv(c, b, s, node);
    assert WasReady(node, q);
    var r :| q in ReadyFor(node, r);
    assert ReadyBacker(c, s, q, r);
  }

  lemma LeaderVerifies(b: Params, m: Bytes, p: nat, x: Msg)
    requires b.Valid() && LeaderSent(b, m, p, x)
    ensures Verifies(b.n, x.stripe, x.root, x.branch, p)
  {
    hide Encode, Verifies, Branch, Root, BottomRow;
    HonestBranchVerifies(Encode(b.code, b.K(), m), p);
  }

  /** The honest leader's VAL always verifies. */
  lemma IgnoredVal(c: Config, b: Params, s: System, p: nat, root: Bytes, branch: seq<Bytes>, stripe: Bytes)
    requires Fits(c, b) && Inv(c, b, s) && p in c.honest && b.leader in c.honest
    requires Sent(s, b.leader, p, Val(root, branch, stripe))
    ensures Verifies(b.n, stripe, root, branch, p)
  {
    LeaderVerifies(b, s.input.value, p, Val(root, branch, stripe));
  }

  // ---------------------------------------------------------------- steps and runs

  lemma EchoStep(c: Config, b: Params, s: System, p: nat, q: nat, root: Bytes, branch: seq<Bytes>, stripe: Bytes,
          s': System)
    requires Fits(c, b) && Inv(c, b, s) && Enabled(c, b, s, Deliver(p, q, Echo(root, branch, stripe)))
    requires s' == Apply(c, b, s, Deliver(p, q, Echo(root, branch, stripe)))
    ensures Inv(c, b, s')
  {
    hide EchoesOk, ReadiesOk, LeaderOk, DeliveriesOk, CountsOk, ReadyOk, ThresholdsOk, Verifies, Moved, OnEcho;
    var node := s.nodes[p];
    assert |Row(c.n, node, root)| == c.n;
    var e := OnEcho(b, node, q, root, branch, stripe);
    AfterMoved(c, s, p, q, Echo(root, branch, stripe), e, s');
    EchoFacts(b, node, q, root, branch, stripe, e);
    if EchoTaken(b, node, q, root, branch, stripe, e) {
      EchoNode(c, b, s, p, q, root, branch, stripe, e);
      CountedEchoes(c, s, e.node, root);
      LeaderKept(c, b, s, p, q, Echo(root, branch, stripe), e, s');
      EchoDelivered(c, b, s, p, q, root, branch, stripe, e, s');
      EchoKeeps(c, b, s, p, q, root, branch, stripe, e, s');
    } else {
      if q in c.honest && Row(c.n, node, root)[q] == None { IgnoredEcho(c, b, s, p, q, root, branch, stripe); }
      IgnoredKeeps(c, b, s, p, q, Echo(root, branch, stripe), s');
    }
  }

  lemma ReadyStep(c: Config, b: Params, s: System, p: nat, q: nat, root: Bytes, s': System)
    requires Fits(c, b) && Inv(c, b, s) && Enabled(c, b, s, Deliver(p, q, Ready(root)))
    requires s' == Apply(c, b, s, Deliver(p, q, Ready(root)))
    ensures Inv(c, b, s')
  {
    hide EchoesOk, LeaderOk, DeliveriesOk, RowsOk, CountsOk, ThresholdsOk, Moved, OnReady;
    var node := s.nodes[p];
    var e := OnReady(b, node, q, root);
    AfterMoved(c, s, p, q, Ready(root), e, s');
    assert ReadyOk(c, s, node) by { assert NodeInv(c, b, s, node); }
    ReadyFacts(b, node, q, root, e);
    if q in node.readySenders {
      if q in c.honest { IgnoredReady(c, b, s, p, q, root); }
      IgnoredKeeps(c, b, s, p, q, Ready(root), s');
    } else {
      assert ReadyBacker(c, s, q, root);
      ReadyNode(c, b, s, p, q, root, e);
      if c.f + 1 <= |ReadyFor(e.node, root)| { AmplifiedBacked(c, s, e.node, root); }
      LeaderKept(c, b, s, p, q, Ready(root), e, s');
      ReadyDelivered(c, b, s, p, q, root, e, s');
      ReadyKeeps(c, b, s, p, q, root, e, s');
    }
  }

  lemma ValStep(c: Config, b: Params, s: System, p: nat, q: nat, root: Bytes, branch: seq<Bytes>, stripe: Bytes,
          s': System)
    requires Fits(c, b) && Inv(c, b, s) && Enabled(c, b, s, Deliver(p, q, Val(root, branch, stripe)))
    requires s' == Apply(c, b, s, Deliver(p, q, Val(root, branch, stripe)))
    ensures Inv(c, b, s')
  {
    hide EchoesOk, LeaderOk, DeliveriesOk;
    var node, m := s.nodes[p], Val(root, branch, stripe);
    var e := OnVal(b, p, node, q, root, branch, stripe);
    assert NodeInv(c, b, s, node);
    AfterMoved(c, s, p, q, m, e, s');
    if q in c.honest && q == b.leader { IgnoredVal(c, b, s, p, root, branch, stripe); }
    if e == Effect(node, []) {
      IgnoredKeeps(c, b, s, p, q, m, s');
    } else {
      ValNode(c, b, s, p, q, root, branch, stripe, e);
      ValLeader(c, b, s, p, q, root, branch, stripe, e, s');
      ValDelivered(c, b, s, p, q, root, branch, stripe, e, s');
      ValKeeps(c, b, s, p, q, root, branch, stripe, e, s');
    }
  }

  lemma StartNodes(c: Config, b: Params, s: System, m: Bytes, s': System)
    requires Fits(c, b) && Inv(c, b, s) && Enabled(c, b, s, Start(m)) && s' == Apply(c, b, s, Start(m))
    ensures Grew(c, s, s')
    ensures forall x :: x in c.honest ==> NodeInv(c, b, s', s'.nodes[x])
  {
    forall x | x in c.honest ensures NodeInv(c, b, s', s'.nodes[x]) {
      NodeInvGrows(c, b, s, s', s.nodes[x]);
    }
  }

  lemma StartSends(c: Config, b: Params, s: System, m: Bytes, s': System)
    requires Fits(c, b) && Enabled(c, b, s, Start(m)) && s' == Apply(c, b, s, Start(m))
    ensures |Encode(b.code, b.K(), m)| == b.n
    ensures forall x: nat, y: nat, z {:trigger Sent(s', x, y, z)} ::
              Sent(s', x, y, z) <==> Sent(s, x, y, z) || (x == b.leader && LeaderSent(b, m, y, z))
  {
    EncodeShape(b.code, b.K(), b.n, m);
    forall x: nat, y: nat, z
      ensures Sent(s', x, y, z) <==> Sent(s, x, y, z) || (x == b.leader && LeaderSent(b, m, y, z))
    {
      if x == b.leader && LeaderSent(b, m, y, z) { assert y in Ids(c.n); }
    }
  }

  lemma StartEchoes(c: Config, b: Params, s: System, m: Bytes, s': System)
    requires Fits(c, b) && Inv(c, b, s) && s'.nodes == s.nodes && s.sent <= s'.sent
    requires forall x: nat, y: nat, z {:trigger Sent(s', x, y, z)} ::
               Sent(s', x, y, z) <==> Sent(s, x, y, z) || (x == b.leader && LeaderSent(b, m, y, z))
    ensures EchoesOk(c, s')
  {
    forall x | x in c.honest && s'.nodes[x].fromLeader.Some?
      ensures EchoSentTo(c, s', x, s'.nodes[x].fromLeader.value)
    {
      var root := s.nodes[x].fromLeader.value;
      assert EchoSentTo(c, s, x, root);
      var branch, stripe :| EchoAtAll(c, s, x, root, branch, stripe);
      assert EchoAtAll(c, s', x, root, branch, stripe);
    }
  }

  lemma StartReadies(c: Config, s: System, s': System)
    requires Grew(c, s, s') && ReadiesOk(c, s) && s'.nodes == s.nodes && s'.readyRoot == s.readyRoot
    requires forall x: nat, y: nat, root {:trigger Sent(s', x, y, Ready(root))} ::
               Sent(s', x, y, Ready(root)) <==> Sent(s, x, y, Ready(root))
    ensures ReadiesOk(c, s')
  {
    forall x | x in s'.readyRoot ensures c.n - c.f <= |EchoBackers(c, s', s'.readyRoot[x])| {
      BackersGrow(c, s, s', s'.readyRoot[x]);
    }
  }

  lemma StartLeader(c: Config, b: Params, s: System, m: Bytes, s': System)
    requires Fits(c, b) && s.nodes.Keys == c.honest && LeaderOk(c, b, s) && s.input == None
    requires s'.nodes == s.nodes && s'.input == Some(m) && |Encode(b.code, b.K(), m)| == b.n
    requires forall x: nat, y: nat, z {:trigger Sent(s', x, y, z)} ::
               Sent(s', x, y, z) <==> Sent(s, x, y, z) || (x == b.leader && LeaderSent(b, m, y, z))
    ensures LeaderOk(c, b, s')
  {
    forall x | x in Ids(c.n) ensures ValSent(c, b, s', x) {
      assert LeaderSent(b, m, x, LeaderVal(b, m, x));
      assert Sent(s', b.leader, x, LeaderVal(b, m, x));
    }
  }

  lemma StartDeliveries(c: Config, b: Params, s: System, s': System)
    requires s.nodes.Keys == c.honest && DeliveriesOk(c, b, s) && s'.nodes == s.nodes && s'.delivered == s.delivered
    ensures DeliveriesOk(c, b, s')
  {
    forall x, y, z | x in c.honest && y in c.honest && Envelope(x, y, z) in s'.delivered
      ensures Absorbed(c, b, s', x, y, z)
    {
      assert Absorbed(c, b, s, x, y, z);
    }
  }

  lemma StartStep(c: Config, b: Params, s: System, m: Bytes, s': System)
    requires Fits(c, b) && Inv(c, b, s) && Enabled(c, b, s, Start(m)) && s' == Apply(c, b, s, Start(m))
    ensures Inv(c, b, s')
  {
    StartNodes(c, b, s, m, s');
    StartSends(c, b, s, m, s');
    assert EchoesOk(c, s') by { StartEchoes(c, b, s, m, s'); }
    assert ReadiesOk(c, s') by { StartReadies(c, s, s'); }
    assert LeaderOk(c, b, s') by { StartLeader(c, b, s, m, s'); }
    assert DeliveriesOk(c, b, s') by { StartDeliveries(c, b, s, s'); }
  }

  lemma InitInv(c: Config, b: Params, s: System)
    requires Fits(c, b) && Init(c, s)
    ensures Inv(c, b, s)
  {
    NonePresent(c.n, 0);
  }

  lemma NextInv(c: Config, b: Params, s: System, s': System)
    requires Fits(c, b) && Inv(c, b, s) && Next(c, b, s, s')
    ensures Inv(c, b, s')
  {
    var step :| Enabled(c, b, s, step) && s' == Apply(c, b, s, step);
    match step
    case Start(m) => StartStep(c, b, s, m, s');
    case Deliver(p, q, m) =>
      match m
      case Val(root, branch, stripe) => ValStep(c, b, s, p, q, root, branch, stripe, s');
      case Echo(root, branch, stripe) => EchoStep(c, b, s, p, q, root, branch, stripe, s');
      case Ready(root) => ReadyStep(c, b, s, p, q, root, s');
  }

  lemma {:induction false} RunInv(c: Config, b: Params, run: seq<System>, i: nat)
    requires Fits(c, b) && IsRun(c, b, run) && i < |run|
    ensures Inv(c, b, run[i])
  {
    if i == 0 {
      InitInv(c, b, run[0]);
    } else {
      RunInv(c, b, run, i - 1);
      NextInv(c, b, run[i - 1], run[i]);
    }
  }
}
