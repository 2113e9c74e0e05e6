// For which N and f the dissemination is safe: always for N = 3f + 1; always, because no node returns, above 4f + 1;
// and for no other N.
module DisseminationLimits {
  import opened Options
  import opened Arithmetic
  import opened Quorums
  import opened Merkle
  import opened Erasure
  import opened Padding
  import opened SystematicCode
  import opened Dissemination
  import opened DisseminationRuns

  // ---------------------------------------------------------------- above 4f + 1 nobody returns

  /** A node still receiving has at most 2f shares: the attempt at share 2f + 1 has too few to decode. */
  ghost predicate TooFew(c: Config, node: NodeState) {
    && |node.reconstCounter| == c.n
    && PresentFrom(node.reconstCounter, 0) <= node.count
    && (forall i :: 0 <= i < c.n && node.reconstCounter[i].Some? ==> i in node.reconstSenders)
    && (node.outcome == Running ==> node.count <= 2 * c.f)
    && !node.outcome.Returned?
  }

  lemma FewerThanNeeded(code: Code, k: nat, stripes: seq<Option<Bytes>>)
    requires PresentFrom(stripes, 0) < k
    ensures Decode(code, k, stripes) == None
  {
    EnoughStripes(k, stripes, 0);
  }

  lemma ShareKeepsTooFew(c: Config, b: Params, node: NodeState, q: nat, value: Bytes)
    requires Fits(c, b) && c.n > 4 * c.f + 1 && q < c.n && TooFew(c, node) && node.outcome == Running
    ensures TooFew(c, OnReconst(b, node, q, value))
  {
    if q !in node.reconstSenders {
      OneMorePresent(node.reconstCounter, q, value, 0);
      var t := TakeShare(node, q, value);
      if 2 * b.f + 1 <= t.count { FewerThanNeeded(b.code, b.K(), t.reconstCounter); }
    }
  }

  ghost predicate AllTooFew(c: Config, s: System) {
    s.nodes.Keys == c.honest && forall p :: p in c.honest ==> TooFew(c, s.nodes[p])
  }

  lemma VoteKeepsTooFew(c: Config, node: NodeState, q: nat, value: Bytes)
    requires TooFew(c, node)
    ensures TooFew(c, OnAddVal(c.f, node, q, value).node)
  {
  }

  lemma StepTooFew(c: Config, b: Params, m: Bytes, s: System, step: Step)
    requires Fits(c, b) && c.n > 4 * c.f + 1 && AllTooFew(c, s) && Enabled(c, s, step)
    ensures AllTooFew(c, Apply(c, b, m, s, step))
  {
    hide OnReconst, OnAddVal, Stripes, TooFew, IsErasureCode;
    match step
    case Start(p) =>
    case Deliver(p, q, AddVal(value)) => VoteKeepsTooFew(c, s.nodes[p], q, value);
    case Deliver(p, q, Reconst(value)) => ShareKeepsTooFew(c, b, s.nodes[p], q, value);
  }

  lemma {:induction false} RunTooFew(c: Config, b: Params, m: Bytes, run: seq<System>, i: nat)
    requires Fits(c, b) && c.n > 4 * c.f + 1 && IsRun(c, b, m, run) && i < |run|
    ensures AllTooFew(c, run[i])
  {
    hide Apply, Enabled;
    if i == 0 {
      NonePresent(c.n, 0);
    } else {
      RunTooFew(c, b, m, run, i - 1);
      assert Next(c, b, m, run[i - 1], run[i]);
      var step :| Enabled(c, run[i - 1], step) && run[i] == Apply(c, b, m, run[i - 1], step);
      StepTooFew(c, b, m, run[i - 1], step);
    }
  }

  /** With N > 4f + 1 no honest node ever returns a message. */
  lemma NeverReturns(c: Config, b: Params, m: Bytes, run: seq<System>, i: nat, p: nat)
    requires Fits(c, b) && c.n > 4 * c.f + 1
    requires IsRun(c, b, m, run) && i < |run| && p in c.honest && p in run[i].nodes
    ensures !run[i].nodes[p].outcome.Returned?
  {
    RunTooFew(c, b, m, run, i);
  }

  // ---------------------------------------------------------------- two messages that share f + 1 blocks

  /** k * k zeros. */
  function Common(k: nat): (m: Bytes)
    ensures |m| == k * k
  {
    assert 0 <= k * k;
    seq(k * k, _ => Byte(0))
  }

  /** The same with a one where block i begins. */
  function Other(k: nat, i: nat): (m: Bytes)
    requires i < k
    ensures |m| == k * k
  {
    MarkFits(k, i);
    Common(k)[i * (k + 1) := Byte(1)]
  }

  lemma MarkFits(k: nat, i: nat)
    requires i < k
    ensures 0 <= i * (k + 1) < k * k
  {
    MulMonotone(k + 1, i, k - 1);
    assert (k - 1) * (k + 1) == k * k - 1;
  }

  /** A message of k * k bytes gets one more byte for each block. */
  lemma SquarePad(k: nat, m: Bytes)
    requires 1 <= k <= 256 && |m| == k * k
    ensures |m| % k == 0 && |Pad(k, m)| == k * k + k && |Pad(k, m)| / k == k + 1
    ensures Pad(k, m) == m + Repeat(Chr(0), k)
  {
    DivModUnique(k * k, k, k, 0);
    DivModUnique(k * k + k, k, k + 1, 0);
  }

  lemma BlockStart(k: nat, m: Bytes, j: nat)
    requires 1 <= k <= 256 && |m| == k * k && j < k
    ensures 0 <= j * (k + 1) <= (j + 1) * (k + 1) <= |Pad(k, m)|
    ensures Blocks(k, Pad(k, m))[j] == Pad(k, m)[j * (k + 1) .. (j + 1) * (k + 1)]
  {
    SquarePad(k, m);
    StepBounds(k, |Pad(k, m)|, j);
  }

  /** The blocks before block i are the same. */
  lemma BlocksBefore(k: nat, i: nat, j: nat)
    requires 1 <= k <= 256 && j < i < k
    ensures Blocks(k, Pad(k, Other(k, i)))[j] == Blocks(k, Pad(k, Common(k)))[j]
  {
    var m, d := Common(k), Other(k, i);
    BlockStart(k, m, j);
    BlockStart(k, d, j);
    SquarePad(k, m);
    SquarePad(k, d);
    MarkFits(k, i);
    MulMonotone(k + 1, j + 1, i);
    hide Pad, Blocks;
    SameBefore(m, d, Repeat(Chr(0), k), i * (k + 1), j * (k + 1), (j + 1) * (k + 1));
  }

  lemma SameBefore(m: Bytes, d: Bytes, pad: Bytes, mark: nat, i: nat, j: nat)
    requires i <= j <= mark < |m| && d == m[mark := Byte(1)]
    ensures (d + pad)[i .. j] == (m + pad)[i .. j]
  {
  }

  /** Block i is not. */
  lemma BlockDiffers(k: nat, i: nat)
    requires 1 <= k <= 256 && i < k
    ensures !SamePadding(k, Other(k, i), Common(k))
  {
    var m, d := Common(k), Other(k, i);
    BlockStart(k, m, i);
    BlockStart(k, d, i);
    SquarePad(k, m);
    SquarePad(k, d);
    MarkFits(k, i);
    hide Blocks;
    assert (i + 1) * (k + 1) == i * (k + 1) + (k + 1);
    assert Blocks(k, Pad(k, d))[i][0] == Byte(1) && Blocks(k, Pad(k, m))[i][0] == Byte(0);
  }

  // ---------------------------------------------------------------- one node, vote by vote and share by share

  /** The node after the value `v` from the senders 0 .. j-1. */
  function Votes(n: nat, f: nat, v: Bytes, j: nat): NodeState {
    if j == 0 then FreshNode(n) else OnAddVal(f, Votes(n, f, v, j - 1), j - 1, v).node
  }

  /** No share has arrived yet. */
  predicate NoShares(n: nat, node: NodeState) {
    && node.reconstCounter == seq(n, _ => None) && node.reconstSenders == {} && node.reconstCheck == []
    && node.count == 0 && node.outcome == Running
  }

  ghost predicate Voted(n: nat, f: nat, v: Bytes, j: nat, node: NodeState) {
    && node.dispSenders == Ids(j) && Senders(node.dispCounter, Hash(v)) == Ids(j)
    && (node.reconstructSent <==> f + 1 <= j) && NoShares(n, node)
  }

  /** Vote number f + 1 makes the node send its share. */
  lemma OneVote(n: nat, f: nat, v: Bytes, j: nat, node: NodeState)
    requires Voted(n, f, v, j, node)
    ensures Voted(n, f, v, j + 1, OnAddVal(f, node, j, v).node)
    ensures OnAddVal(f, node, j, v).reconst == if j == f then Some(v) else None
  {
    hide NoShares;
    assert Ids(j + 1) == Ids(j) + {j};
    NoSharesKept(n, f, v, j, node);
  }

  lemma NoSharesKept(n: nat, f: nat, v: Bytes, j: nat, node: NodeState)
    requires NoShares(n, node)
    ensures NoShares(n, OnAddVal(f, node, j, v).node)
  {
  }

  lemma {:induction false} VotesAre(n: nat, f: nat, v: Bytes, j: nat)
    ensures Voted(n, f, v, j, Votes(n, f, v, j))
  {
    if j > 0 {
      VotesAre(n, f, v, j - 1);
      OneVote(n, f, v, j - 1, Votes(n, f, v, j - 1));
    }
  }

  /** The node after the shares strs[0] .. strs[j-1] of the senders 0 .. j-1. */
  function Shares(node: NodeState, strs: seq<Bytes>, j: nat): NodeState
    requires j <= |strs| == |node.reconstCounter|
    ensures |Shares(node, strs, j).reconstCounter| == |strs|
  {
    if j == 0 then node else TakeShare(Shares(node, strs, j - 1), j - 1, strs[j - 1])
  }

  lemma {:induction false} SharesAre(n: nat, node: NodeState, strs: seq<Bytes>, j: nat)
    requires j <= |strs| == |node.reconstCounter| == n && NoShares(n, node)
    ensures var t := Shares(node, strs, j);
            && (forall i :: 0 <= i < n ==> t.reconstCounter[i] == if i < j then Some(strs[i]) else None)
            && PresentFrom(t.reconstCounter, 0) == j && t.reconstSenders == Ids(j)
            && t.count == j && t.outcome == Running
            && |t.reconstCheck| == j && (forall i: nat :: i < j ==> t.reconstCheck[i] == (i, Hash(strs[i])))
  {
    if j == 0 {
      NonePresent(n, 0);
    } else {
      SharesAre(n, node, strs, j - 1);
      OneMorePresent(Shares(node, strs, j - 1).reconstCounter, j - 1, strs[j - 1], 0);
    }
  }

  lemma {:induction false} AllMatch(strs: seq<Bytes>, check: seq<(nat, Bytes)>, i: nat)
    requires i <= |check| <= |strs| && forall j: nat :: j < |check| ==> check[j] == (j, Hash(strs[j]))
    ensures Matches(strs, check, i) == i
  {
    if i > 0 { AllMatch(strs, check, i - 1); }
  }

  /** 2f + 1 shares of one message, its number a multiple of K long: the node returns it. */
  lemma SharesReturn(c: Config, b: Params, node: NodeState, d: Bytes)
    requires Fits(c, b) && b.K() <= 2 * c.f + 1 && |d| % b.K() == 0 && NoShares(c.n, node)
    ensures var strs := Stripes(c, b, d);
            OnReconst(b, Shares(node, strs, 2 * c.f), 2 * c.f, strs[2 * c.f]).outcome == Returned(d)
  {
    var strs := Stripes(c, b, d);
    SharesAre(c.n, node, strs, 2 * c.f);
    SharesAre(c.n, node, strs, 2 * c.f + 1);
    hide Encode, Decode;
    var t := Shares(node, strs, 2 * c.f + 1);
    RoundTripIff(b.code, b.K(), c.n, d, t.reconstCounter);
    AllMatch(strs, t.reconstCheck, 2 * c.f + 1);
  }

  // ---------------------------------------------------------------- a run that ends in another message

  ghost predicate Reachable(c: Config, b: Params, m: Bytes, s: System)
    requires Fits(c, b)
  {
    exists run :: IsRun(c, b, m, run) && run[|run| - 1] == s
  }

  lemma Reach(c: Config, b: Params, m: Bytes, s: System, step: Step)
    requires Fits(c, b) && Reachable(c, b, m, s) && Enabled(c, s, step)
    ensures Reachable(c, b, m, Apply(c, b, m, s, step))
  {
    hide Enabled, Apply, Init;
    var run :| IsRun(c, b, m, run) && run[|run| - 1] == s;
    var longer := run + [Apply(c, b, m, s, step)];
    assert Next(c, b, m, s, Apply(c, b, m, s, step));
    assert IsRun(c, b, m, longer) by {
      forall i | 0 <= i < |longer| - 1 ensures Next(c, b, m, longer[i], longer[i + 1]) {
        if i < |run| - 1 { assert longer[i] == run[i] && longer[i + 1] == run[i + 1]; }
      }
    }
  }

  /** The nodes below j have started. */
  ghost predicate StartedTo(c: Config, b: Params, m: Bytes, s: System, j: nat)
    requires Fits(c, b)
  {
    && s.nodes.Keys == c.honest && s.started == Ids(j)
    && forall q: nat, i: nat :: q < j && i < c.n ==> Sent(s, q, i, AddVal(Stripes(c, b, m)[i]))
  }

  lemma StartEffect(c: Config, b: Params, m: Bytes, s: System, p: nat)
    requires Fits(c, b) && StartedTo(c, b, m, s, p) && p in c.honest
    ensures Enabled(c, s, Start(p)) && StartedTo(c, b, m, Apply(c, b, m, s, Start(p)), p + 1)
    ensures Apply(c, b, m, s, Start(p)).nodes == s.nodes
  {
    hide Encode, Fits;
    var t := Apply(c, b, m, s, Start(p));
    forall q: nat, i: nat | q < p + 1 && i < c.n ensures Sent(t, q, i, AddVal(Stripes(c, b, m)[i])) {
      if q < p { assert Sent(s, q, i, AddVal(Stripes(c, b, m)[i])); }
    }
  }

  lemma StartsFresh(c: Config, b: Params, m: Bytes, s: System)
    requires Fits(c, b) && Init(c, s)
    ensures Reachable(c, b, m, s) && StartedTo(c, b, m, s, 0)
  {
    assert IsRun(c, b, m, [s]);
  }

  lemma {:induction false} StartNodes(c: Config, b: Params, m: Bytes, j: nat) returns (s: System)
    requires Fits(c, b) && forall p: nat :: p < j ==> p in c.honest
    ensures Reachable(c, b, m, s) && StartedTo(c, b, m, s, j)
    ensures forall p :: p in c.honest ==> s.nodes[p] == FreshNode(c.n)
  {
    hide Reachable, Apply, Enabled, FreshNode;
    if j == 0 {
      s := System(map p | p in c.honest :: FreshNode(c.n), {}, {});
      StartsFresh(c, b, m, s);
    } else {
      s := StartNodes(c, b, m, j - 1);
      StartEffect(c, b, m, s, j - 1);
      Reach(c, b, m, s, Start(j - 1));
      s := Apply(c, b, m, s, Start(j - 1));
    }
  }

  lemma VoteEffect(c: Config, b: Params, m: Bytes, s: System, i: nat, q: nat, v: Bytes)
    requires Fits(c, b) && StartedTo(c, b, m, s, c.f + 1) && i in c.honest && i <= c.f && NoShares(c.n, s.nodes[i])
    requires q < c.n && Sent(s, q, i, AddVal(v))
    ensures Enabled(c, s, Deliver(i, q, AddVal(v)))
    ensures var e, t := OnAddVal(c.f, s.nodes[i], q, v), Apply(c, b, m, s, Deliver(i, q, AddVal(v)));
            && t.nodes == s.nodes[i := e.node] && t.started == s.started && s.sent <= t.sent
            && (e.reconst.Some? ==> Sent(t, i, 0, Reconst(e.reconst.value)))
  {
    hide OnAddVal, StartedTo;
    assert 0 in Ids(c.n);
    StartedMeans(c, b, m, s);
  }

  lemma StartedMeans(c: Config, b: Params, m: Bytes, s: System)
    requires Fits(c, b) && StartedTo(c, b, m, s, c.f + 1)
    ensures s.nodes.Keys == c.honest && forall p: nat :: p in s.started <==> p <= c.f
  {
  }

  lemma StartedStays(c: Config, b: Params, m: Bytes, s: System, t: System)
    requires Fits(c, b) && StartedTo(c, b, m, s, c.f + 1)
    requires t.nodes.Keys == c.honest && t.started == s.started && s.sent <= t.sent
    ensures StartedTo(c, b, m, t, c.f + 1)
  {
    forall q: nat, i: nat | q < c.f + 1 && i < c.n ensures Sent(t, q, i, AddVal(Stripes(c, b, m)[i])) {
      assert Sent(s, q, i, AddVal(Stripes(c, b, m)[i]));
    }
  }

  /** Node i takes the votes of the nodes 0 .. j-1 for its stripe; the last of f + 1 makes it send its share. */
  lemma {:induction false} DeliverVotes(c: Config, b: Params, m: Bytes, s: System, i: nat, j: nat) returns (t: System)
    requires Fits(c, b) && Reachable(c, b, m, s) && StartedTo(c, b, m, s, c.f + 1) && i <= c.f < c.n && j <= c.f + 1
    requires i in c.honest && s.nodes.Keys == c.honest && s.nodes[i] == FreshNode(c.n)
    ensures Reachable(c, b, m, t) && StartedTo(c, b, m, t, c.f + 1)
    ensures t.nodes == s.nodes[i := Votes(c.n, c.f, Stripes(c, b, m)[i], j)] && s.sent <= t.sent
    ensures j == c.f + 1 ==> Sent(t, i, 0, Reconst(Stripes(c, b, m)[i]))
  {
    hide Encode, Reachable, OnAddVal, StartedTo, Apply, Enabled, FreshNode, NoShares, Fits, Stripes, Sent, Ids, Senders;
    var v := Stripes(c, b, m)[i];
    if j == 0 {
      t := s;
    } else {
      var u := DeliverVotes(c, b, m, s, i, j - 1);
      VotesAre(c.n, c.f, v, j - 1);
      OneVote(c.n, c.f, v, j - 1, u.nodes[i]);
      AddValSent(c, b, m, u, j - 1, i);
      VoteEffect(c, b, m, u, i, j - 1, v);
      Reach(c, b, m, u, Deliver(i, j - 1, AddVal(v)));
      t := Apply(c, b, m, u, Deliver(i, j - 1, AddVal(v)));
      StartedMeans(c, b, m, u);
      StartedStays(c, b, m, u, t);
    }
  }

  lemma AddValSent(c: Config, b: Params, m: Bytes, s: System, q: nat, i: nat)
    requires Fits(c, b) && StartedTo(c, b, m, s, c.f + 1) && q <= c.f && i < c.n
    ensures Sent(s, q, i, AddVal(Stripes(c, b, m)[i]))
  {
  }

  /** The nodes below j have sent their shares, and those from j on have received nothing. */
  ghost predicate SharesSent(c: Config, b: Params, m: Bytes, s: System, j: nat)
    requires Fits(c, b)
  {
    && s.nodes.Keys == c.honest
    && (forall i: nat :: i < j && i < c.n ==> Sent(s, i, 0, Reconst(Stripes(c, b, m)[i])))
    && (forall i: nat :: j <= i && i in c.honest ==> s.nodes[i] == FreshNode(c.n))
    && (0 < j && 0 in c.honest ==> NoShares(c.n, s.nodes[0]))
  }

  lemma {:induction false} SendShares(c: Config, b: Params, m: Bytes, j: nat) returns (s: System)
    requires Fits(c, b) && j <= c.f + 1 <= c.n && forall p: nat :: p <= c.f ==> p in c.honest
    ensures Reachable(c, b, m, s) && StartedTo(c, b, m, s, c.f + 1) && SharesSent(c, b, m, s, j)
  {
    hide *;
    if j == 0 {
      s := StartNodes(c, b, m, c.f + 1);
      NothingSent(c, b, m, s);
    } else {
      var t := SendShares(c, b, m, j - 1);
      NextIsFresh(c, b, m, t, j - 1);
      s := DeliverVotes(c, b, m, t, j - 1, c.f + 1);
      VotesAre(c.n, c.f, Stripes(c, b, m)[j - 1], c.f + 1);
      OneMoreShareSent(c, b, m, t, j - 1, s);
    }
  }

  lemma NothingSent(c: Config, b: Params, m: Bytes, s: System)
    requires Fits(c, b) && StartedTo(c, b, m, s, c.f + 1)
    requires s.nodes.Keys == c.honest ==> forall p :: p in c.honest ==> s.nodes[p] == FreshNode(c.n)
    ensures SharesSent(c, b, m, s, 0)
  {
    StartedMeans(c, b, m, s);
  }

  lemma NextIsFresh(c: Config, b: Params, m: Bytes, s: System, i: nat)
    requires Fits(c, b) && SharesSent(c, b, m, s, i) && i in c.honest
    ensures s.nodes.Keys == c.honest && s.nodes[i] == FreshNode(c.n)
  {
  }

  lemma OneMoreShareSent(c: Config, b: Params, m: Bytes, s: System, i: nat, t: System)
    requires Fits(c, b) && SharesSent(c, b, m, s, i) && i in c.honest && i < c.n && s.sent <= t.sent
    requires Voted(c.n, c.f, Stripes(c, b, m)[i], c.f + 1, Votes(c.n, c.f, Stripes(c, b, m)[i], c.f + 1))
    requires t.nodes == s.nodes[i := Votes(c.n, c.f, Stripes(c, b, m)[i], c.f + 1)]
    requires Sent(t, i, 0, Reconst(Stripes(c, b, m)[i]))
    ensures SharesSent(c, b, m, t, i + 1)
  {
    hide FreshNode, NoShares, Votes, Fits, Encode;
    forall x: nat | x < i + 1 && x < c.n ensures Sent(t, x, 0, Reconst(Stripes(c, b, m)[x])) {
      if x < i { assert Sent(s, x, 0, Reconst(Stripes(c, b, m)[x])); }
    }
  }

  /** The Byzantine nodes f + 1 .. 2f, the code and the two messages of the run. */
  ghost predicate Disagreement(c: Config, b: Params, m: Bytes, d: Bytes) {
    && Fits(c, b) && c.f + 1 < b.K() <= 2 * c.f + 1
    && (forall p: nat :: p <= c.f ==> p in c.honest) && (forall p: nat :: c.f < p <= 2 * c.f ==> p !in c.honest)
    && |d| % b.K() == 0 && !SamePadding(b.K(), d, m)
    && (forall i: nat :: i <= c.f ==> Stripes(c, b, d)[i] == Stripes(c, b, m)[i])
  }

  /** Share q of the other message may be delivered: an honest node sent it, or its sender is Byzantine. */
  lemma ShareEffect(c: Config, b: Params, m: Bytes, d: Bytes, s: System, q: nat)
    requires Disagreement(c, b, m, d) && StartedTo(c, b, m, s, c.f + 1) && q <= 2 * c.f
    requires |s.nodes[0].reconstCounter| == c.n && s.nodes[0].outcome == Running
    requires forall i: nat :: i <= c.f ==> Sent(s, i, 0, Reconst(Stripes(c, b, m)[i]))
    ensures var step := Deliver(0, q, Reconst(Stripes(c, b, d)[q]));
            && Enabled(c, s, step)
            && Apply(c, b, m, s, step) == s.(nodes := s.nodes[0 := OnReconst(b, s.nodes[0], q, Stripes(c, b, d)[q])])
  {
    hide Encode, OnReconst, StartedTo;
    StartedMeans(c, b, m, s);
    assert q <= c.f ==> Sent(s, q, 0, Reconst(Stripes(c, b, d)[q]));
  }

  lemma SmallShare(c: Config, b: Params, node: NodeState, strs: seq<Bytes>, j: nat)
    requires b.Valid() && b.f == c.f && j < 2 * c.f && |strs| == |node.reconstCounter| == c.n && j < c.n
             && NoShares(c.n, node)
    ensures OnReconst(b, Shares(node, strs, j), j, strs[j]) == Shares(node, strs, j + 1)
  {
    SharesAre(c.n, node, strs, j);
  }

  /** Node 0 has taken the first j shares of the other message. */
  ghost predicate Taken(c: Config, b: Params, m: Bytes, d: Bytes, s: System, node: NodeState, j: nat)
    requires Fits(c, b) && j <= c.n
  {
    && StartedTo(c, b, m, s, c.f + 1) && NoShares(c.n, node) && 0 in s.nodes
    && s.nodes[0] == Shares(node, Stripes(c, b, d), j)
    && forall i: nat :: i <= c.f ==> Sent(s, i, 0, Reconst(Stripes(c, b, m)[i]))
  }

  lemma NoneTaken(c: Config, b: Params, m: Bytes, d: Bytes, s: System)
    requires Disagreement(c, b, m, d) && StartedTo(c, b, m, s, c.f + 1) && SharesSent(c, b, m, s, c.f + 1)
    ensures 0 in s.nodes && Taken(c, b, m, d, s, s.nodes[0], 0)
  {
  }

  ghost function OtherShare(c: Config, b: Params, d: Bytes, q: nat): Step
    requires Fits(c, b) && q < c.n
  {
    Deliver(0, q, Reconst(Stripes(c, b, d)[q]))
  }

  lemma ShareEnabled(c: Config, b: Params, m: Bytes, d: Bytes, s: System, node: NodeState, j: nat)
    requires Disagreement(c, b, m, d) && j <= 2 * c.f && Taken(c, b, m, d, s, node, j)
    ensures Enabled(c, s, OtherShare(c, b, d, j))
    ensures Apply(c, b, m, s, OtherShare(c, b, d, j))
            == s.(nodes := s.nodes[0 := OnReconst(b, Shares(node, Stripes(c, b, d), j), j, Stripes(c, b, d)[j])])
  {
    hide Stripes, NoShares, StartedTo, OnReconst, SamePadding, Enabled, Apply, IsErasureCode, Shares, Ids;
    TakenNode(c, b, m, d, s, node, j);
    SharesAre(c.n, node, Stripes(c, b, d), j);
    ShareEffect(c, b, m, d, s, j);
  }

  lemma OneMoreTaken(c: Config, b: Params, m: Bytes, d: Bytes, s: System, node: NodeState, j: nat, t: System)
    requires Disagreement(c, b, m, d) && j < 2 * c.f && Taken(c, b, m, d, s, node, j)
    requires t == s.(nodes := s.nodes[0 := OnReconst(b, Shares(node, Stripes(c, b, d), j), j, Stripes(c, b, d)[j])])
    ensures Taken(c, b, m, d, t, node, j + 1)
  {
    hide Stripes, NoShares, StartedTo, OnReconst, SamePadding, IsErasureCode, Shares, Ids;
    TakenNode(c, b, m, d, s, node, j);
    SmallShare(c, b, node, Stripes(c, b, d), j);
    StartedMeans(c, b, m, s);
    StartedStays(c, b, m, s, t);
    forall i: nat | i <= c.f ensures Sent(t, i, 0, Reconst(Stripes(c, b, m)[i])) {
      assert Sent(s, i, 0, Reconst(Stripes(c, b, m)[i]));
    }
  }

  lemma {:induction false} DeliverShares(c: Config, b: Params, m: Bytes, d: Bytes, j: nat)
    returns (s: System, node: NodeState)
    requires Disagreement(c, b, m, d) && j <= 2 * c.f < c.n
    ensures Reachable(c, b, m, s) && Taken(c, b, m, d, s, node, j)
  {
    hide Reachable, StartedTo, SharesSent, Taken, Enabled, Apply, OtherShare, SamePadding;
    if j == 0 {
      s := SendShares(c, b, m, c.f + 1);
      NoneTaken(c, b, m, d, s);
      node := s.nodes[0];
    } else {
      var t;
      t, node := DeliverShares(c, b, m, d, j - 1);
      ShareEnabled(c, b, m, d, t, node, j - 1);
      Reach(c, b, m, t, OtherShare(c, b, d, j - 1));
      s := Apply(c, b, m, t, OtherShare(c, b, d, j - 1));
      TakenNode(c, b, m, d, t, node, j - 1);
      OneMoreTaken(c, b, m, d, t, node, j - 1, s);
    }
  }

  lemma TakenNode(c: Config, b: Params, m: Bytes, d: Bytes, s: System, node: NodeState, j: nat)
    requires Disagreement(c, b, m, d) && j <= 2 * c.f && Taken(c, b, m, d, s, node, j)
    ensures 0 in s.nodes && |node.reconstCounter| == c.n
  {
  }

  /** Node 0 returns the other message. */
  lemma ReturnsOther(c: Config, b: Params, m: Bytes, d: Bytes) returns (s: System)
    requires Disagreement(c, b, m, d)
    ensures Reachable(c, b, m, s) && 0 in c.honest && 0 in s.nodes && s.nodes[0].outcome == Returned(d)
  {
    var t, node := DeliverShares(c, b, m, d, 2 * c.f);
    hide Reachable, StartedTo, Stripes, Enabled, Apply, OtherShare, OnReconst, SamePadding;
    ShareEnabled(c, b, m, d, t, node, 2 * c.f);
    Reach(c, b, m, t, OtherShare(c, b, d, 2 * c.f));
    s := Apply(c, b, m, t, OtherShare(c, b, d, 2 * c.f));
    SharesReturn(c, b, node, d);
  }

  // ---------------------------------------------------------------- the exact range

  lemma AllButSome(n: nat, f: nat) returns (honest: set<nat>)
    requires 2 * f + 1 <= n
    ensures honest <= Ids(n) && n - f <= |honest|
    ensures forall p: nat :: p in honest <==> p < n && !(f < p <= 2 * f)
  {
    var bad := Ids(2 * f + 1) - Ids(f + 1);
    honest := Ids(n) - bad;
    assert |bad| == f by { assert Ids(2 * f + 1) == Ids(f + 1) + bad; }
    SubsetIds(n, bad);
  }

  lemma SubsetIds(n: nat, bad: set<nat>)
    requires bad <= Ids(n)
    ensures |Ids(n) - bad| == n - |bad|
  {
    assert Ids(n) == (Ids(n) - bad) + bad;
  }

  lemma SystematicStripes(c: Config, b: Params, m: Bytes, i: nat)
    requires Fits(c, b) && b.code == Systematic(b.K(), c.n) && i < b.K()
    ensures Stripes(c, b, m)[i] == Blocks(b.K(), Pad(b.K(), m))[i]
  {
    hide Pad, Blocks;
  }

  lemma Participants(n: nat, f: nat) returns (c: Config, b: Params)
    requires 3 * f + 1 < n && n - 2 * f <= 256
    ensures c.n == n && c.f == f && Fits(c, b) && b.code == Systematic(b.K(), n)
    ensures forall p: nat :: p in c.honest <==> p < n && !(f < p <= 2 * f)
  {
    var k := n - 2 * f;
    var honest := AllButSome(n, f);
    c, b := Config(n, f, honest), Params(n, f, Systematic(k, n));
    SystematicIsCode(k, n);
  }

  lemma Disagree(n: nat, f: nat) returns (c: Config, b: Params, m: Bytes, d: Bytes)
    requires 3 * f + 1 < n <= 4 * f + 1 && n - 2 * f <= 256
    ensures c.n == n && c.f == f && Disagreement(c, b, m, d)
  {
    c, b := Participants(n, f);
    var k := n - 2 * f;
    m, d := Common(k), Other(k, f + 1);
    hide Systematic, Common, Other, Pad, Blocks, SamePadding, Stripes, IsErasureCode;
    SquarePad(k, d);
    BlockDiffers(k, f + 1);
    forall i: nat | i <= f ensures Stripes(c, b, d)[i] == Stripes(c, b, m)[i] {
      SystematicStripes(c, b, d, i);
      SystematicStripes(c, b, m, i);
      BlocksBefore(k, f + 1, i);
    }
  }

  /** What the node returned, if it did, has the stripes of the common message. */
  ghost predicate SafeNode(b: Params, m: Bytes, node: NodeState)
    requires b.Valid()
  {
    node.outcome.Returned? ==> SamePadding(b.K(), node.outcome.m, m)
  }

  ghost predicate SafeRun(c: Config, b: Params, m: Bytes, run: seq<System>)
    requires Fits(c, b)
  {
    IsRun(c, b, m, run) ==>
      forall i, p :: 0 <= i < |run| && p in c.honest && p in run[i].nodes ==> SafeNode(b, m, run[i].nodes[p])
  }

  ghost predicate Safe(n: nat, f: nat) {
    forall c: Config, b: Params, m: Bytes, run: seq<System> ::
      c.n == n && c.f == f && Fits(c, b) ==> SafeRun(c, b, m, run)
  }

  lemma SafeWhen(c: Config, b: Params, m: Bytes, run: seq<System>)
    requires Fits(c, b) && (c.n == 3 * c.f + 1 || c.n > 4 * c.f + 1)
    ensures SafeRun(c, b, m, run)
  {
    hide SamePadding, IsRun;
    if IsRun(c, b, m, run) {
      forall i, p | 0 <= i < |run| && p in c.honest && p in run[i].nodes ensures SafeNode(b, m, run[i].nodes[p]) {
        if c.n == 3 * c.f + 1 { Safety(c, b, m, run, i, p); } else { NeverReturns(c, b, m, run, i, p); }
      }
    }
  }

  /** The dissemination is safe for N = 3f + 1, and above 4f + 1, where no node returns; and for no other N. */
  lemma SafeIff(n: nat, f: nat)
    requires 3 * f + 1 <= n && n - 2 * f <= 256
    ensures Safe(n, f) <==> n == 3 * f + 1 || n > 4 * f + 1
  {
    hide SafeRun, Fits, Disagreement;
    if n == 3 * f + 1 || n > 4 * f + 1 {
      forall c: Config, b: Params, m: Bytes, run: seq<System> | c.n == n && c.f == f && Fits(c, b)
        ensures SafeRun(c, b, m, run)
      {
        SafeWhen(c, b, m, run);
      }
    } else {
      var c, b, m, d := Disagree(n, f);
      var run := UnsafeRun(c, b, m, d);
      assert !SafeRun(c, b, m, run);
    }
  }

  /** A returned message is the common one. */
  ghost predicate ExactRun(c: Config, b: Params, m: Bytes, run: seq<System>)
    requires Fits(c, b)
  {
    IsRun(c, b, m, run) ==>
      forall i, p :: 0 <= i < |run| && p in c.honest && p in run[i].nodes && run[i].nodes[p].outcome.Returned? ==>
        run[i].nodes[p].outcome.m == m
  }

  ghost predicate Exact(n: nat, f: nat) {
    forall c: Config, b: Params, m: Bytes, run: seq<System> ::
      c.n == n && c.f == f && Fits(c, b) ==> ExactRun(c, b, m, run)
  }

  lemma ExactWhen(c: Config, b: Params, m: Bytes, run: seq<System>)
    requires Fits(c, b) && c.n <= ZFEC_LIMIT && (c.n == 3 * c.f + 1 || c.n > 4 * c.f + 1)
    ensures ExactRun(c, b, m, run)
  {
    hide SamePadding, IsRun;
    if IsRun(c, b, m, run) {
      forall i, p | 0 <= i < |run| && p in c.honest && p in run[i].nodes && run[i].nodes[p].outcome.Returned?
        ensures run[i].nodes[p].outcome.m == m
      {
        if c.n == 3 * c.f + 1 { Safety(c, b, m, run, i, p); } else { NeverReturns(c, b, m, run, i, p); }
      }
    }
  }

  /** For the sizes that zfec takes these are also the N for which a returned message is always the common one. */
  lemma ExactIff(n: nat, f: nat)
    requires 3 * f + 1 <= n <= ZFEC_LIMIT
    ensures Exact(n, f) <==> n == 3 * f + 1 || n > 4 * f + 1
  {
    hide ExactRun, Fits, Disagreement;
    if n == 3 * f + 1 || n > 4 * f + 1 {
      forall c: Config, b: Params, m: Bytes, run: seq<System> | c.n == n && c.f == f && Fits(c, b)
        ensures ExactRun(c, b, m, run)
      {
        ExactWhen(c, b, m, run);
      }
    } else {
      var c, b, m, d := Disagree(n, f);
      var run := UnsafeRun(c, b, m, d);
      if ExactRun(c, b, m, run) { ExactIsSafe(c, b, m, run); }
    }
  }

  lemma ExactIsSafe(c: Config, b: Params, m: Bytes, run: seq<System>)
    requires Fits(c, b) && ExactRun(c, b, m, run)
    ensures SafeRun(c, b, m, run)
  {
    hide IsRun;
  }

  lemma UnsafeRun(c: Config, b: Params, m: Bytes, d: Bytes) returns (run: seq<System>)
    requires Disagreement(c, b, m, d)
    ensures Fits(c, b) && !SafeRun(c, b, m, run)
  {
    hide SamePadding;
    var s := ReturnsOther(c, b, m, d);
    run :| IsRun(c, b, m, run) && run[|run| - 1] == s;
    assert !SafeNode(b, m, run[|run| - 1].nodes[0]);
  }
}
