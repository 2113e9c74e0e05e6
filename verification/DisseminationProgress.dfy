// When a node of the dissemination votes, shares, returns and gives up.
module DisseminationProgress {
  import opened Options
  import opened Quorums
  import opened Merkle
  import opened Erasure
  import opened Dissemination
  import opened DisseminationRuns

  // ---------------------------------------------------------------- shares

  /** The shares recorded and the pairs to check are those of the senders. */
  ghost predicate Recorded(n: nat, node: NodeState) {
    && |node.reconstCounter| == n
    && node.count == |node.reconstCheck| == |node.reconstSenders|
    && (forall i: nat {:trigger i in node.reconstSenders} ::
          i in node.reconstSenders <==> i < n && node.reconstCounter[i].Some?)
    && (forall j :: 0 <= j < |node.reconstCheck| ==> node.reconstCheck[j].0 in node.reconstSenders)
    && (forall i: nat {:trigger i in node.reconstSenders} :: i in node.reconstSenders ==> Paired(node, i))
  }

  ghost predicate Paired(node: NodeState, i: nat)
    requires i < |node.reconstCounter| && node.reconstCounter[i].Some?
  {
    exists j :: 0 <= j < |node.reconstCheck| && node.reconstCheck[j] == (i, Hash(node.reconstCounter[i].value))
  }

  /** How the record ends: with 2f + 1 shares on, the shares recorded last have been decoded, encoded and compared. */
  ghost predicate Judged(b: Params, node: NodeState)
    requires b.Valid()
  {
    var decoded := Decode(b.code, b.K(), node.reconstCounter);
    match node.outcome
    case Running => node.count <= 2 * b.f || (node.count < b.n && decoded.Some? && !Enough(b, node, decoded.value))
    case Returned(m) => decoded == Some(m) && Enough(b, node, m)
    case Failed => b.n <= node.count && decoded.Some? && !Enough(b, node, decoded.value)
    case Raised => decoded == None
  }

  predicate Enough(b: Params, node: NodeState, m: Bytes)
    requires b.Valid()
  {
    2 * b.f + 1 <= Matches(Encode(b.code, b.K(), m), node.reconstCheck, |node.reconstCheck|)
  }

  lemma FreshShares(b: Params)
    requires b.Valid()
    ensures Recorded(b.n, FreshNode(b.n)) && Judged(b, FreshNode(b.n))
  {
  }

  lemma TakeRecorded(n: nat, node: NodeState, q: nat, value: Bytes)
    requires Recorded(n, node) && q < n && q !in node.reconstSenders
    ensures Recorded(n, TakeShare(node, q, value))
  {
    var t := TakeShare(node, q, value);
    forall i | i in t.reconstSenders ensures Paired(t, i) {
      if i == q {
        assert t.reconstCheck[|node.reconstCheck|] == (q, Hash(value));
      } else {
        assert i in node.reconstSenders && Paired(node, i);
        var j :| 0 <= j < |node.reconstCheck| && node.reconstCheck[j] == (i, Hash(node.reconstCounter[i].value));
        assert t.reconstCheck[j] == node.reconstCheck[j];
      }
    }
  }

  lemma OutcomeKeepsRecord(n: nat, node: NodeState, o: Outcome)
    requires Recorded(n, node)
    ensures Recorded(n, node.(outcome := o))
  {
    var t := node.(outcome := o);
    forall i: nat | i in t.reconstSenders ensures Paired(t, i) { assert Paired(node, i); }
  }

  lemma AttemptJudged(b: Params, t: NodeState)
    requires b.Valid() && 2 * b.f + 1 <= t.count
    ensures Judged(b, t.(outcome := Attempt(b, t)))
  {
    hide Decode, Encode, Matches;
  }

  lemma FewJudged(b: Params, t: NodeState)
    requires b.Valid() && t.count <= 2 * b.f && t.outcome == Running
    ensures Judged(b, t)
  {
    hide Decode, Encode, Matches;
  }

  lemma ShareJudged(b: Params, node: NodeState, q: nat, value: Bytes)
    requires b.Valid() && Recorded(b.n, node) && Judged(b, node) && node.outcome == Running && q < b.n
    ensures Recorded(b.n, OnReconst(b, node, q, value)) && Judged(b, OnReconst(b, node, q, value))
  {
    hide Recorded, Judged, Attempt;
    CountIs(b.n, node);
    if q !in node.reconstSenders {
      TakeRecorded(b.n, node, q, value);
      var t := TakeShare(node, q, value);
      OutcomeKeepsRecord(b.n, t, Attempt(b, t));
      if 2 * b.f + 1 <= t.count { AttemptJudged(b, t); } else { FewJudged(b, t); }
    }
  }

  lemma CountIs(n: nat, node: NodeState)
    requires Recorded(n, node)
    ensures node.count == |node.reconstCheck| && |node.reconstCounter| == n
  {
  }

  lemma VoteKeepsShares(b: Params, node: NodeState, q: nat, value: Bytes)
    requires b.Valid() && Recorded(b.n, node) && Judged(b, node)
    ensures Recorded(b.n, OnAddVal(b.f, node, q, value).node) && Judged(b, OnAddVal(b.f, node, q, value).node)
  {
    var t := OnAddVal(b.f, node, q, value).node;
    assert t == node.(dispCounter := t.dispCounter, dispSenders := t.dispSenders, reconstructSent := t.reconstructSent);
    forall i | i in t.reconstSenders ensures Paired(t, i) { assert Paired(node, i); }
  }

  // ---------------------------------------------------------------- what genuine shares lead to

  /** Recorded and equal to the stripe of the common message. */
  function Genuine(strs: seq<Bytes>, node: NodeState): set<nat>
    requires |strs| == |node.reconstCounter|
  {
    set i: nat | i < |strs| && node.reconstCounter[i] == Some(strs[i])
  }

  lemma {:induction false} MatchesAtLeast(strs: seq<Bytes>, check: seq<(nat, Bytes)>, i: nat, g: set<nat>)
    requires i <= |check|
    requires forall x :: x in g ==> x < |strs| && exists j :: 0 <= j < i && check[j] == (x, Hash(strs[x]))
    ensures |g| <= Matches(strs, check, i)
  {
    if i == 0 {
      assert g == {};
    } else {
      var x := check[i - 1].0;
      if x in g && check[i - 1] == (x, Hash(strs[x])) {
        MatchesAtLeast(strs, check, i - 1, g - {x});
        assert g == (g - {x}) + {x};
      } else {
        MatchesAtLeast(strs, check, i - 1, g);
      }
    }
  }

  lemma GenuineMatch(strs: seq<Bytes>, node: NodeState)
    requires Recorded(|strs|, node)
    ensures |Genuine(strs, node)| <= Matches(strs, node.reconstCheck, |node.reconstCheck|)
  {
    forall x | x in Genuine(strs, node)
      ensures exists j :: 0 <= j < |node.reconstCheck| && node.reconstCheck[j] == (x, Hash(strs[x]))
    {
      assert x in node.reconstSenders && Paired(node, x);
    }
    MatchesAtLeast(strs, node.reconstCheck, |node.reconstCheck|, Genuine(strs, node));
  }

  /** Below `cut` at least k shares are recorded, all of them genuine: so the k lowest-numbered ones are. */
  ghost predicate LowestGenuine(k: nat, strs: seq<Bytes>, node: NodeState, cut: nat) {
    && cut <= |strs| == |node.reconstCounter|
    && (forall i :: 0 <= i < cut && node.reconstCounter[i].Some? ==> node.reconstCounter[i] == Some(strs[i]))
    && k <= |set i: nat | i < cut && node.reconstCounter[i].Some?|
  }

  /** The shares below `cut` alone. */
  function Below(stripes: seq<Option<Bytes>>, cut: nat): (r: seq<Option<Bytes>>)
    ensures |r| == |stripes|
  {
    seq(|stripes|, i requires 0 <= i < |stripes| => if i < cut then stripes[i] else None)
  }

  /** The scan of `decode` stops below `cut`. */
  lemma {:induction false} ScanStops(k: nat, stripes: seq<Option<Bytes>>, cut: nat, from: nat)
    requires from <= |stripes| && k <= PresentFrom(Below(stripes, cut), from)
    ensures FirstStripes(k, stripes, from) == FirstStripes(k, Below(stripes, cut), from)
    ensures forall i :: 0 <= i < |FirstStripes(k, stripes, from)| ==> FirstStripes(k, stripes, from)[i] < cut
    decreases |stripes| - from
  {
    if k != 0 && from < |stripes| {
      if from >= cut {
        AboveCut(stripes, cut, from);
      } else {
        ScanStops(if stripes[from] == None then k else k - 1, stripes, cut, from + 1);
      }
    }
  }

  lemma {:induction false} AboveCut(stripes: seq<Option<Bytes>>, cut: nat, from: nat)
    requires cut <= from <= |stripes|
    ensures PresentFrom(Below(stripes, cut), from) == 0
    decreases |stripes| - from
  {
    if from < |stripes| { AboveCut(stripes, cut, from + 1); }
  }

  lemma DecodesBelow(code: Code, k: nat, stripes: seq<Option<Bytes>>, cut: nat)
    requires k <= PresentFrom(Below(stripes, cut), 0)
    ensures Decode(code, k, stripes) == Decode(code, k, Below(stripes, cut))
  {
    ScanStops(k, stripes, cut, 0);
    var nums := FirstStripes(k, stripes, 0);
    assert Values(stripes, nums) == Values(Below(stripes, cut), nums);
  }

  /** From genuine lowest shares `decode` rebuilds the message, if its padding is recoverable. */
  lemma LowestDecode(code: Code, k: nat, n: nat, m: Bytes, node: NodeState, cut: nat)
    requires IsErasureCode(code, k, n) && |Encode(code, k, m)| == n && PadRecoverable(k, |m|)
    requires LowestGenuine(k, Encode(code, k, m), node, cut)
    ensures Decode(code, k, node.reconstCounter) == Some(m)
  {
    var strs, low := Encode(code, k, m), Below(node.reconstCounter, cut);
    PresentCount(low, 0);
    assert PresentSet(low, 0) == set i: nat | i < cut && node.reconstCounter[i].Some?;
    hide Encode, Decode, PadRecoverable, IsErasureCode;
    DecodesBelow(code, k, node.reconstCounter, cut);
    assert StripesOf(strs, low);
    RoundTripIff(code, k, n, m, low);
  }

  lemma GenuineReturnsInState(c: Config, b: Params, m: Bytes, node: NodeState, cut: nat)
    requires Fits(c, b) && Recorded(c.n, node) && Judged(b, node) && PadRecoverable(b.K(), |m|)
    requires LowestGenuine(b.K(), Stripes(c, b, m), node, cut)
    requires 2 * c.f + 1 <= |Genuine(Stripes(c, b, m), node)|
    ensures node.outcome == Returned(m)
  {
    hide Encode, Decode, PadRecoverable, IsErasureCode, Matches, Recorded, Genuine, LowestGenuine;
    LowestDecode(b.code, b.K(), b.n, m, node, cut);
    GenuineMatch(Stripes(c, b, m), node);
    MatchesBounded(Stripes(c, b, m), node.reconstCheck, |node.reconstCheck|);
    CountIs(c.n, node);
  }

  lemma {:induction false} MatchesBounded(strs: seq<Bytes>, check: seq<(nat, Bytes)>, i: nat)
    requires i <= |check|
    ensures Matches(strs, check, i) <= i
  {
    if i > 0 { MatchesBounded(strs, check, i - 1); }
  }

  // ---------------------------------------------------------------- every run

  ghost predicate NodeJudged(b: Params, node: NodeState)
    requires b.Valid()
  {
    Recorded(b.n, node) && Judged(b, node)
  }

  ghost predicate AllJudged(c: Config, b: Params, s: System)
    requires b.Valid()
  {
    s.nodes.Keys == c.honest && forall p :: p in c.honest ==> NodeJudged(b, s.nodes[p])
  }

  lemma StepJudged(c: Config, b: Params, m: Bytes, s: System, step: Step)
    requires Fits(c, b) && AllJudged(c, b, s) && Enabled(c, s, step)
    ensures AllJudged(c, b, Apply(c, b, m, s, step))
  {
    hide Recorded, Judged, OnReconst, OnAddVal, Stripes, IsErasureCode;
    match step
    case Start(p) =>
    case Deliver(p, q, AddVal(value)) =>
      assert NodeJudged(b, s.nodes[p]);
      VoteKeepsShares(b, s.nodes[p], q, value);
    case Deliver(p, q, Reconst(value)) =>
      assert NodeJudged(b, s.nodes[p]);
      ShareJudged(b, s.nodes[p], q, value);
  }

  lemma {:induction false} RunJudged(c: Config, b: Params, m: Bytes, run: seq<System>, i: nat)
    requires Fits(c, b) && IsRun(c, b, m, run) && i < |run|
    ensures AllJudged(c, b, run[i])
  {
    hide Enabled, Apply, NodeJudged;
    if i == 0 {
      forall p | p in c.honest ensures NodeJudged(b, run[0].nodes[p]) { FreshJudged(b); }
    } else {
      RunJudged(c, b, m, run, i - 1);
      assert Next(c, b, m, run[i - 1], run[i]);
      var step :| Enabled(c, run[i - 1], step) && run[i] == Apply(c, b, m, run[i - 1], step);
      StepJudged(c, b, m, run[i - 1], step);
    }
  }

  lemma FreshJudged(b: Params)
    requires b.Valid()
    ensures NodeJudged(b, FreshNode(b.n))
  {
    FreshShares(b);
  }

  lemma OwnJudged(c: Config, b: Params, m: Bytes, run: seq<System>, i: nat, p: nat)
    requires Fits(c, b) && IsRun(c, b, m, run) && i < |run| && p in c.honest
    ensures p in run[i].nodes && Recorded(c.n, run[i].nodes[p]) && Judged(b, run[i].nodes[p])
  {
    hide IsRun, Recorded, Judged, IsErasureCode;
    RunJudged(c, b, m, run, i);
    assert NodeJudged(b, run[i].nodes[p]);
  }

  /** A node gives up only when the shares of all N nodes have arrived. */
  lemma FailedSawAll(c: Config, b: Params, m: Bytes, run: seq<System>, i: nat, p: nat)
    requires Fits(c, b) && IsRun(c, b, m, run) && i < |run| && p in c.honest && p in run[i].nodes
    requires run[i].nodes[p].outcome == Failed
    ensures |run[i].nodes[p].reconstCounter| == c.n
    ensures forall j :: 0 <= j < c.n ==> run[i].nodes[p].reconstCounter[j].Some?
  {
    hide IsRun, IsErasureCode, Decode, Encode;
    OwnJudged(c, b, m, run, i, p);
    var node := run[i].nodes[p];
    assert node.reconstSenders <= Ids(c.n);
    if j: nat :| j < c.n && node.reconstCounter[j] == None {
      SubsetSize(node.reconstSenders, Ids(c.n) - {j});
    }
  }

  /** With 2f + 1 genuine shares, among them the K lowest recorded, and a recoverable padding the message has been
      returned. */
  lemma GenuineReturns(c: Config, b: Params, m: Bytes, run: seq<System>, i: nat, p: nat, cut: nat)
    requires Fits(c, b) && IsRun(c, b, m, run) && i < |run| && p in c.honest && p in run[i].nodes
    requires |run[i].nodes[p].reconstCounter| == c.n && PadRecoverable(b.K(), |m|)
    requires LowestGenuine(b.K(), Stripes(c, b, m), run[i].nodes[p], cut)
    requires 2 * c.f + 1 <= |Genuine(Stripes(c, b, m), run[i].nodes[p])|
    ensures run[i].nodes[p].outcome == Returned(m)
  {
    hide IsRun, IsErasureCode, Recorded, Judged, PadRecoverable, LowestGenuine, Genuine, Stripes;
    OwnJudged(c, b, m, run, i, p);
    GenuineReturnsInState(c, b, m, run[i].nodes[p], cut);
  }

  // ---------------------------------------------------------------- votes

  ghost predicate SharedOnce(c: Config, s: System, p: nat, value: Bytes) {
    forall i: nat :: i < c.n ==> Sent(s, p, i, Reconst(value))
  }

  /** Every sender's value was counted, and only one of each sender; f + 1 equal values made the node send them on, to
      all. */
  ghost predicate VotesDue(c: Config, s: System, p: nat)
    requires p in s.nodes
  {
    var node := s.nodes[p];
    && (forall q: nat {:trigger q in node.dispSenders} ::
          q in node.dispSenders ==> exists h :: q in Senders(node.dispCounter, h))
    && (forall q, h {:trigger q in Senders(node.dispCounter, h)} ::
          q in Senders(node.dispCounter, h) ==> q in node.dispSenders)
    && (forall q, h, g {:trigger q in Senders(node.dispCounter, h), q in Senders(node.dispCounter, g)} ::
          q in Senders(node.dispCounter, h) && q in Senders(node.dispCounter, g) ==> h == g)
    && (forall h {:trigger Senders(node.dispCounter, h)} ::
          c.f + 1 <= |Senders(node.dispCounter, h)| ==> node.reconstructSent)
    && (node.reconstructSent ==> exists value :: SharedOnce(c, s, p, value))
  }

  /** Honest nodes vote for and share the stripes of the common message. */
  ghost predicate Voting(c: Config, strs: seq<Bytes>, s: System)
    requires |strs| == c.n
  {
    && s.nodes.Keys == c.honest && SentOk(c, strs, s)
    && (forall p :: p in c.honest ==> p < c.n && VotesOk(c, strs, p, s.nodes[p]) && VotesDue(c, s, p))
  }

  lemma VoteCounted(f: nat, node: NodeState, q: nat, value: Bytes)
    ensures var t := OnAddVal(f, node, q, value).node;
            && q in t.dispSenders
            && (q !in node.dispSenders ==> q in Senders(t.dispCounter, Hash(value)))
            && (forall h, x :: x in Senders(node.dispCounter, h) ==> x in Senders(t.dispCounter, h))
            && t.dispSenders == node.dispSenders + {q}
  {
  }

  lemma NoOtherVote(f: nat, node: NodeState, q: nat, value: Bytes)
    ensures var t := OnAddVal(f, node, q, value).node;
            forall h, x :: x in Senders(t.dispCounter, h) ==>
              x in Senders(node.dispCounter, h) || (x == q && h == Hash(value) && q !in node.dispSenders)
  {
  }

  lemma VoteThreshold(f: nat, node: NodeState, q: nat, value: Bytes)
    requires forall h :: f + 1 <= |Senders(node.dispCounter, h)| ==> node.reconstructSent
    ensures var e := OnAddVal(f, node, q, value);
            && (forall h :: f + 1 <= |Senders(e.node.dispCounter, h)| ==> e.node.reconstructSent)
            && (e.node.reconstructSent ==> node.reconstructSent || e.reconst.Some?)
  {
    var e := OnAddVal(f, node, q, value);
    forall h | f + 1 <= |Senders(e.node.dispCounter, h)| ensures e.node.reconstructSent {
      assert h == Hash(value) || Senders(e.node.dispCounter, h) == Senders(node.dispCounter, h);
    }
  }

  lemma SharedStays(c: Config, s: System, t: System, p: nat, value: Bytes)
    requires SharedOnce(c, s, p, value) && s.sent <= t.sent
    ensures SharedOnce(c, t, p, value)
  {
    forall i: nat | i < c.n ensures Sent(t, p, i, Reconst(value)) { assert Sent(s, p, i, Reconst(value)); }
  }

  lemma OthersVotesDue(c: Config, s: System, t: System, p: nat)
    requires p in s.nodes && p in t.nodes && VotesDue(c, s, p) && s.sent <= t.sent
    requires t.nodes[p].dispCounter == s.nodes[p].dispCounter && t.nodes[p].dispSenders == s.nodes[p].dispSenders
    requires t.nodes[p].reconstructSent == s.nodes[p].reconstructSent
    ensures VotesDue(c, t, p)
  {
    if t.nodes[p].reconstructSent {
      var value :| SharedOnce(c, s, p, value);
      SharedStays(c, s, t, p, value);
    }
  }

  lemma VoteDue(c: Config, s: System, t: System, p: nat, q: nat, value: Bytes)
    requires p in s.nodes && VotesDue(c, s, p) && s.sent <= t.sent && p in t.nodes
    requires t.nodes[p] == OnAddVal(c.f, s.nodes[p], q, value).node
    requires var r := OnAddVal(c.f, s.nodes[p], q, value).reconst;
             r.Some? ==> SharedOnce(c, t, p, r.value)
    ensures VotesDue(c, t, p)
  {
    hide OnAddVal;
    VoteCounted(c.f, s.nodes[p], q, value);
    NoOtherVote(c.f, s.nodes[p], q, value);
    VoteThreshold(c.f, s.nodes[p], q, value);
    var node := t.nodes[p];
    forall x: nat | x in node.dispSenders ensures exists h :: x in Senders(node.dispCounter, h) {
      if x in s.nodes[p].dispSenders {
        var h :| x in Senders(s.nodes[p].dispCounter, h);
        assert x in Senders(node.dispCounter, h);
      } else {
        assert x in Senders(node.dispCounter, Hash(value));
      }
    }
    if s.nodes[p].reconstructSent {
      var v :| SharedOnce(c, s, p, v);
      SharedStays(c, s, t, p, v);
    }
  }

  lemma StartVoting(c: Config, b: Params, m: Bytes, s: System, p: nat)
    requires Fits(c, b) && Voting(c, Stripes(c, b, m), s) && Enabled(c, s, Start(p))
    ensures Voting(c, Stripes(c, b, m), Apply(c, b, m, s, Start(p)))
  {
    hide Encode, VotesDue, VotesOk;
    var t := Apply(c, b, m, s, Start(p));
    SentKept(c, Stripes(c, b, m), s, t, p);
    forall x | x in c.honest ensures VotesDue(c, t, x) { OthersVotesDue(c, s, t, x); }
  }

  lemma AddValVoting(c: Config, b: Params, m: Bytes, s: System, p: nat, q: nat, value: Bytes)
    requires Fits(c, b) && Voting(c, Stripes(c, b, m), s) && Enabled(c, s, Deliver(p, q, AddVal(value)))
    ensures Voting(c, Stripes(c, b, m), Apply(c, b, m, s, Deliver(p, q, AddVal(value))))
  {
    hide Encode, VotesDue, VotesOk, OnAddVal;
    var strs, t := Stripes(c, b, m), Apply(c, b, m, s, Deliver(p, q, AddVal(value)));
    var e := OnAddVal(c.f, s.nodes[p], q, value);
    assert p in Ids(c.n) && Vote(c, strs, p, q, Hash(value));
    VoteKept(c, strs, p, s.nodes[p], q, value);
    if e.reconst.Some? {
      ReconstIsVoted(c.f, s.nodes[p], q, value);
      VotedStripe(c, strs, p, e.node, value);
      assert SharedOnce(c, t, p, value);
    }
    SentKept(c, strs, s, t, p);
    forall x | x in c.honest ensures x < c.n && VotesOk(c, strs, x, t.nodes[x]) && VotesDue(c, t, x) {
      if x == p { VoteDue(c, s, t, p, q, value); } else { OthersVotesDue(c, s, t, x); }
    }
  }

  lemma ReconstIsVoted(f: nat, node: NodeState, q: nat, value: Bytes)
    requires OnAddVal(f, node, q, value).reconst.Some?
    ensures OnAddVal(f, node, q, value).reconst.value == value
    ensures f + 1 <= |Senders(OnAddVal(f, node, q, value).node.dispCounter, Hash(value))|
  {
  }

  lemma ReconstVoting(c: Config, b: Params, m: Bytes, s: System, p: nat, q: nat, value: Bytes)
    requires Fits(c, b) && Voting(c, Stripes(c, b, m), s) && Enabled(c, s, Deliver(p, q, Reconst(value)))
    ensures Voting(c, Stripes(c, b, m), Apply(c, b, m, s, Deliver(p, q, Reconst(value))))
  {
    hide Stripes, OnReconst, VotesDue, VotesOk, SentOk, Enabled;
    var strs, t := Stripes(c, b, m), Apply(c, b, m, s, Deliver(p, q, Reconst(value)));
    ShareKeepsVotes(c, b, m, s, p, q, value);
    SentSame(c, strs, s, t);
    forall x | x in c.honest ensures VotesDue(c, t, x) && VotesOk(c, strs, x, t.nodes[x]) {
      OthersVotesDue(c, s, t, x);
      SameVotesOk(c, strs, x, s.nodes[x], t.nodes[x]);
    }
  }

  lemma ShareKeepsVotes(c: Config, b: Params, m: Bytes, s: System, p: nat, q: nat, value: Bytes)
    requires Fits(c, b) && Enabled(c, s, Deliver(p, q, Reconst(value)))
    ensures var t := Apply(c, b, m, s, Deliver(p, q, Reconst(value)));
            && p in s.nodes && t.sent == s.sent && t.nodes == s.nodes[p := t.nodes[p]]
            && t.nodes[p].dispCounter == s.nodes[p].dispCounter && t.nodes[p].dispSenders == s.nodes[p].dispSenders
            && t.nodes[p].reconstructSent == s.nodes[p].reconstructSent
  {
    hide Attempt, IsErasureCode;
  }

  lemma SentSame(c: Config, strs: seq<Bytes>, s: System, t: System)
    requires |strs| == c.n && SentOk(c, strs, s) && t.sent == s.sent
    ensures SentOk(c, strs, t)
  {
    assert forall q: nat, p: nat, x :: Sent(t, q, p, x) == Sent(s, q, p, x);
  }

  lemma SameVotesOk(c: Config, strs: seq<Bytes>, p: nat, node: NodeState, after: NodeState)
    requires |strs| == c.n && p < c.n && VotesOk(c, strs, p, node) && after.dispCounter == node.dispCounter
    ensures VotesOk(c, strs, p, after)
  {
  }

  lemma StepVoting(c: Config, b: Params, m: Bytes, s: System, step: Step)
    requires Fits(c, b) && Voting(c, Stripes(c, b, m), s) && Enabled(c, s, step)
    ensures Voting(c, Stripes(c, b, m), Apply(c, b, m, s, step))
  {
    hide Voting, Enabled, Apply, Stripes;
    match step
    case Start(p) => StartVoting(c, b, m, s, p);
    case Deliver(p, q, AddVal(value)) => AddValVoting(c, b, m, s, p, q, value);
    case Deliver(p, q, Reconst(value)) => ReconstVoting(c, b, m, s, p, q, value);
  }

  lemma InitVoting(c: Config, strs: seq<Bytes>, s: System)
    requires c.Valid() && |strs| == c.n && Init(c, s)
    ensures Voting(c, strs, s)
  {
    forall p | p in c.honest ensures p < c.n { assert p in Ids(c.n); }
  }

  lemma {:induction false} RunVoting(c: Config, b: Params, m: Bytes, run: seq<System>, i: nat)
    requires Fits(c, b) && IsRun(c, b, m, run) && i < |run|
    ensures Voting(c, Stripes(c, b, m), run[i])
  {
    hide Voting, Enabled, Apply, Stripes, Init;
    if i == 0 {
      InitVoting(c, Stripes(c, b, m), run[0]);
    } else {
      RunVoting(c, b, m, run, i - 1);
      assert Next(c, b, m, run[i - 1], run[i]);
      var step :| Enabled(c, run[i - 1], step) && run[i] == Apply(c, b, m, run[i - 1], step);
      StepVoting(c, b, m, run[i - 1], step);
    }
  }

  /** A node that has heard from all honest nodes has sent its own stripe of the common message to all. */
  lemma VotedShares(c: Config, b: Params, m: Bytes, run: seq<System>, i: nat, p: nat, k: nat)
    requires Fits(c, b) && IsRun(c, b, m, run) && i < |run| && p in c.honest && p in run[i].nodes && k < c.n
    requires c.honest <= run[i].nodes[p].dispSenders
    ensures p < c.n && Sent(run[i], p, k, Reconst(Stripes(c, b, m)[p]))
  {
    hide IsRun, IsErasureCode, Encode;
    RunVoting(c, b, m, run, i);
    var s, strs := run[i], Stripes(c, b, m);
    var votes := Senders(s.nodes[p].dispCounter, Hash(strs[p]));
    forall q | q in c.honest ensures q in votes {
      var h :| q in Senders(s.nodes[p].dispCounter, h);
      assert Vote(c, strs, p, q, h);
    }
    SubsetSize(c.honest, votes);
    var value :| SharedOnce(c, s, p, value);
    assert Sent(s, p, k, Reconst(value));
  }

  // ---------------------------------------------------------------- arrival

  /** A vote that is delivered is counted and leads to one share at most; a share that is delivered is recorded as it
      was sent. */
  lemma DeliveryRecords(c: Config, b: Params, m: Bytes, s: System, p: nat, q: nat, value: Bytes)
    requires Fits(c, b) && AllJudged(c, b, s)
    ensures Enabled(c, s, Deliver(p, q, AddVal(value))) ==>
              q in Apply(c, b, m, s, Deliver(p, q, AddVal(value))).nodes[p].dispSenders
    ensures Enabled(c, s, Deliver(p, q, AddVal(value))) && s.nodes[p].reconstructSent ==>
              Apply(c, b, m, s, Deliver(p, q, AddVal(value))).sent == s.sent
    ensures Enabled(c, s, Deliver(p, q, Reconst(value))) && q !in s.nodes[p].reconstSenders ==>
              Apply(c, b, m, s, Deliver(p, q, Reconst(value))).nodes[p].reconstCounter
              == s.nodes[p].reconstCounter[q := Some(value)]
  {
    hide Attempt, IsErasureCode, Stripes;
  }

  /** Honest shares are genuine. */
  ghost predicate HonestGenuine(c: Config, strs: seq<Bytes>, node: NodeState)
    requires |strs| == c.n
  {
    forall q: nat :: q in c.honest && q < |node.reconstCounter| && node.reconstCounter[q].Some? && q < c.n ==>
      node.reconstCounter[q] == Some(strs[q])
  }

  lemma {:induction false} RunGenuine(c: Config, b: Params, m: Bytes, run: seq<System>, i: nat, p: nat)
    requires Fits(c, b) && IsRun(c, b, m, run) && i < |run| && p in c.honest
    ensures p in run[i].nodes && HonestGenuine(c, Stripes(c, b, m), run[i].nodes[p])
  {
    hide Init, Next, HonestGenuine, Voting, Stripes, IsErasureCode;
    if i == 0 {
      InitGenuine(c, Stripes(c, b, m), run[0], p);
    } else {
      RunGenuine(c, b, m, run, i - 1, p);
      RunVoting(c, b, m, run, i - 1);
      NextGenuine(c, b, m, run[i - 1], run[i], p);
    }
  }

  lemma InitGenuine(c: Config, strs: seq<Bytes>, s: System, p: nat)
    requires |strs| == c.n && Init(c, s) && p in c.honest
    ensures p in s.nodes && HonestGenuine(c, strs, s.nodes[p])
  {
  }

  lemma NextGenuine(c: Config, b: Params, m: Bytes, s: System, t: System, p: nat)
    requires Fits(c, b) && Next(c, b, m, s, t) && Voting(c, Stripes(c, b, m), s) && p in s.nodes
    requires HonestGenuine(c, Stripes(c, b, m), s.nodes[p])
    ensures p in t.nodes && HonestGenuine(c, Stripes(c, b, m), t.nodes[p])
  {
    hide Enabled, Apply, HonestGenuine, VotesOk, VotesDue, SentOk, Stripes, IsErasureCode;
    var step :| Enabled(c, s, step) && t == Apply(c, b, m, s, step);
    StepGenuine(c, b, m, s, step, p);
  }

  lemma StepGenuine(c: Config, b: Params, m: Bytes, s: System, step: Step, p: nat)
    requires Fits(c, b) && Enabled(c, s, step) && SentOk(c, Stripes(c, b, m), s) && p in s.nodes
    requires HonestGenuine(c, Stripes(c, b, m), s.nodes[p])
    ensures p in Apply(c, b, m, s, step).nodes
    ensures HonestGenuine(c, Stripes(c, b, m), Apply(c, b, m, s, step).nodes[p])
  {
    hide Attempt, Encode, IsErasureCode;
  }

  /** When the shares of all honest nodes are recorded, the K lowest recorded are genuine and the padding is
      recoverable, the message has been returned. */
  lemma HonestSharesReturn(c: Config, b: Params, m: Bytes, run: seq<System>, i: nat, p: nat, cut: nat)
    requires Fits(c, b) && IsRun(c, b, m, run) && i < |run| && p in c.honest && p in run[i].nodes
    requires |run[i].nodes[p].reconstCounter| == c.n && PadRecoverable(b.K(), |m|)
    requires forall q: nat :: q in c.honest && q < c.n ==> run[i].nodes[p].reconstCounter[q].Some?
    requires LowestGenuine(b.K(), Stripes(c, b, m), run[i].nodes[p], cut)
    ensures run[i].nodes[p].outcome == Returned(m)
  {
    hide IsRun, IsErasureCode, PadRecoverable, LowestGenuine, Stripes;
    RunGenuine(c, b, m, run, i, p);
    var genuine := Genuine(Stripes(c, b, m), run[i].nodes[p]);
    forall q | q in c.honest ensures q in genuine { assert q in Ids(c.n); }
    SubsetSize(c.honest, genuine);
    GenuineReturns(c, b, m, run, i, p, cut);
  }

  /** A node counts at most one value of each sender, the first that arrived. */
  lemma OneVoteEach(c: Config, b: Params, m: Bytes, run: seq<System>, i: nat, p: nat, q: nat, h: Bytes, g: Bytes)
    requires Fits(c, b) && IsRun(c, b, m, run) && i < |run| && p in c.honest && p in run[i].nodes
    requires q in Senders(run[i].nodes[p].dispCounter, h) && q in Senders(run[i].nodes[p].dispCounter, g)
    ensures h == g && q in run[i].nodes[p].dispSenders
  {
    hide IsRun, IsErasureCode, Encode;
    RunVoting(c, b, m, run, i);
    assert VotesDue(c, run[i], p);
  }
}
