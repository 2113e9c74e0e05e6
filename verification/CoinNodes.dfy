// The share collector of honeybadgerbft/core/commoncoin.py, over whole runs.
module CoinNodes {
  import opened PrimeFields
  import opened Groups
  import opened ThresholdKeys
  import opened CommonCoin

  /** A COIN message: the authenticated sender, the round and the signature share. */
  datatype Message<!T, !R> = Message(sender: nat, round: R, sig: T)

  /** The shares kept for each round in order of arrival, everything put into each round's output queue, and whether
      the receive loop is still running. */
  datatype Collector<!T, !R(==), !O> = Collector(received: map<R, Shares<T>>, outputs: map<R, seq<O>>, listening: bool)

  function Start<T, R, O>(): Collector<T, R, O> { Collector(map[], map[], true) }

  function SharesFor<T, R, O>(st: Collector<T, R, O>, r: R): Shares<T> {
    if r in st.received then st.received[r] else []
  }

  function OutputsFor<T, R, O>(st: Collector<T, R, O>, r: R): seq<O> {
    if r in st.outputs then st.outputs[r] else []
  }

  predicate HasShare<T>(shares: Shares<T>, i: nat) { exists k :: 0 <= k < |shares| && shares[k].0 == i }

  ghost predicate Ready<T, R, O>(keys: Keys<T, R, O>, st: Collector<T, R, O>) {
    && Prime(keys.p) && keys.l <= keys.p
    && forall r :: r in st.received ==> Members(Ids(st.received[r]), keys.l)
  }

  /** One iteration of the receive loop at node `pid`. */
  function OnShare<T(==), R(==), O>(keys: Keys<T, R, O>, pid: nat, st: Collector<T, R, O>,
          m: Message<T, R>): Collector<T, R, O>
    requires Ready(keys, st)
  {
    var h := keys.hash(m.round);
    if !st.listening then st
    else if m.sender >= keys.l then st.(listening := false)
    else if HasShare(SharesFor(st, m.round), m.sender) then st
    else if m.sender != pid && !VerifyShare(keys, m.sig, m.sender, h) then st
    else
      var shares := SharesFor(st, m.round) + [(m.sender, m.sig)];
      NewMember(SharesFor(st, m.round), m.sender, m.sig, keys.l);
      var kept := st.(received := st.received[m.round := shares]);
      if |shares| != keys.k then kept
      else
        var sig := CombineShares(keys, shares);
        if VerifySignature(keys, sig, h)
        then kept.(outputs := kept.outputs[m.round := OutputsFor(st, m.round) + [keys.select(sig)]])
        else kept.(listening := false)
  }

  lemma NewMember<T>(shares: Shares<T>, i: nat, sig: T, l: nat)
    requires Members(Ids(shares), l) && !HasShare(shares, i) && i < l
    ensures Members(Ids(shares + [(i, sig)]), l)
  {
    var s, t := Ids(shares), Ids(shares + [(i, sig)]);
    forall a, b | 0 <= a < b < |t| ensures t[a] != t[b] {
      if b == |shares| { assert shares[a].0 == t[a]; } else { assert s[a] == t[a] && s[b] == t[b]; }
    }
    forall a | 0 <= a < |t| ensures 0 <= t[a] < l { if a < |s| { assert s[a] == t[a]; } }
  }

  // ---------------------------------------------------------------- runs

  lemma OnShareReady<T, R, O>(keys: Keys<T, R, O>, pid: nat, st: Collector<T, R, O>, m: Message<T, R>)
    requires Ready(keys, st)
    ensures Ready(keys, OnShare(keys, pid, st, m))
  {
    var next := OnShare(keys, pid, st, m);
    forall r | r in next.received ensures Members(Ids(next.received[r]), keys.l) {
      if r == m.round && next.received != st.received {
        NewMember(SharesFor(st, r), m.sender, m.sig, keys.l);
      }
    }
  }

  /** The collector after a history of messages. */
  function Run<T(==), R(==), O>(keys: Keys<T, R, O>, pid: nat, msgs: seq<Message<T, R>>): (st: Collector<T, R, O>)
    requires Prime(keys.p) && keys.l <= keys.p
    ensures Ready(keys, st)
  {
    if msgs == [] then Start()
    else
      var k := |msgs| - 1;
      OnShareReady(keys, pid, Run(keys, pid, msgs[..k]), msgs[k]);
      OnShare(keys, pid, Run(keys, pid, msgs[..k]), msgs[k])
  }

  /** What the channels guarantee: senders are players, and what comes from the node itself is its own share. */
  ghost predicate Authentic<T, R, O>(keys: Keys<T, R, O>, pid: nat, msgs: seq<Message<T, R>>)
    requires 0 < keys.p
  {
    forall i :: 0 <= i < |msgs| ==> AuthenticMessage(keys, pid, msgs[i])
  }

  ghost predicate AuthenticMessage<T, R, O>(keys: Keys<T, R, O>, pid: nat, m: Message<T, R>)
    requires 0 < keys.p
  {
    m.sender < keys.l && (m.sender == pid ==> m.sig == Sign(keys, pid, keys.hash(m.round)))
  }

  /** The coin of a round: the selection made from the master signature on it. */
  function Coin<T, R, O>(keys: Keys<T, R, O>, r: R): O
    requires 0 < keys.p
  {
    keys.select(MasterSign(keys, keys.hash(r)))
  }

  /** The kept shares are genuine, and the queue holds the coin once exactly when the threshold was reached. */
  ghost predicate RoundOk<T, R, O>(keys: Keys<T, R, O>, st: Collector<T, R, O>, r: R)
    requires 0 < keys.p
  {
    && Members(Ids(SharesFor(st, r)), keys.l) && Genuine(keys, SharesFor(st, r), keys.hash(r))
    && OutputsFor(st, r) == if |SharesFor(st, r)| >= keys.k then [Coin(keys, r)] else []
  }

  ghost predicate Inv<T, R(!new), O>(keys: Keys<T, R, O>, st: Collector<T, R, O>)
    requires 0 < keys.p
  {
    st.listening && forall r :: RoundOk(keys, st, r)
  }

  lemma StepInv<T(!new), R(!new), O>(keys: Keys<T, R, O>, pid: nat, st: Collector<T, R, O>, m: Message<T, R>)
    requires ValidKeys(keys) && Ready(keys, st) && Inv(keys, st) && AuthenticMessage(keys, pid, m)
    ensures Inv(keys, OnShare(keys, pid, st, m))
  {
    var next := OnShare(keys, pid, st, m);
    hide RoundOk, OnShare;
    assert RoundOk(keys, st, m.round);
    ThisRound(keys, pid, st, m);
    forall r ensures RoundOk(keys, next, r) {
      assert RoundOk(keys, st, r);
      if r != m.round { OtherRound(keys, pid, st, m, r); }
    }
  }

  lemma OtherRound<T, R, O>(keys: Keys<T, R, O>, pid: nat, st: Collector<T, R, O>, m: Message<T, R>, r: R)
    requires 0 < keys.p && Ready(keys, st) && r != m.round && RoundOk(keys, st, r)
    ensures RoundOk(keys, OnShare(keys, pid, st, m), r)
  {
    hide Sign, MasterSign, CombineShares;
    var next := OnShare(keys, pid, st, m);
    assert SharesFor(next, r) == SharesFor(st, r) && OutputsFor(next, r) == OutputsFor(st, r);
  }

  lemma ThisRound<T(!new), R, O>(keys: Keys<T, R, O>, pid: nat, st: Collector<T, R, O>, m: Message<T, R>)
    requires ValidKeys(keys) && Ready(keys, st) && st.listening && RoundOk(keys, st, m.round)
             && AuthenticMessage(keys, pid, m)
    ensures OnShare(keys, pid, st, m).listening && RoundOk(keys, OnShare(keys, pid, st, m), m.round)
  {
    hide Sign, MasterSign, CombineShares, Prime, IsGroup;
    var next, h := OnShare(keys, pid, st, m), keys.hash(m.round);
    if next != st {
      var shares := SharesFor(st, m.round) + [(m.sender, m.sig)];
      NewMember(SharesFor(st, m.round), m.sender, m.sig, keys.l);
      assert Genuine(keys, shares, h);
      if |shares| == keys.k { CombineIsMaster(keys, shares, h); }
    }
  }

  lemma {:induction false} RunInv<T(!new), R(!new), O>(keys: Keys<T, R, O>, pid: nat, msgs: seq<Message<T, R>>)
    requires ValidKeys(keys) && Authentic(keys, pid, msgs)
    ensures Inv(keys, Run(keys, pid, msgs))
  {
    if msgs == [] {
      forall r ensures RoundOk(keys, Start<T, R, O>(), r) {
        assert Ids(SharesFor(Start<T, R, O>(), r)) == [];
      }
    } else {
      var k := |msgs| - 1;
      assert Authentic(keys, pid, msgs[..k]) by {
        forall i | 0 <= i < k ensures AuthenticMessage(keys, pid, msgs[..k][i]) { assert msgs[..k][i] == msgs[i]; }
      }
      RunInv(keys, pid, msgs[..k]);
      assert AuthenticMessage(keys, pid, msgs[k]);
      StepInv(keys, pid, Run(keys, pid, msgs[..k]), msgs[k]);
    }
  }

  /** The coin is common: whatever each of two nodes received, each puts out at most one value for a round, and any
      two values are the same. */
  lemma CoinIsCommon<T(!new), R(!new), O>(keys: Keys<T, R, O>, a: nat, seenByA: seq<Message<T, R>>, b: nat,
          seenByB: seq<Message<T, R>>, r: R)
    requires ValidKeys(keys) && Authentic(keys, a, seenByA) && Authentic(keys, b, seenByB)
    ensures var outA, outB := OutputsFor(Run(keys, a, seenByA), r), OutputsFor(Run(keys, b, seenByB), r);
            && |outA| <= 1 && |outB| <= 1 && (outA != [] && outB != [] ==> outA == outB)
  {
    RunInv(keys, a, seenByA);
    RunInv(keys, b, seenByB);
    assert RoundOk(keys, Run(keys, a, seenByA), r) && RoundOk(keys, Run(keys, b, seenByB), r);
  }

  // ---------------------------------------------------------------- when a coin appears

  /** The players whose valid share for the round is in the history. */
  function ValidSenders<T(==), R(==), O>(keys: Keys<T, R, O>, msgs: seq<Message<T, R>>, r: R): set<nat>
    requires 0 < keys.p
  {
    if msgs == [] then {}
    else
      var m := msgs[|msgs| - 1];
      ValidSenders(keys, msgs[..|msgs| - 1], r)
      + (if m.round == r && VerifyShare(keys, m.sig, m.sender, keys.hash(r)) then {m.sender} else {})
  }

  function IdSet<T>(shares: Shares<T>): set<nat> { set k | 0 <= k < |shares| :: shares[k].0 }

  lemma {:induction false} IdSetSize<T>(shares: Shares<T>, l: nat)
    requires Members(Ids(shares), l)
    ensures |IdSet(shares)| == |shares|
  {
    if shares != [] {
      var k := |shares| - 1;
      var front, last := shares[..k], shares[k];
      assert Members(Ids(front), l) by {
        forall i, j | 0 <= i < j < k ensures Ids(front)[i] != Ids(front)[j] {
          assert Ids(shares)[i] == Ids(front)[i] && Ids(shares)[j] == Ids(front)[j];
        }
        forall i | 0 <= i < k ensures 0 <= Ids(front)[i] < l { assert Ids(shares)[i] == Ids(front)[i]; }
      }
      IdSetSize(front, l);
      assert IdSet(shares) == IdSet(front) + {last.0} by {
        forall x | x in IdSet(front) ensures x in IdSet(shares) {
          var i :| 0 <= i < |front| && front[i].0 == x;
          assert shares[i].0 == x;
        }
        assert shares[k].0 == last.0;
      }
      assert last.0 !in IdSet(front) by {
        forall i | 0 <= i < k ensures front[i].0 != last.0 {
          assert Ids(shares)[i] == front[i].0 && Ids(shares)[k] == last.0;
        }
      }
    }
  }

  /** The kept shares are those of the valid senders. */
  lemma {:induction false} KeptAreValid<T(!new), R(!new), O>(keys: Keys<T, R, O>, pid: nat, msgs: seq<Message<T, R>>,
          r: R)
    requires ValidKeys(keys) && Authentic(keys, pid, msgs)
    ensures IdSet(SharesFor(Run(keys, pid, msgs), r)) == ValidSenders(keys, msgs, r)
  {
    if msgs != [] {
      var k := |msgs| - 1;
      assert Authentic(keys, pid, msgs[..k]) by {
        forall i | 0 <= i < k ensures AuthenticMessage(keys, pid, msgs[..k][i]) { assert msgs[..k][i] == msgs[i]; }
      }
      KeptAreValid(keys, pid, msgs[..k], r);
      RunInv(keys, pid, msgs[..k]);
      assert AuthenticMessage(keys, pid, msgs[k]);
      KeptStep(keys, pid, Run(keys, pid, msgs[..k]), msgs[k], r);
    }
  }

  lemma KeptStep<T(!new), R(!new), O>(keys: Keys<T, R, O>, pid: nat, st: Collector<T, R, O>, m: Message<T, R>, r: R)
    requires ValidKeys(keys) && Ready(keys, st) && Inv(keys, st) && AuthenticMessage(keys, pid, m)
    ensures IdSet(SharesFor(OnShare(keys, pid, st, m), r))
            == IdSet(SharesFor(st, r))
               + (if m.round == r && VerifyShare(keys, m.sig, m.sender, keys.hash(r)) then {m.sender} else {})
  {
    hide Sign, MasterSign, CombineShares;
    var next := OnShare(keys, pid, st, m);
    var before, after := SharesFor(st, r), SharesFor(next, r);
    assert RoundOk(keys, st, m.round);
    if m.round == r && VerifyShare(keys, m.sig, m.sender, keys.hash(r)) {
      if HasShare(before, m.sender) {
        assert m.sender in IdSet(before);
      } else {
        assert after == before + [(m.sender, m.sig)];
        assert after[|before|].0 == m.sender;
        forall x | x in IdSet(before) ensures x in IdSet(after) {
          var i :| 0 <= i < |before| && before[i].0 == x;
          assert after[i].0 == x;
        }
      }
    }
  }

  /** A node's coin is available exactly when valid shares of at least k players have arrived. */
  lemma CoinAvailableIff<T(!new), R(!new), O>(keys: Keys<T, R, O>, pid: nat, msgs: seq<Message<T, R>>, r: R)
    requires ValidKeys(keys) && Authentic(keys, pid, msgs)
    ensures OutputsFor(Run(keys, pid, msgs), r) == [Coin(keys, r)] <==> |ValidSenders(keys, msgs, r)| >= keys.k
  {
    RunInv(keys, pid, msgs);
    KeptAreValid(keys, pid, msgs, r);
    assert RoundOk(keys, Run(keys, pid, msgs), r);
    IdSetSize(SharesFor(Run(keys, pid, msgs), r), keys.l);
  }

  // ---------------------------------------------------------------- whatever is received

  /** A queue holds the coin or nothing, and while the loop runs it holds the coin from the threshold on. */
  ghost predicate QueueOk<T, R, O>(keys: Keys<T, R, O>, st: Collector<T, R, O>, r: R)
    requires 0 < keys.p
  {
    && (OutputsFor(st, r) == [] || OutputsFor(st, r) == [Coin(keys, r)])
    && (OutputsFor(st, r) != [] ==> keys.k <= |SharesFor(st, r)|)
    && (st.listening && keys.k <= |SharesFor(st, r)| ==> OutputsFor(st, r) == [Coin(keys, r)])
  }

  lemma QueueStep<T, R, O>(keys: Keys<T, R, O>, pid: nat, st: Collector<T, R, O>, m: Message<T, R>, r: R)
    requires Ready(keys, st) && 0 < keys.p && QueueOk(keys, st, r)
    ensures QueueOk(keys, OnShare(keys, pid, st, m), r)
  {
    hide Sign, MasterSign, CombineShares, HasShare, VerifyShare, Ready;
  }

  /** Whatever arrives, even wrong shares in a node's own name: a queue never holds anything but the coin, and never
      twice; and a round that reached the threshold has its coin, or the loop has ended. */
  lemma {:induction false} OutputsAreCoins<T, R, O>(keys: Keys<T, R, O>, pid: nat, msgs: seq<Message<T, R>>, r: R)
    requires Prime(keys.p) && keys.l <= keys.p && 0 < keys.p && 0 < keys.k
    ensures QueueOk(keys, Run(keys, pid, msgs), r)
  {
    hide QueueOk, OnShare, Prime;
    if msgs == [] {
      StartQueue(keys, r);
    } else {
      var k := |msgs| - 1;
      OutputsAreCoins(keys, pid, msgs[..k], r);
      QueueStep(keys, pid, Run(keys, pid, msgs[..k]), msgs[k], r);
    }
  }

  lemma StartQueue<T, R, O>(keys: Keys<T, R, O>, r: R)
    requires 0 < keys.p && 0 < keys.k
    ensures QueueOk(keys, Start<T, R, O>(), r)
  {
  }

  predicate AllPlayers<T, R, O>(keys: Keys<T, R, O>, msgs: seq<Message<T, R>>) {
    forall i :: 0 <= i < |msgs| ==> msgs[i].sender < keys.l
  }

  /** What a node receives in its own name is its own share. */
  ghost predicate OwnAuthentic<T, R, O>(keys: Keys<T, R, O>, pid: nat, msgs: seq<Message<T, R>>)
    requires 0 < keys.p
  {
    forall i :: 0 <= i < |msgs| && msgs[i].sender == pid ==>
      msgs[i].sig == Sign(keys, pid, keys.hash(msgs[i].round))
  }

  lemma {:induction false} ListensToPlayers<T, R, O>(keys: Keys<T, R, O>, pid: nat, msgs: seq<Message<T, R>>)
    requires Prime(keys.p) && keys.l <= keys.p && Run(keys, pid, msgs).listening
    ensures AllPlayers(keys, msgs)
  {
    hide OnShare, Prime;
    if msgs != [] {
      var k := |msgs| - 1;
      var before := Run(keys, pid, msgs[..k]);
      if !before.listening || msgs[k].sender >= keys.l {
        StopsThere(keys, pid, before, msgs[k]);
      } else {
        ListensToPlayers(keys, pid, msgs[..k]);
        forall i | 0 <= i < |msgs| ensures msgs[i].sender < keys.l {
          if i < k { assert msgs[..k][i] == msgs[i]; }
        }
      }
    }
  }

  /** With authentic messages in a node's own name the loop runs exactly as long as all senders are players. */
  lemma ListensIff<T(!new), R(!new), O>(keys: Keys<T, R, O>, pid: nat, msgs: seq<Message<T, R>>)
    requires ValidKeys(keys) && OwnAuthentic(keys, pid, msgs)
    ensures Run(keys, pid, msgs).listening <==> AllPlayers(keys, msgs)
  {
    hide Run, OnShare, Sign, Prime, IsGroup;
    if AllPlayers(keys, msgs) {
      forall i | 0 <= i < |msgs| ensures AuthenticMessage(keys, pid, msgs[i]) {}
      RunInv(keys, pid, msgs);
    }
    if Run(keys, pid, msgs).listening { ListensToPlayers(keys, pid, msgs); }
  }

  lemma StopsThere<T, R, O>(keys: Keys<T, R, O>, pid: nat, st: Collector<T, R, O>, m: Message<T, R>)
    requires Ready(keys, st) && (!st.listening || m.sender >= keys.l)
    ensures !OnShare(keys, pid, st, m).listening
  {
  }

  /** A node: the receive loop updates the dictionaries in place, and `getCoin` sends the node's share. */
  class CoinNode<T(==,!new), R(==,!new), O(!new)> {
    const keys: Keys<T, R, O>
    const pid: nat
    var received: map<R, Shares<T>>
    var outputs: map<R, seq<O>>
    var listening: bool

    function State(): Collector<T, R, O>
      reads this
    {
      Collector(received, outputs, listening)
    }

    constructor (keys: Keys<T, R, O>, pid: nat)
      ensures this.keys == keys && this.pid == pid && State() == Start()
    {
      this.keys, this.pid := keys, pid;
      received, outputs, listening := map[], map[], true;
    }

    /** One pass of `_recv`. */
    method Receive(m: Message<T, R>)
      requires Ready(keys, State())
      modifies this
      ensures State() == OnShare(keys, pid, old(State()), m) && Ready(keys, State())
    {
      OnShareReady(keys, pid, State(), m);
      if !listening { return; }
      if m.sender >= keys.l {
        listening := false;
        return;
      }
      var h := keys.hash(m.round);
      var shares := if m.round in received then received[m.round] else [];
      if HasShare(shares, m.sender) { return; }
      if m.sender != pid && !VerifyShare(keys, m.sig, m.sender, h) { return; }
      NewMember(shares, m.sender, m.sig, keys.l);
      shares := shares + [(m.sender, m.sig)];
      received := received[m.round := shares];
      if |shares| == keys.k {
        var sig := CombineShares(keys, shares);
        if VerifySignature(keys, sig, h) {
          var queue := if m.round in outputs then outputs[m.round] else [];
          outputs := outputs[m.round := queue + [keys.select(sig)]];
        } else {
          listening := false;
        }
      }
    }

    /** The share that `getCoin` broadcasts; every node accepts it. */
    method OwnShare(round: R) returns (m: Message<T, R>)
      requires 0 < keys.p
      ensures m == Message(pid, round, Sign(keys, pid, keys.hash(round)))
      ensures VerifyShare(keys, m.sig, m.sender, keys.hash(round))
    {
      m := Message(pid, round, Sign(keys, pid, keys.hash(round)));
    }
  }
}
