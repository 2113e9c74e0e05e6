// Agreement, the round lock and validity of the binary agreement, for every run.
module AgreementTheorems {
  import opened Quorums
  import opened BinaryAgreement
  import opened AgreementRuns

  /** A value in an honest node's `bin_values[r]` was the round-r estimate of an honest node. */
  lemma BinValueWasEstimate(c: Config, coin: int -> Bit, s: System, p: nat, r: int, v: int)
    requires c.Valid() && Inv(c, coin, s) && p in c.honest && v in Bin(s.nodes[p], r)
    ensures EnteredWith(c, s, r, v)
  {
    var node := s.nodes[p];
    assert NodeInv(c, s, node);
    var votes := EstVotes(node, r, v);
    assert forall q :: q in votes ==> MayHaveSent(c, s, q, Est(r, v));
    var h := HonestMember(c, votes);
    assert Sent(s, h, Est(r, v));
  }

  /** Two CONF waits of one round that end with one value each end with the same one, so never {0} and {1}. */
  lemma OneConfirmedValue(c: Config, coin: int -> Bit, s: System, p: nat, v: int, q: nat, w: int, r: int)
    requires c.Valid() && Inv(c, coin, s)
    requires Finished(s, p, r, {v}) && Finished(s, q, r, {w})
    ensures v == w
  {
    assert v in {v} && w in {w};
    assert FinishedSoundly(c, s, p, r, {v}) && FinishedSoundly(c, s, q, r, {w});
    var h := QuorumsMeet(c, ConfBackers(c, s, r, [v]), ConfBackers(c, s, r, [w]));
    assert Sent(s, h, Conf(r, [v])) && Sent(s, h, Conf(r, [w]));
    assert v == [v][0] && w == [w][0];
  }

  /** What a node decides is what its CONF wait returned and what the coin showed. */
  lemma DecidedMeans(c: Config, coin: int -> Bit, s: System, p: nat, r: int, v: int)
    requires Inv(c, coin, s) && Decided(s, p, r, v)
    ensures Finished(s, p, r, {v}) && v == coin(r) && v in Bin(s.nodes[p], r) && p in c.honest
  {
    assert v in {v};
    assert FinishedSoundly(c, s, p, r, {v});
  }

  lemma DecidedRound(c: Config, coin: int -> Bit, s: System, p: nat, r: int, v: int)
    requires c.Valid() && Inv(c, coin, s) && Decided(s, p, r, v)
    ensures 0 <= r
  {
    DecidedMeans(c, coin, s, p, r, v);
    BinValueWasEstimate(c, coin, s, p, r, v);
    var h :| h in c.honest && Entered(s, h, r, v);
  }

  /** A later round is entered with what the previous CONF wait and the coin make of it. */
  lemma CameFrom(c: Config, coin: int -> Bit, s: System, q: nat, k: int, e: int) returns (values: set<int>)
    requires Inv(c, coin, s) && Entered(s, q, k, e) && 0 < k
    ensures Finished(s, q, k - 1, values) && e == NextEst(values, coin(k - 1))
    ensures FinishedSoundly(c, s, q, k - 1, values)
    ensures q in c.honest && e in Bin(s.nodes[q], k - 1)
  {
    assert FinishedTo(coin, s, q, k - 1, e);
    values :| Finished(s, q, k - 1, values) && e == NextEst(values, coin(k - 1));
    assert FinishedSoundly(c, s, q, k - 1, values);
  }

  /** The round after a decision. */
  lemma LockStarts(c: Config, coin: int -> Bit, s: System, p: nat, r: int, v: int, q: nat, e: int)
    requires c.Valid() && Inv(c, coin, s) && Decided(s, p, r, v) && 0 <= r
    requires Entered(s, q, r + 1, e)
    ensures e == v
  {
    DecidedMeans(c, coin, s, p, r, v);
    var values := CameFrom(c, coin, s, q, r + 1, e);
    if values == {e} {
      OneConfirmedValue(c, coin, s, p, v, q, e, r);
    }
  }

  /** Once an honest node decides v in round r, honest nodes enter every later round with estimate v. */
  lemma {:induction false} RoundLock(c: Config, coin: int -> Bit, s: System, p: nat, r: int, v: int, q: nat, k: int,
          e: int)
    requires c.Valid() && Inv(c, coin, s) && Decided(s, p, r, v)
    requires r < k && Entered(s, q, k, e)
    ensures e == v
    decreases k - r
  {
    DecidedRound(c, coin, s, p, r, v);
    if k - 1 == r {
      LockStarts(c, coin, s, p, r, v, q, e);
    } else {
      var values := CameFrom(c, coin, s, q, k, e);
      BinValueWasEstimate(c, coin, s, q, k - 1, e);
      var h :| h in c.honest && Entered(s, h, k - 1, e);
      RoundLock(c, coin, s, p, r, v, h, k - 1, e);
    }
  }

  /** After a decision for v in round r, `bin_values` of later rounds can hold nothing but v. */
  lemma LockedBinValues(c: Config, coin: int -> Bit, run: seq<System>, i: nat, p: nat, r: int, v: int, q: nat, k: int,
          w: int)
    requires c.Valid() && IsRun(c, coin, run) && i < |run|
    requires Decided(run[i], p, r, v) && r < k && q in c.honest
    requires q in run[i].nodes && w in Bin(run[i].nodes[q], k)
    ensures w == v
  {
    RunInv(c, coin, run, i);
    BinValueWasEstimate(c, coin, run[i], q, k, w);
    var h :| h in c.honest && Entered(run[i], h, k, w);
    RoundLock(c, coin, run[i], p, r, v, h, k, w);
  }

  lemma AgreementInState(c: Config, coin: int -> Bit, s: System, p: nat, r: int, v: int, q: nat, k: int, w: int)
    requires c.Valid() && Inv(c, coin, s) && Decided(s, p, r, v) && Decided(s, q, k, w) && r <= k
    ensures v == w
  {
    DecidedMeans(c, coin, s, p, r, v);
    DecidedMeans(c, coin, s, q, k, w);
    if r < k {
      BinValueWasEstimate(c, coin, s, q, k, w);
      var h :| h in c.honest && Entered(s, h, k, w);
      RoundLock(c, coin, s, p, r, v, h, k, w);
    }
  }

  lemma {:induction false} DecisionsStay(c: Config, coin: int -> Bit, run: seq<System>, i: nat, j: nat)
    requires IsRun(c, coin, run) && i <= j < |run|
    ensures run[i].decisions <= run[j].decisions
  {
    if i < j {
      DecisionsStay(c, coin, run, i, j - 1);
      assert Next(c, coin, run[j - 1], run[j]);
    }
  }

  /** Agreement: no two honest nodes ever decide differently, whenever and in whatever round. */
  lemma Agreement(c: Config, coin: int -> Bit, run: seq<System>, i: nat, j: nat, p: nat, r: int, v: int, q: nat,
          k: int, w: int)
    requires c.Valid() && IsRun(c, coin, run) && i < |run| && j < |run|
    requires Decided(run[i], p, r, v) && Decided(run[j], q, k, w)
    ensures v == w
  {
    var last := |run| - 1;
    RunInv(c, coin, run, last);
    DecisionsStay(c, coin, run, i, last);
    DecisionsStay(c, coin, run, j, last);
    if r <= k {
      AgreementInState(c, coin, run[last], p, r, v, q, k, w);
    } else {
      AgreementInState(c, coin, run[last], q, k, w, p, r, v);
    }
  }

  /** A node calls `decide` at most once. */
  lemma DecidesOnce(c: Config, coin: int -> Bit, run: seq<System>, i: nat, p: nat, r: int, v: int, k: int, w: int)
    requires c.Valid() && IsRun(c, coin, run) && i < |run|
    requires Decided(run[i], p, r, v) && Decided(run[i], p, k, w)
    ensures r == k && v == w
  {
    RunInv(c, coin, run, i);
  }

  ghost predicate WasInput(c: Config, s: System, v: int) {
    exists p :: p in c.honest && p in s.inputs && s.inputs[p] == v
  }

  /** Every estimate of every round, coin-set ones included, was some honest node's input. */
  lemma {:induction false} EstimateWasInput(c: Config, coin: int -> Bit, s: System, q: nat, r: int, e: int)
    requires c.Valid() && Inv(c, coin, s) && Entered(s, q, r, e)
    ensures WasInput(c, s, e)
    decreases if r < 0 then 0 else r
  {
    if r > 0 {
      var values := CameFrom(c, coin, s, q, r, e);
      BinValueWasEstimate(c, coin, s, q, r - 1, e);
      var h :| h in c.honest && Entered(s, h, r - 1, e);
      EstimateWasInput(c, coin, s, h, r - 1, e);
    }
  }

  lemma ValidityInState(c: Config, coin: int -> Bit, s: System, p: nat, r: int, v: int)
    requires c.Valid() && Inv(c, coin, s) && Decided(s, p, r, v)
    ensures WasInput(c, s, v)
  {
    DecidedMeans(c, coin, s, p, r, v);
    BinValueWasEstimate(c, coin, s, p, r, v);
    var h :| h in c.honest && Entered(s, h, r, v);
    EstimateWasInput(c, coin, s, h, r, v);
  }

  /** Validity: every decided bit was the input of an honest node. */
  lemma Validity(c: Config, coin: int -> Bit, run: seq<System>, i: nat, p: nat, r: int, v: int)
    requires c.Valid() && IsRun(c, coin, run) && i < |run| && Decided(run[i], p, r, v)
    ensures WasInput(c, run[i], v)
  {
    RunInv(c, coin, run, i);
    ValidityInState(c, coin, run[i], p, r, v);
  }
}
