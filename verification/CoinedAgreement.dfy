// The binary agreement drawing its coins from the threshold coin: every run is a run of the agreement with one
// common coin, so agreement and validity hold with no assumption about the coin.
module CoinedAgreement {
  import opened Quorums
  import opened CommonCoin
  import opened CoinNodes
  import Aba = BinaryAgreement
  import Runs = AgreementRuns
  import Theorems = AgreementTheorems

  /** The agreement's nodes and, for each honest node, the COIN messages its receive loop has taken. */
  datatype System<!T> = System(aba: Runs.System, seen: map<nat, seq<Message<T, int>>>)

  datatype Step<!T> = Agree(st: Runs.Step) | TakeCoin(p: nat) | CoinMessage(p: nat, m: Message<T, int>)

  /** One player per node, and a coin needs the shares of f + 1 of them. */
  ghost predicate Fits<T(!new)>(c: Config, keys: Keys<T, int, Runs.Bit>) {
    c.Valid() && ValidKeys(keys) && keys.l == c.n && keys.k == c.f + 1
  }

  ghost predicate Init<T>(c: Config, s: System<T>) {
    && Runs.Init(c, s.aba)
    && s.seen.Keys == c.honest && forall p :: p in c.honest ==> s.seen[p] == []
  }

  /** What node `p` has in the output queue of round `r`. */
  ghost function Queue<T(!new)>(keys: Keys<T, int, Runs.Bit>, s: System<T>, p: nat, r: int): seq<Runs.Bit>
    requires ValidKeys(keys) && p in s.seen
  {
    OutputsFor(Run(keys, p, s.seen[p]), r)
  }

  /** The coin of a round is taken from the node's own queue, once it is not empty. */
  ghost predicate Enabled<T(!new)>(c: Config, keys: Keys<T, int, Runs.Bit>, s: System<T>, step: Step<T>)
    requires Fits(c, keys)
  {
    match step
    case Agree(st) => !st.Coin? && Runs.Enabled(c, s.aba, st)
    case TakeCoin(p) => Runs.Enabled(c, s.aba, Runs.Coin(p)) && p in s.seen && Queue(keys, s, p, s.aba.nodes[p].r) != []
    case CoinMessage(p, m) => p in c.honest && p in s.seen && AuthenticMessage(keys, p, m)
  }

  ghost function Apply<T(!new)>(c: Config, keys: Keys<T, int, Runs.Bit>, s: System<T>, step: Step<T>): System<T>
    requires Fits(c, keys) && Enabled(c, keys, s, step)
  {
    match step
    case Agree(st) => s.(aba := Runs.Apply(c, _ => 0, s.aba, st))
    case TakeCoin(p) =>
      var coin := Queue(keys, s, p, s.aba.nodes[p].r)[0];
      s.(aba := Runs.After(s.aba, Runs.Coin(p), Aba.OnCoin(s.aba.nodes[p], coin)))
    case CoinMessage(p, m) => s.(seen := s.seen[p := s.seen[p] + [m]])
  }

  ghost predicate Next<T(!new)>(c: Config, keys: Keys<T, int, Runs.Bit>, s: System<T>, s': System<T>)
    requires Fits(c, keys)
  {
    exists step :: Enabled(c, keys, s, step) && s' == Apply(c, keys, s, step)
  }

  ghost predicate IsRun<T(!new)>(c: Config, keys: Keys<T, int, Runs.Bit>, run: seq<System<T>>)
    requires Fits(c, keys)
  {
    && run != []
    && Init(c, run[0])
    && forall i :: 0 <= i < |run| - 1 ==> Next(c, keys, run[i], run[i + 1])
  }

  /** The coin all nodes see. */
  ghost function Common<T>(keys: Keys<T, int, Runs.Bit>): int -> Runs.Bit
    requires 0 < keys.p
  {
    r => CoinNodes.Coin(keys, r)
  }

  ghost predicate SeenOk<T(!new)>(c: Config, keys: Keys<T, int, Runs.Bit>, s: System<T>)
    requires ValidKeys(keys)
  {
    s.seen.Keys == c.honest && forall p :: p in c.honest ==> Authentic(keys, p, s.seen[p])
  }

  // ---------------------------------------------------------------- refinement

  /** What a node finds in its queue is the common coin. */
  lemma QueueIsCommon<T(!new)>(c: Config, keys: Keys<T, int, Runs.Bit>, s: System<T>, p: nat, r: int)
    requires Fits(c, keys) && SeenOk(c, keys, s) && p in c.honest && Queue(keys, s, p, r) != []
    ensures Queue(keys, s, p, r) == [Common(keys)(r)]
  {
    RunInv(keys, p, s.seen[p]);
    assert RoundOk(keys, Run(keys, p, s.seen[p]), r);
  }

  /** A step is a step of the agreement with the common coin, or changes nothing in the agreement. */
  lemma StepRefines<T(!new)>(c: Config, keys: Keys<T, int, Runs.Bit>, s: System<T>, step: Step<T>)
    requires Fits(c, keys) && 0 < keys.p && SeenOk(c, keys, s) && Enabled(c, keys, s, step)
    ensures SeenOk(c, keys, Apply(c, keys, s, step))
    ensures var s' := Apply(c, keys, s, step);
            s'.aba == s.aba || Runs.Next(c, Common(keys), s.aba, s'.aba)
  {
    hide Runs.After, Runs.MayHaveSent, Run;
    match step
    case Agree(st) =>
      assert Runs.Apply(c, _ => 0, s.aba, st) == Runs.Apply(c, Common(keys), s.aba, st);
    case TakeCoin(p) =>
      QueueIsCommon(c, keys, s, p, s.aba.nodes[p].r);
      assert Apply(c, keys, s, step).aba == Runs.Apply(c, Common(keys), s.aba, Runs.Coin(p));
    case CoinMessage(p, m) =>
  }

  /** Every state of a run, seen without the coin messages, lies on one run of the agreement with the common coin. */
  lemma {:induction false} Refines<T(!new)>(c: Config, keys: Keys<T, int, Runs.Bit>, run: seq<System<T>>, n: nat)
    returns (abstraction: seq<Runs.System>)
    requires Fits(c, keys) && 0 < keys.p && IsRun(c, keys, run) && n < |run|
    ensures SeenOk(c, keys, run[n])
    ensures Runs.IsRun(c, Common(keys), abstraction) && abstraction[|abstraction| - 1] == run[n].aba
    ensures forall i :: 0 <= i <= n ==> run[i].aba in abstraction
  {
    hide Enabled, Apply, SeenOk, Fits, Init, Common, Runs.IsRun, Runs.Next;
    if n == 0 {
      abstraction := [run[0].aba];
      StartRefines(c, keys, run[0]);
    } else {
      abstraction := Refines(c, keys, run, n - 1);
      assert Next(c, keys, run[n - 1], run[n]);
      var step :| Enabled(c, keys, run[n - 1], step) && run[n] == Apply(c, keys, run[n - 1], step);
      StepRefines(c, keys, run[n - 1], step);
      if run[n].aba != run[n - 1].aba {
        abstraction := Extended(c, Common(keys), abstraction, run[n].aba);
      }
    }
  }

  lemma StartRefines<T(!new)>(c: Config, keys: Keys<T, int, Runs.Bit>, s: System<T>)
    requires Fits(c, keys) && Init(c, s)
    ensures SeenOk(c, keys, s) && Runs.IsRun(c, Common(keys), [s.aba])
  {
  }

  lemma Extended(c: Config, coin: int -> Runs.Bit, run: seq<Runs.System>, next: Runs.System)
    returns (longer: seq<Runs.System>)
    requires Runs.IsRun(c, coin, run) && Runs.Next(c, coin, run[|run| - 1], next)
    ensures Runs.IsRun(c, coin, longer) && longer == run + [next]
  {
    longer := run + [next];
  }

  // ---------------------------------------------------------------- agreement and validity

  /** No two honest nodes ever decide different bits, whatever coin messages arrive where. */
  lemma Agreement<T(!new)>(c: Config, keys: Keys<T, int, Runs.Bit>, run: seq<System<T>>, i: nat, j: nat,
                           p: nat, r: int, v: int, q: nat, k: int, w: int)
    requires Fits(c, keys) && IsRun(c, keys, run) && i < |run| && j < |run|
    requires Runs.Decided(run[i].aba, p, r, v) && Runs.Decided(run[j].aba, q, k, w)
    ensures v == w
  {
    var abstraction := Refines(c, keys, run, |run| - 1);
    var a :| 0 <= a < |abstraction| && abstraction[a] == run[i].aba;
    var b :| 0 <= b < |abstraction| && abstraction[b] == run[j].aba;
    Theorems.Agreement(c, Common(keys), abstraction, a, b, p, r, v, q, k, w);
  }

  /** A decided bit was the input of an honest node. */
  lemma Validity<T(!new)>(c: Config, keys: Keys<T, int, Runs.Bit>, run: seq<System<T>>, i: nat, p: nat, r: int, v: int)
    requires Fits(c, keys) && IsRun(c, keys, run) && i < |run| && Runs.Decided(run[i].aba, p, r, v)
    ensures Theorems.WasInput(c, run[i].aba, v)
  {
    var abstraction := Refines(c, keys, run, i);
    Theorems.Validity(c, Common(keys), abstraction, |abstraction| - 1, p, r, v);
  }
}
