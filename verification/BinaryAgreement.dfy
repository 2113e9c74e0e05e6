// One node of the binary agreement of honeybadgerbft/core/binaryagreement.py: its record, what each
// handler and each segment of the round loop does to it, and the object that updates it in place.
module BinaryAgreement {
  import opened Options

  /** `v` is an integer because the sender chooses it; the receiver asserts that it is a bit. */
  datatype Msg =
    | Est(r: int, v: int)
    | Aux(r: int, v: int)
    | Conf(r: int, vs: seq<int>)

  predicate IsBit(v: int) { v == 0 || v == 1 }

  /** The keys of a fresh entry of `conf_values`. */
  predicate IsConfValue(vs: seq<int>) { vs == [0] || vs == [1] || vs == [0, 1] }

  /** `tuple(s)` for a set of bits: CPython iterates a set of small integers in increasing order. */
  function Tuple(s: set<int>): seq<int> {
    (if 0 in s then [0] else []) + (if 1 in s then [1] else [])
  }

  /** Where the main greenlet is blocked. */
  datatype Phase = AwaitInput | AwaitBinValue | AwaitAux | AwaitConf | AwaitCoin | Stopped

  datatype NodeState = NodeState(
    listening: bool,                            // the `_recv` greenlet is alive
    estValues: map<(int, int), set<nat>>,
    auxValues: map<(int, int), set<nat>>,
    confValues: map<(int, seq<int>), set<nat>>,
    estSent: set<(int, int)>,
    confSent: set<(int, seq<int>)>,
    binValues: map<int, set<int>>,
    phase: Phase,
    r: int,
    est: int,
    values: set<int>,
    decided: Option<int>)

  const FRESH_NODE :=
    NodeState(true, map[], map[], map[], {}, {}, map[], AwaitInput, 0, 0, {}, None)

  /** What one atomic step does: the new record, the messages broadcast, the value given to `decide`. */
  datatype Effect = Effect(node: NodeState, sent: seq<Msg>, decision: Option<int>)

  function Quiet(s: NodeState): Effect { Effect(s, [], None) }

  function Bin(s: NodeState, r: int): set<int> {
    if r in s.binValues then s.binValues[r] else {}
  }

  /** `est_values[r][v]`, `aux_values[r][v]` and `conf_values[r][vs]`. */
  function EstVotes(s: NodeState, r: int, v: int): set<nat> { Senders(s.estValues, (r, v)) }

  function AuxVotes(s: NodeState, r: int, v: int): set<nat> { Senders(s.auxValues, (r, v)) }

  function ConfVotes(s: NodeState, r: int, vs: seq<int>): set<nat> { Senders(s.confValues, (r, vs)) }

  // ---------------------------------------------------------------- the receive handlers

  function OnEst(f: nat, s: NodeState, sender: nat, r: int, v: int): Effect {
    if !s.listening then Quiet(s)
    else if !IsBit(v) then Quiet(s.(listening := false))
    else if sender in EstVotes(s, r, v) then Quiet(s)
    else
      var est := AddSender(s.estValues, (r, v), sender);
      var count := |est[(r, v)]|;
      var relay := f + 1 <= count && (r, v) !in s.estSent;
      Effect(
        s.(estValues := est,
           estSent := if relay then s.estSent + {(r, v)} else s.estSent,
           binValues := if 2 * f + 1 <= count then s.binValues[r := Bin(s, r) + {v}] else s.binValues),
        if relay then [Est(r, v)] else [],
        None)
  }

  function OnAux(s: NodeState, sender: nat, r: int, v: int): Effect {
    if !s.listening then Quiet(s)
    else if !IsBit(v) || sender in AuxVotes(s, r, v) then Quiet(s.(listening := false))
    else Quiet(s.(auxValues := AddSender(s.auxValues, (r, v), sender)))
  }

  function OnConf(s: NodeState, sender: nat, r: int, vs: seq<int>): Effect {
    if !s.listening then Quiet(s)
    else if !IsConfValue(vs) || sender in ConfVotes(s, r, vs) then Quiet(s.(listening := false))
    else Quiet(s.(confValues := AddSender(s.confValues, (r, vs), sender)))
  }

  function OnMessage(f: nat, s: NodeState, sender: nat, m: Msg): Effect {
    match m
    case Est(r, v) => OnEst(f, s, sender, r, v)
    case Aux(r, v) => OnAux(s, sender, r, v)
    case Conf(r, vs) => OnConf(s, sender, r, vs)
  }

  // ---------------------------------------------------------------- the round loop

  /** The top of the loop: broadcast the estimate unless a relay already did. */
  function EnterRound(s: NodeState, r: int, est: int): Effect {
    var unsent := (r, est) !in s.estSent;
    Effect(s.(r := r, est := est, phase := AwaitBinValue,
              estSent := if unsent then s.estSent + {(r, est)} else s.estSent),
           if unsent then [Est(r, est)] else [],
           None)
  }

  function OnInput(s: NodeState, v: int): Effect
    requires s.phase == AwaitInput
  {
    if IsBit(v) then EnterRound(s, 0, v) else Quiet(s.(phase := Stopped))
  }

  /** Some element `w` of `bin_values[r]` becomes the AUX vote. */
  function OnBinValue(s: NodeState, w: int): Effect
    requires s.phase == AwaitBinValue && w in Bin(s, s.r)
  {
    Effect(s.(phase := AwaitAux), [Aux(s.r, w)], None)
  }

  function AuxCount(s: NodeState, v: int): nat {
    if v in Bin(s, s.r) then |AuxVotes(s, s.r, v)| else 0
  }

  /** What the AUX wait loop breaks with, if it breaks now. */
  function AuxOutcome(n: nat, f: nat, s: NodeState): Option<set<int>> {
    if 1 in Bin(s, s.r) && |AuxVotes(s, s.r, 1)| >= n - f then Some({1})
    else if 0 in Bin(s, s.r) && |AuxVotes(s, s.r, 0)| >= n - f then Some({0})
    else if AuxCount(s, 0) + AuxCount(s, 1) >= n - f then Some({0, 1})
    else None
  }

  /** After the AUX wait: the CONF phase, skipped only if this very CONF was sent before. */
  function OnAuxQuorum(n: nat, f: nat, s: NodeState): Effect
    requires s.phase == AwaitAux && AuxOutcome(n, f, s).Some?
  {
    var values := AuxOutcome(n, f, s).value;
    var key := (s.r, Tuple(values));
    if key in s.confSent then
      Quiet(s.(phase := AwaitCoin, values := values))
    else
      Effect(s.(phase := AwaitConf, values := values, confSent := s.confSent + {key}),
             [Conf(s.r, Tuple(Bin(s, s.r)))],
             None)
  }

  /** The senders of `vs` count in the third CONF test when `vs` lists only accepted values. */
  function ConfCount(s: NodeState, vs: seq<int>): nat {
    if forall v :: v in vs ==> v in Bin(s, s.r) then |ConfVotes(s, s.r, vs)| else 0
  }

  /** What `wait_for_conf_values` returns, if it returns now. */
  function ConfOutcome(n: nat, f: nat, s: NodeState): Option<set<int>> {
    if 1 in Bin(s, s.r) && |ConfVotes(s, s.r, [1])| >= n - f then Some({1})
    else if 0 in Bin(s, s.r) && |ConfVotes(s, s.r, [0])| >= n - f then Some({0})
    else if ConfCount(s, [0]) + ConfCount(s, [1]) + ConfCount(s, [0, 1]) >= n - f then Some({0, 1})
    else None
  }

  function OnConfQuorum(n: nat, f: nat, s: NodeState): Effect
    requires s.phase == AwaitConf && ConfOutcome(n, f, s).Some?
  {
    Quiet(s.(phase := AwaitCoin, values := ConfOutcome(n, f, s).value))
  }

  /** `set_new_estimate`: either the node abandons, or it has a new estimate and possibly decides. */
  datatype Estimate = Abandoned | Estimate(est: int, decided: Option<int>, decision: Option<int>)

  function SetNewEstimate(values: set<int>, coin: int, decided: Option<int>): Estimate {
    if values == {0} || values == {1} then
      var v := if values == {0} then 0 else 1;
      if v == coin && decided == None then Estimate(v, Some(v), Some(v))
      else if v == coin && decided == Some(v) then Abandoned
      else Estimate(v, decided, None)
    else
      Estimate(coin, decided, None)
  }

  function OnCoin(s: NodeState, coin: int): Effect
    requires s.phase == AwaitCoin
  {
    match SetNewEstimate(s.values, coin, s.decided)
    case Abandoned => Quiet(s.(phase := Stopped, listening := false))
    case Estimate(est, decided, decision) =>
      EnterRound(s.(decided := decided), s.r + 1, est).(decision := decision)
  }

  // ---------------------------------------------------------------- the node as an object

  /** The closure variables of `binaryagreement`, updated in place by its handlers and its loop. */
  class Node {
    const n: nat
    const f: nat
    var listening: bool
    var estValues: map<(int, int), set<nat>>
    var auxValues: map<(int, int), set<nat>>
    var confValues: map<(int, seq<int>), set<nat>>
    var estSent: set<(int, int)>
    var confSent: set<(int, seq<int>)>
    var binValues: map<int, set<int>>
    var phase: Phase
    var r: int
    var est: int
    var values: set<int>
    var decided: Option<int>

    function State(): NodeState
      reads this
    {
      NodeState(listening, estValues, auxValues, confValues, estSent, confSent, binValues,
                phase, r, est, values, decided)
    }

    constructor (n: nat, f: nat)
      ensures this.n == n && this.f == f && State() == FRESH_NODE
    {
      this.n, this.f := n, f;
      listening, phase, r, est, values, decided := true, AwaitInput, 0, 0, {}, None;
      estValues, auxValues, confValues := map[], map[], map[];
      estSent, confSent, binValues := {}, {}, map[];
    }

    method ReceiveEst(sender: nat, round: int, v: int) returns (out: seq<Msg>)
      requires listening
      modifies this
      ensures Effect(State(), out, None) == OnEst(f, old(State()), sender, round, v)
    {
      out := [];
      if v != 0 && v != 1 {
        listening := false;
        return;
      }
      if sender in Senders(estValues, (round, v)) {
        return;
      }
      estValues := AddSender(estValues, (round, v), sender);
      if f + 1 <= |estValues[(round, v)]| && (round, v) !in estSent {
        estSent := estSent + {(round, v)};
        out := [Est(round, v)];
      }
      if 2 * f + 1 <= |estValues[(round, v)]| {
        var accepted := if round in binValues then binValues[round] else {};
        binValues := binValues[round := accepted + {v}];
      }
    }

    method ReceiveAux(sender: nat, round: int, v: int)
      requires listening
      modifies this
      ensures Quiet(State()) == OnAux(old(State()), sender, round, v)
    {
      if !(v == 0 || v == 1) {
        listening := false;
      } else if sender in Senders(auxValues, (round, v)) {
        listening := false;
      } else {
        auxValues := AddSender(auxValues, (round, v), sender);
      }
    }

    method ReceiveConf(sender: nat, round: int, vs: seq<int>)
      requires listening
      modifies this
      ensures Quiet(State()) == OnConf(old(State()), sender, round, vs)
    {
      if !(vs == [0] || vs == [1] || vs == [0, 1]) {
        listening := false;
      } else if sender in Senders(confValues, (round, vs)) {
        listening := false;
      } else {
        confValues := AddSender(confValues, (round, vs), sender);
      }
    }

    /** The loop's first statements, for the round `r` and the estimate `est` now in the fields. */
    method BroadcastEstimate() returns (out: seq<Msg>)
      modifies this
      ensures Effect(State(), out, None) == EnterRound(old(State()), old(r), old(est))
    {
      phase, out := AwaitBinValue, [];
      if (r, est) !in estSent {
        estSent := estSent + {(r, est)};
        out := [Est(r, est)];
      }
    }

    method TakeInput(v: int) returns (out: seq<Msg>)
      requires phase == AwaitInput
      modifies this
      ensures Effect(State(), out, None) == OnInput(old(State()), v)
    {
      out := [];
      if !(v == 0 || v == 1) {
        phase := Stopped;
      } else {
        est, r := v, 0;
        out := BroadcastEstimate();
      }
    }

    method VoteAux(w: int) returns (out: seq<Msg>)
      requires phase == AwaitBinValue && w in Bin(State(), r)
      modifies this
      ensures Effect(State(), out, None) == OnBinValue(old(State()), w)
    {
      phase, out := AwaitAux, [Aux(r, w)];
    }

    method FinishAux() returns (out: seq<Msg>)
      requires phase == AwaitAux && AuxOutcome(n, f, State()).Some?
      modifies this
      ensures Effect(State(), out, None) == OnAuxQuorum(n, f, old(State()))
    {
      var accepted := if r in binValues then binValues[r] else {};
      if 1 in accepted && |Senders(auxValues, (r, 1))| >= n - f {
        values := {1};
      } else if 0 in accepted && |Senders(auxValues, (r, 0))| >= n - f {
        values := {0};
      } else {
        values := {0, 1};
      }
      if (r, Tuple(values)) !in confSent {
        confSent := confSent + {(r, Tuple(values))};
        phase, out := AwaitConf, [Conf(r, Tuple(accepted))];
      } else {
        phase, out := AwaitCoin, [];
      }
    }

    method FinishConf()
      requires phase == AwaitConf && ConfOutcome(n, f, State()).Some?
      modifies this
      ensures Quiet(State()) == OnConfQuorum(n, f, old(State()))
    {
      var accepted := if r in binValues then binValues[r] else {};
      if 1 in accepted && |Senders(confValues, (r, [1]))| >= n - f {
        values := {1};
      } else if 0 in accepted && |Senders(confValues, (r, [0]))| >= n - f {
        values := {0};
      } else {
        values := {0, 1};
      }
      phase := AwaitCoin;
    }

    method UseCoin(coin: int) returns (out: seq<Msg>, decision: Option<int>)
      requires phase == AwaitCoin
      modifies this
      ensures Effect(State(), out, decision) == OnCoin(old(State()), coin)
    {
      out, decision := [], None;
      if values == {0} || values == {1} {
        var v := if values == {0} then 0 else 1;
        if v == coin {
          if decided == None {
            decided, decision := Some(v), Some(v);
          } else if decided == Some(v) {
            listening, phase := false, Stopped;
            return;
          }
        }
        est := v;
      } else {
        est := coin;
      }
      r := r + 1;
      out := BroadcastEstimate();
    }
  }
}
