// One node of the asynchronous data dissemination of dpid/core/add.py.
module Dissemination {
  import opened Options
  import opened Merkle
  import opened Erasure
  import opened Padding

  /** The sender is the authenticated one; the source reads it from the message. */
  datatype Msg = AddVal(value: Bytes) | Reconst(value: Bytes)

  datatype Params = Params(n: nat, f: nat, code: Code) {
    predicate Valid() { 3 * f + 1 <= n && n - 2 * f <= 256 }

    function K(): nat
      requires Valid()
    {
      n - 2 * f
    }
  }

  /** Still receiving; returned a message; returned "Failed"; raised in `decode`. */
  datatype Outcome = Running | Returned(m: Bytes) | Failed | Raised

  /** `reconstCheck` holds pairs of a sender and the hash of its share, in order of arrival. */
  datatype NodeState = NodeState(
    dispCounter: map<Bytes, set<nat>>,
    dispSenders: set<nat>,
    reconstructSent: bool,
    reconstSenders: set<nat>,
    reconstCounter: seq<Option<Bytes>>,
    reconstCheck: seq<(nat, Bytes)>,
    count: nat,
    outcome: Outcome)

  function FreshNode(n: nat): NodeState {
    NodeState(map[], {}, false, {}, seq(n, _ => None), [], 0, Running)
  }

  /** The new record, and the RECONST value sent to all, if any. */
  datatype Effect = Effect(node: NodeState, reconst: Option<Bytes>)

  function OnAddVal(f: nat, s: NodeState, sender: nat, value: Bytes): Effect {
    if sender in s.dispSenders then Effect(s, None)
    else
      var counter := AddSender(s.dispCounter, Hash(value), sender);
      var t := s.(dispCounter := counter, dispSenders := s.dispSenders + {sender});
      if f + 1 <= |counter[Hash(value)]| && !s.reconstructSent
      then Effect(t.(reconstructSent := true), Some(value)) else Effect(t, None)
  }

  /** How many of the first `i` recorded shares are the re-encoded ones. */
  function Matches(strs: seq<Bytes>, check: seq<(nat, Bytes)>, i: nat): nat
    requires i <= |check|
  {
    if i == 0 then 0
    else Matches(strs, check, i - 1) +
         if check[i - 1].0 < |strs| && Hash(strs[check[i - 1].0]) == check[i - 1].1 then 1 else 0
  }

  /** Decode, re-encode and count; None means keep receiving. */
  function Attempt(b: Params, s: NodeState): Outcome
    requires b.Valid()
  {
    match Decode(b.code, b.K(), s.reconstCounter)
    case None => Raised
    case Some(m) =>
      if 2 * b.f + 1 <= Matches(Encode(b.code, b.K(), m), s.reconstCheck, |s.reconstCheck|) then Returned(m)
      else if b.n <= s.count then Failed
      else Running
  }

  function TakeShare(s: NodeState, sender: nat, value: Bytes): NodeState
    requires sender < |s.reconstCounter|
  {
    s.(reconstCounter := s.reconstCounter[sender := Some(value)],
       count := s.count + 1,
       reconstCheck := s.reconstCheck + [(sender, Hash(value))],
       reconstSenders := s.reconstSenders + {sender})
  }

  function OnReconst(b: Params, s: NodeState, sender: nat, value: Bytes): NodeState
    requires b.Valid() && sender < |s.reconstCounter|
  {
    if sender in s.reconstSenders then s
    else
      var t := TakeShare(s, sender, value);
      if 2 * b.f + 1 <= t.count then t.(outcome := Attempt(b, t)) else t
  }

  // ---------------------------------------------------------------- the node as an object

  class Node {
    const b: Params
    var dispCounter: map<Bytes, set<nat>>
    var dispSenders: set<nat>
    var reconstructSent: bool
    var reconstSenders: set<nat>
    var reconstCounter: seq<Option<Bytes>>
    var reconstCheck: seq<(nat, Bytes)>
    var count: nat
    var outcome: Outcome

    function State(): NodeState
      reads this
    {
      NodeState(dispCounter, dispSenders, reconstructSent, reconstSenders, reconstCounter, reconstCheck, count, outcome)
    }

    constructor (b: Params)
      ensures this.b == b && State() == FreshNode(b.n)
    {
      this.b := b;
      dispCounter, dispSenders, reconstructSent, reconstSenders := map[], {}, false, {};
      reconstCounter, reconstCheck, count, outcome := seq(b.n, _ => None), [], 0, Running;
    }

    method ReceiveAddVal(sender: nat, value: Bytes) returns (reconst: Option<Bytes>)
      modifies this
      ensures Effect(State(), reconst) == OnAddVal(b.f, old(State()), sender, value)
    {
      reconst := None;
      if sender in dispSenders {
        return;
      }
      dispCounter := AddSender(dispCounter, Hash(value), sender);
      dispSenders := dispSenders + {sender};
      if b.f + 1 <= |dispCounter[Hash(value)]| {
        if !reconstructSent {
          reconstructSent, reconst := true, Some(value);
        }
      }
    }

    method ReceiveReconst(sender: nat, value: Bytes)
      requires b.Valid() && outcome == Running && sender < |reconstCounter|
      modifies this
      ensures State() == OnReconst(b, old(State()), sender, value)
    {
      if sender in reconstSenders {
        return;
      }
      reconstCounter := reconstCounter[sender := Some(value)];
      count := count + 1;
      reconstCheck := reconstCheck + [(sender, Hash(value))];
      reconstSenders := reconstSenders + {sender};
      assert State() == TakeShare(old(State()), sender, value);
      if 2 * b.f + 1 <= count {
        var decoded := Decode(b.code, b.n - 2 * b.f, reconstCounter);
        if decoded == None {
          outcome := Raised;
          return;
        }
        var strs := Encode(b.code, b.n - 2 * b.f, decoded.value);
        var reached := EnoughShares(strs, reconstCheck, 2 * b.f + 1);
        if reached {
          outcome := Returned(decoded.value);
          return;
        }
        if b.n <= count {
          outcome := Failed;
        }
      }
    }
  }

  /** The counting loop of `add`, which stops as soon as the threshold is reached. */
  method EnoughShares(strs: seq<Bytes>, check: seq<(nat, Bytes)>, threshold: nat) returns (reached: bool)
    requires 0 < threshold
    ensures reached <==> threshold <= Matches(strs, check, |check|)
  {
    var counter, i := 0, 0;
    while i < |check|
      invariant 0 <= i <= |check| && counter == Matches(strs, check, i) < threshold
    {
      var (s, h) := check[i];
      if s < |strs| && Hash(strs[s]) == h {
        counter := counter + 1;
      }
      if threshold <= counter {
        MatchesGrow(strs, check, i + 1, |check|);
        return true;
      }
      i := i + 1;
    }
    return false;
  }

  lemma {:induction false} MatchesGrow(strs: seq<Bytes>, check: seq<(nat, Bytes)>, i: nat, j: nat)
    requires i <= j <= |check|
    ensures Matches(strs, check, i) <= Matches(strs, check, j)
  {
    if i < j { MatchesGrow(strs, check, i, j - 1); }
  }

  // ---------------------------------------------------------------- codewords that share K stripes

  /** The first `k` members of a set of numbers below n, in increasing order. */
  lemma {:induction false} Enumerate(s: set<nat>, n: nat, k: nat) returns (nums: seq<nat>)
    requires k <= |s| && forall i :: i in s ==> i < n
    ensures |nums| == k && Increasing(nums, n) && forall i :: 0 <= i < k ==> nums[i] in s
  {
    if k == 0 {
      nums := [];
    } else {
      var top := Largest(s);
      var rest := s - {top};
      nums := Enumerate(rest, top, k - 1);
      nums := nums + [top];
    }
  }

  lemma {:induction false} Largest(s: set<nat>) returns (top: nat)
    requires s != {}
    ensures top in s && forall i :: i in s ==> i <= top
  {
    top :| top in s;
    if s != {top} {
      var rest := s - {top};
      var t := Largest(rest);
      assert s == rest + {top};
      if top < t { top := t; }
    }
  }

  /** Two messages whose encodings share k stripes have the same padding. */
  lemma SharedStripesDetermine(code: Code, k: nat, n: nat, a: Bytes, b: Bytes, same: set<nat>)
    requires IsErasureCode(code, k, n)
    requires |Encode(code, k, a)| == n && |Encode(code, k, b)| == n
    requires k <= |same| && forall i :: i in same ==> i < n && Encode(code, k, a)[i] == Encode(code, k, b)[i]
    ensures SamePadding(k, a, b)
  {
    var nums := Enumerate(same, n, k);
    SharedStripes(code, k, n, a, b, nums);
  }
}
