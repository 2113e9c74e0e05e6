// One node of the common subset of honeybadgerbft/core/commonsubset.py.
module CommonSubset {
  import opened Options
  import opened Merkle

  /** `commonsubset` is still waiting, has returned its tuple, or failed its assertion. */
  datatype Outcome = Waiting | Returned(values: seq<Option<Bytes>>) | AssertFailed

  /** `calls` logs the calls `aba_in[j](v)`; `abaDone[j]` says that greenlet a_threads[j] has finished,
      `rbcDead[j]` that greenlet r_threads[j] ended in the exception of its broadcast. */
  datatype NodeState = NodeState(
    abaInputted: seq<bool>,
    abaValues: seq<int>,
    abaDone: seq<bool>,
    rbcValues: seq<Option<Bytes>>,
    rbcDead: seq<bool>,
    calls: seq<(nat, int)>,
    outcome: Outcome)

  function FreshNode(n: nat): NodeState {
    NodeState(seq(n, _ => false), seq(n, _ => 0), seq(n, _ => false), seq(n, _ => None), seq(n, _ => false), [],
              Waiting)
  }

  predicate Sized(n: nat, s: NodeState) {
    |s.abaInputted| == n && |s.abaValues| == n && |s.abaDone| == n && |s.rbcValues| == n
    && |s.rbcDead| == n
  }

  function Sum(xs: seq<int>): int {
    if xs == [] then 0 else Sum(xs[..|xs| - 1]) + xs[|xs| - 1]
  }

  /** `_recv_rbc(j)` with the value `v` of broadcast j. */
  function OnRbc(s: NodeState, j: nat, v: Bytes): NodeState
    requires j < |s.rbcValues| && j < |s.abaInputted|
  {
    var t := s.(rbcValues := s.rbcValues[j := Some(v)]);
    if s.abaInputted[j] then t
    else t.(abaInputted := s.abaInputted[j := true], calls := s.calls + [(j, 1)])
  }

  /** Input 0 to every agreement from number `k` on that has no input yet. */
  function FillZeros(s: NodeState, k: nat): NodeState
    decreases |s.abaInputted| - k
  {
    if k >= |s.abaInputted| then s
    else if s.abaInputted[k] then FillZeros(s, k + 1)
    else FillZeros(s.(abaInputted := s.abaInputted[k := true], calls := s.calls + [(k, 0)]), k + 1)
  }

  /** `_recv_aba(j)` with the bit `v` of agreement j. */
  function OnAba(n: nat, f: nat, s: NodeState, j: nat, v: int): NodeState
    requires j < |s.abaValues| && j < |s.abaDone|
  {
    var t := s.(abaValues := s.abaValues[j := v], abaDone := s.abaDone[j := true]);
    if Sum(t.abaValues) >= n - f then FillZeros(t, 0) else t
  }

  /** `rbc_out[j]` raised, which ends the greenlet that called it. */
  function OnRbcRaised(s: NodeState, j: nat): NodeState
    requires j < |s.rbcDead|
  {
    s.(rbcDead := s.rbcDead[j := true])
  }

  /** The joins from number `j` on return, up to the first whose greenlet ended without a value. */
  predicate JoinsReturn(s: NodeState, j: nat)
    requires |s.rbcValues| == |s.rbcDead| == |s.abaValues|
    decreases |s.abaValues| - j
  {
    j >= |s.abaValues| ||
    if s.abaValues[j] == 0 || s.rbcValues[j].Some? then JoinsReturn(s, j + 1) else s.rbcDead[j]
  }

  /** The loop over the broadcasts from number `j` on: the assertion fails for one that is included and has no value. */
  function JoinFrom(s: NodeState, j: nat): NodeState
    requires |s.rbcValues| == |s.abaValues|
    decreases |s.abaValues| - j
  {
    if j >= |s.abaValues| then s.(outcome := Returned(s.rbcValues))
    else if s.abaValues[j] == 0 then JoinFrom(s.(rbcValues := s.rbcValues[j := None]), j + 1)
    else if s.rbcValues[j].Some? then JoinFrom(s, j + 1)
    else s.(outcome := AssertFailed)
  }

  /** The tail of `commonsubset`. When its first assertion fails the broadcasts are not waited for. */
  function OnAllDone(n: nat, f: nat, s: NodeState): NodeState
    requires |s.rbcValues| == |s.abaValues|
  {
    if Sum(s.abaValues) < n - f then s.(outcome := AssertFailed) else JoinFrom(s, 0)
  }

  /** All agreements are in, and nothing is left to wait for. */
  predicate CanConclude(n: nat, f: nat, s: NodeState)
    requires Sized(n, s)
  {
    (forall j :: 0 <= j < n ==> s.abaDone[j]) && (Sum(s.abaValues) < n - f || JoinsReturn(s, 0))
  }

  // ---------------------------------------------------------------- the node as an object

  class Node {
    const n: nat
    const f: nat
    var abaInputted: seq<bool>
    var abaValues: seq<int>
    var abaDone: seq<bool>
    var rbcValues: seq<Option<Bytes>>
    var rbcDead: seq<bool>
    var calls: seq<(nat, int)>
    var outcome: Outcome

    function State(): NodeState
      reads this
    {
      NodeState(abaInputted, abaValues, abaDone, rbcValues, rbcDead, calls, outcome)
    }

    constructor (n: nat, f: nat)
      ensures this.n == n && this.f == f && State() == FreshNode(n)
    {
      this.n, this.f := n, f;
      abaInputted, abaDone, rbcDead := seq(n, _ => false), seq(n, _ => false), seq(n, _ => false);
      abaValues, rbcValues, calls, outcome := seq(n, _ => 0), seq(n, _ => None), [], Waiting;
    }

    method ReceiveRbc(j: nat, v: Bytes)
      requires Sized(n, State()) && j < n
      modifies this
      ensures State() == OnRbc(old(State()), j, v)
    {
      rbcValues := rbcValues[j := Some(v)];
      if !abaInputted[j] {
        abaInputted := abaInputted[j := true];
        calls := calls + [(j, 1)];
      }
    }

    method ReceiveAba(j: nat, v: int)
      requires Sized(n, State()) && j < n
      modifies this
      ensures State() == OnAba(n, f, old(State()), j, v)
    {
      abaValues, abaDone := abaValues[j := v], abaDone[j := true];
      if Sum(abaValues) >= n - f {
        ghost var t := State();
        for k := 0 to n
          invariant Sized(n, State())
          invariant FillZeros(State(), k) == FillZeros(t, 0)
        {
          if !abaInputted[k] {
            abaInputted := abaInputted[k := true];
            calls := calls + [(k, 0)];
          }
        }
      }
    }

    method BroadcastRaised(j: nat)
      requires Sized(n, State()) && j < n
      modifies this
      ensures State() == OnRbcRaised(old(State()), j)
    {
      rbcDead := rbcDead[j := true];
    }

    method Conclude()
      requires Sized(n, State()) && CanConclude(n, f, State())
      modifies this
      ensures State() == OnAllDone(n, f, old(State()))
    {
      if Sum(abaValues) < n - f {
        outcome := AssertFailed;
        return;
      }
      ghost var s := State();
      for j := 0 to n
        invariant Sized(n, State()) && abaValues == s.abaValues && JoinFrom(State(), j) == JoinFrom(s, 0)
      {
        if abaValues[j] != 0 {
          if rbcValues[j] == None {
            outcome := AssertFailed;
            return;
          }
        } else {
          rbcValues := rbcValues[j := None];
        }
      }
      outcome := Returned(rbcValues);
    }
  }
}
