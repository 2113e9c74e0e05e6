// One node of the reliable broadcast of honeybadgerbft/core/reliablebroadcast.py: its record, what the
// receive loop does to it, and the object that updates it in place.
module ReliableBroadcast {
  import opened Options
  import opened Merkle
  import opened Erasure

  datatype Msg =
    | Val(root: Bytes, branch: seq<Bytes>, stripe: Bytes)
    | Echo(root: Bytes, branch: seq<Bytes>, stripe: Bytes)
    | Ready(root: Bytes)

  /** N, f, the leader and the code; K = N - 2f stripes rebuild a message. */
  datatype Params = Params(n: nat, f: nat, leader: nat, code: Code) {
    function K(): nat
      requires Valid()
    {
      n - 2 * f
    }

    predicate Valid() { 3 * f + 1 <= n && leader < n && n - 2 * f <= 256 }
  }

  /** The main loop is running, or `reliablebroadcast` returned a value or raised. */
  datatype Outcome = Running | Returned(m: Bytes) | Raised

  datatype NodeState = NodeState(
    fromLeader: Option<Bytes>,
    stripes: map<Bytes, seq<Option<Bytes>>>,
    echoCounter: map<Bytes, nat>,
    echoSenders: set<nat>,
    ready: map<Bytes, set<nat>>,
    readySent: bool,
    readySenders: set<nat>,
    outcome: Outcome)

  const FRESH_NODE := NodeState(None, map[], map[], {}, map[], false, {}, Running)

  /** The record after a step and what it broadcasts. */
  datatype Effect = Effect(node: NodeState, sent: seq<Msg>)

  /** `stripes[root]`, `echoCounter[root]` and `ready[root]`, with their defaults. */
  function Row(n: nat, s: NodeState, root: Bytes): seq<Option<Bytes>> {
    if root in s.stripes then s.stripes[root] else seq(n, _ => None)
  }

  function Count(s: NodeState, root: Bytes): nat {
    if root in s.echoCounter then s.echoCounter[root] else 0
  }

  function ReadyFor(s: NodeState, root: Bytes): set<nat> { Senders(s.ready, root) }

  /** The test before `return decode_output(roothash)`. */
  predicate OutputGuard(c: Params, s: NodeState, root: Bytes)
    requires c.Valid()
  {
    2 * c.f + 1 <= |ReadyFor(s, root)| && c.K() <= Count(s, root)
  }

  function Output(c: Params, row: seq<Option<Bytes>>, root: Bytes): Outcome
    requires c.Valid()
  {
    match DecodeOutput(c.code, c.K(), root, row)
    case Some(m) => Returned(m)
    case None => Raised
  }

  function Finish(c: Params, s: NodeState, root: Bytes): NodeState
    requires c.Valid()
  {
    if OutputGuard(c, s, root) then s.(outcome := Output(c, Row(c.n, s, root), root)) else s
  }

  function OnVal(c: Params, pid: nat, s: NodeState, sender: nat, root: Bytes, branch: seq<Bytes>, stripe: Bytes): Effect
    requires c.Valid()
  {
    if s.fromLeader.Some? || sender != c.leader || !Verifies(c.n, stripe, root, branch, pid) then Effect(s, [])
    else Effect(s.(fromLeader := Some(root)), [Echo(root, branch, stripe)])
  }

  predicate RedundantEcho(n: nat, s: NodeState, sender: nat, root: Bytes) {
    (root in s.stripes && sender < |s.stripes[root]| && s.stripes[root][sender].Some?) || sender in s.echoSenders
  }

  /** The counters after an accepted ECHO. */
  function AddEcho(n: nat, s: NodeState, sender: nat, root: Bytes, stripe: Bytes): NodeState
    requires sender < |Row(n, s, root)|
  {
    s.(stripes := s.stripes[root := Row(n, s, root)[sender := Some(stripe)]],
       echoSenders := s.echoSenders + {sender},
       echoCounter := s.echoCounter[root := Count(s, root) + 1])
  }

  function OnEcho(c: Params, s: NodeState, sender: nat, root: Bytes, branch: seq<Bytes>, stripe: Bytes): Effect
    requires c.Valid() && sender < |Row(c.n, s, root)|
  {
    if RedundantEcho(c.n, s, sender, root) || !Verifies(c.n, stripe, root, branch, sender) then Effect(s, [])
    else AfterEcho(c, AddEcho(c.n, s, sender, root, stripe), root)
  }

  /** READY is announced at n - f echoes, and the output guard is tried. */
  function AfterEcho(c: Params, t: NodeState, root: Bytes): Effect
    requires c.Valid()
  {
    var announce := c.n - c.f <= Count(t, root) && !t.readySent;
    var u := if announce then t.(readySent := true) else t;
    Effect(Finish(c, u, root), if announce then [Ready(root)] else [])
  }

  function OnReady(c: Params, s: NodeState, sender: nat, root: Bytes): Effect
    requires c.Valid()
  {
    if sender in ReadyFor(s, root) || sender in s.readySenders then Effect(s, [])
    else
      var t := s.(ready := AddSender(s.ready, root, sender), readySenders := s.readySenders + {sender});
      var announce := c.f + 1 <= |ReadyFor(t, root)| && !t.readySent;
      var u := if announce then t.(readySent := true) else t;
      Effect(Finish(c, u, root), if announce then [Ready(root)] else [])
  }

  /** Every row has one slot per node. */
  ghost predicate RowsFit(n: nat, s: NodeState) {
    forall root :: |Row(n, s, root)| == n
  }

  function OnMessage(c: Params, pid: nat, s: NodeState, sender: nat, m: Msg): Effect
    requires c.Valid() && sender < c.n && RowsFit(c.n, s)
  {
    if s.outcome != Running then Effect(s, [])
    else
      match m
      case Val(root, branch, stripe) => OnVal(c, pid, s, sender, root, branch, stripe)
      case Echo(root, branch, stripe) =>
        assert |Row(c.n, s, root)| == c.n;
        OnEcho(c, s, sender, root, branch, stripe)
      case Ready(root) => OnReady(c, s, sender, root)
  }

  /** What the leader sends to node `i` for its input `m`. */
  function LeaderVal(c: Params, m: Bytes, i: nat): Msg
    requires c.Valid() && |Encode(c.code, c.K(), m)| == c.n && i < c.n
  {
    var strs := Encode(c.code, c.K(), m);
    var bottom := BottomRow(c.n);
    Val(Root(strs), Branch(strs, bottom, bottom + i), strs[i])
  }

  // ---------------------------------------------------------------- the node as an object

  class Node {
    const c: Params
    const pid: nat
    var fromLeader: Option<Bytes>
    var stripes: map<Bytes, seq<Option<Bytes>>>
    var echoCounter: map<Bytes, nat>
    var echoSenders: set<nat>
    var ready: map<Bytes, set<nat>>
    var readySent: bool
    var readySenders: set<nat>
    var outcome: Outcome

    function State(): NodeState
      reads this
    {
      NodeState(fromLeader, stripes, echoCounter, echoSenders, ready, readySent, readySenders, outcome)
    }

    constructor (c: Params, pid: nat)
      ensures this.c == c && this.pid == pid && State() == FRESH_NODE
    {
      this.c, this.pid := c, pid;
      fromLeader, readySent, outcome := None, false, Running;
      stripes, echoCounter, ready := map[], map[], map[];
      echoSenders, readySenders := {}, {};
    }

    /** The leader's prologue: one VAL for each node. */
    method Disperse(m: Bytes) returns (vals: seq<Msg>)
      requires c.Valid() && |Encode(c.code, c.K(), m)| == c.n
      ensures |vals| == c.n && forall i :: 0 <= i < c.n ==> vals[i] == LeaderVal(c, m, i)
    {
      hide Encode, Branch, Entry, BottomRow;
      var strs := Encode(c.code, c.K(), m);
      RowHolds(|strs|);
      var mt := MerkleTree(strs);
      ghost var tree := mt[..];
      assert mt[1] == tree[1] == Root(strs);
      vals := [];
      for i := 0 to c.n
        invariant |vals| == i
        invariant mt[..] == tree
        invariant forall j :: 0 <= j < i ==> vals[j] == LeaderVal(c, m, j)
      {
        var branch := GetMerkleBranch(i, mt[..], strs);
        vals := vals + [Val(mt[1], branch, strs[i])];
      }
    }

    method ReceiveVal(sender: nat, root: Bytes, branch: seq<Bytes>, stripe: Bytes) returns (out: seq<Msg>)
      requires c.Valid() && outcome == Running
      modifies this
      ensures Effect(State(), out) == OnVal(c, pid, old(State()), sender, root, branch, stripe)
    {
      out := [];
      if fromLeader == None {
        if sender != c.leader {
          return;
        }
        var ok := MerkleVerify(c.n, stripe, root, branch, pid);
        if ok != Some(true) {
          return;
        }
        fromLeader, out := Some(root), [Echo(root, branch, stripe)];
      }
    }

    method ReceiveEcho(sender: nat, root: Bytes, branch: seq<Bytes>, stripe: Bytes) returns (out: seq<Msg>)
      requires c.Valid() && outcome == Running && sender < |Row(c.n, State(), root)|
      modifies this
      ensures Effect(State(), out) == OnEcho(c, old(State()), sender, root, branch, stripe)
    {
      hide Verifies, AfterEcho;
      ghost var before := State();
      out := [];
      if (root in stripes && stripes[root][sender] != None) || sender in echoSenders {
        return;
      }
      var ok := MerkleVerify(c.n, stripe, root, branch, sender);
      if ok != Some(true) {
        return;
      }
      var row := if root in stripes then stripes[root] else seq(c.n, _ => None);
      row := row[sender := Some(stripe)];
      var count := (if root in echoCounter then echoCounter[root] else 0) + 1;
      stripes := stripes[root := row];
      echoSenders := echoSenders + {sender};
      echoCounter := echoCounter[root := count];
      ghost var t := AddEcho(c.n, before, sender, root, stripe);
      assert State() == t;
      out := Conclude(count, row, root);
    }

    /** The two tests after an accepted ECHO. */
    method Conclude(count: nat, row: seq<Option<Bytes>>, root: Bytes) returns (out: seq<Msg>)
      requires c.Valid() && outcome == Running && Count(State(), root) == count && Row(c.n, State(), root) == row
      modifies this
      ensures Effect(State(), out) == AfterEcho(c, old(State()), root)
    {
      out := [];
      if c.n - c.f <= count && !readySent {
        readySent, out := true, [Ready(root)];
      }
      if 2 * c.f + 1 <= |Senders(ready, root)| && c.n - 2 * c.f <= count {
        outcome := Output(c, row, root);
      }
    }

    method ReceiveReady(sender: nat, root: Bytes) returns (out: seq<Msg>)
      requires c.Valid() && outcome == Running
      modifies this
      ensures Effect(State(), out) == OnReady(c, old(State()), sender, root)
    {
      hide Output;
      out := [];
      if sender in Senders(ready, root) || sender in readySenders {
        return;
      }
      ready := AddSender(ready, root, sender);
      readySenders := readySenders + {sender};
      if c.f + 1 <= |Senders(ready, root)| && !readySent {
        readySent, out := true, [Ready(root)];
      }
      var echoes := if root in echoCounter then echoCounter[root] else 0;
      if 2 * c.f + 1 <= |Senders(ready, root)| && c.n - 2 * c.f <= echoes {
        var row := if root in stripes then stripes[root] else seq(c.n, _ => None);
        outcome := Output(c, row, root);
      }
    }
  }
}
