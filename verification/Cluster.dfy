/** One shard of src/engine/clusterSimulator.ts as a protocol over values: replicate, count the
    quorum, commit, apply, fail, rejoin, elect. Nodes are named by their position in the shard. */
module Cluster {
  import opened Bytes
  import opened Quorum

  datatype Command = Put | Delete

  /** A log entry; timestamps are left out. */
  datatype LogEntry = LogEntry(term: nat, index: nat, command: Command, key: Bytes, value: Option<Bytes>)

  datatype Role = Leader | Follower | Candidate

  datatype Node = Node(role: Role, term: nat, votedFor: Option<nat>, commitIndex: nat, lastApplied: nat,
                       log: seq<LogEntry>, applied: seq<LogEntry>, healthy: bool, partitioned: bool)

  datatype Shard = Shard(leaderId: Option<nat>, nodes: seq<Node>)

  predicate Live(n: Node) { n.healthy && !n.partitioned }

  function LiveCount(nodes: seq<Node>, k: nat): nat
    requires k <= |nodes|
  {
    if k == 0 then 0 else LiveCount(nodes, k - 1) + if Live(nodes[k - 1]) then 1 else 0
  }

  function LiveSet(nodes: seq<Node>): set<nat> { set i: nat | i < |nodes| && Live(nodes[i]) }

  /** The reachable leader, if there is one. */
  predicate HasLeader(s: Shard)
  {
    s.leaderId.Some? && s.leaderId.value < |s.nodes| && Live(s.nodes[s.leaderId.value])
  }

  // ----- writes

  function NewEntry(s: Shard, command: Command, key: Bytes, value: Option<Bytes>): LogEntry
    requires HasLeader(s)
  {
    var leader := s.nodes[s.leaderId.value];
    LogEntry(leader.term, |leader.log| + 1, command, key, value)
  }

  /** A put without a value, or with an empty one, is committed but not applied. */
  predicate Applies(e: LogEntry)
  {
    e.command == Delete || (e.value.Some? && e.value.value != [])
  }

  function Committed(s: Shard): bool { LiveCount(s.nodes, |s.nodes|) >= Majority(|s.nodes|) }

  /** What a write does to one node: live nodes append, and on a quorum also commit and apply. */
  function Receive(n: Node, e: LogEntry, committed: bool): Node
  {
    if !Live(n) then n
    else
      var appended := n.(log := n.log + [e]);
      if !committed then appended
      else appended.(commitIndex := e.index, lastApplied := e.index,
                     applied := if Applies(e) then n.applied + [e] else n.applied)
  }

  lemma ReceiveKeepsLive(n: Node, e: LogEntry, committed: bool)
    ensures Live(Receive(n, e, committed)) == Live(n) && (!Live(n) ==> Receive(n, e, committed) == n)
  {}

  function ReceiveAll(nodes: seq<Node>, e: LogEntry, committed: bool): (r: seq<Node>)
    ensures |r| == |nodes| && forall i :: 0 <= i < |nodes| ==> r[i] == Receive(nodes[i], e, committed)
  {
    seq(|nodes|, i requires 0 <= i < |nodes| => Receive(nodes[i], e, committed))
  }

  function Write(s: Shard, command: Command, key: Bytes, value: Option<Bytes>): Shard
  {
    if HasLeader(s) then s.(nodes := ReceiveAll(s.nodes, NewEntry(s, command, key, value), Committed(s))) else s
  }

  // ----- elections

  function FirstLive(nodes: seq<Node>): (r: nat)
    ensures r <= |nodes|
    ensures r < |nodes| ==> Live(nodes[r])
    ensures forall i :: 0 <= i < r ==> !Live(nodes[i])
  {
    if nodes == [] then 0 else if Live(nodes[0]) then 0 else 1 + FirstLive(nodes[1..])
  }

  function Elect(n: Node, i: nat, winner: nat, term: nat): Node
  {
    if i == winner then n.(role := Leader, term := term, votedFor := Some(winner))
    else if Live(n) then n.(role := Follower, term := term)
    else n
  }

  function ElectAll(nodes: seq<Node>, winner: nat, term: nat): (r: seq<Node>)
    ensures |r| == |nodes| && forall i :: 0 <= i < |nodes| ==> r[i] == Elect(nodes[i], i, winner, term)
  {
    seq(|nodes|, i requires 0 <= i < |nodes| => Elect(nodes[i], i, winner, term))
  }

  /** One heartbeat: with no reachable leader, the first of two or more live nodes takes over. */
  function Tick(s: Shard): Shard
  {
    if HasLeader(s) || LiveCount(s.nodes, |s.nodes|) < 2 then s
    else
      var c := FirstLive(s.nodes);
      if c == |s.nodes| then s
      else Shard(Some(c), ElectAll(s.nodes, c, s.nodes[c].term + 1))
  }

  predicate Elects(s: Shard) { !HasLeader(s) && LiveCount(s.nodes, |s.nodes|) >= 2 }

  // ----- faults

  function ToggleHealth(s: Shard, i: nat): Shard
  {
    if i >= |s.nodes| then s
    else
      var n := s.nodes[i].(healthy := !s.nodes[i].healthy);
      Shard(if !n.healthy && s.leaderId == Some(i) then None else s.leaderId, s.nodes[i := n])
  }

  function TogglePartition(s: Shard, i: nat): Shard
  {
    if i >= |s.nodes| then s
    else
      var n := s.nodes[i].(partitioned := !s.nodes[i].partitioned);
      Shard(if n.partitioned && s.leaderId == Some(i) then None else s.leaderId, s.nodes[i := n])
  }

  // ----- runs

  datatype Op =
    | Query(command: Command, key: Bytes, value: Option<Bytes>)
    | Heartbeat
    | Health(i: nat)
    | Partition(i: nat)

  function Apply(s: Shard, op: Op): Shard
  {
    match op
    case Query(c, k, v) => Write(s, c, k, v)
    case Heartbeat => Tick(s)
    case Health(i) => ToggleHealth(s, i)
    case Partition(i) => TogglePartition(s, i)
  }

  /** The entry that the operation reports as successfully written. */
  function Acknowledged(s: Shard, op: Op): Option<LogEntry>
  {
    if op.Query? && HasLeader(s) && Committed(s) then Some(NewEntry(s, op.command, op.key, op.value)) else None
  }

  /** The texts "cluster:init", "OK", "sys:epoch" and "1". */
  const CLUSTER_INIT: Bytes := [99, 108, 117, 115, 116, 101, 114, 58, 105, 110, 105, 116]
  const OK: Bytes := [79, 75]
  const SYS_EPOCH: Bytes := [115, 121, 115, 58, 101, 112, 111, 99, 104]
  const FIRST: Bytes := [49]

  function InitLog(term: nat): seq<LogEntry>
  {
    [LogEntry(1, 1, Put, CLUSTER_INIT, Some(OK)), LogEntry(term, 2, Put, SYS_EPOCH, Some(FIRST))]
  }

  function InitNode(id: nat, role: Role, term: nat): Node
  {
    Node(role, term, if role == Follower then None else Some(id), 2, 2, InitLog(term), [], true, false)
  }

  function InitNodes(n: nat, term: nat): (r: seq<Node>)
    ensures |r| == n && forall i :: 0 <= i < n ==> r[i] == InitNode(i, if i == 0 then Leader else Follower, term)
  {
    seq(n, i requires 0 <= i < n => InitNode(i, if i == 0 then Leader else Follower, term))
  }

  /** createNode and initCluster: n live replicas, the first of them leader. */
  function Init(n: nat, term: nat): Shard { Shard(Some(0), InitNodes(n, term)) }

  /** The shard after the operations, and the entries acknowledged on the way. */
  function Run(start: Shard, ops: seq<Op>): (Shard, seq<LogEntry>)
  {
    if ops == [] then (start, [])
    else
      var (s, acked) := Run(start, ops[..|ops| - 1]);
      var op := ops[|ops| - 1];
      var a := Acknowledged(s, op);
      (Apply(s, op), if a.Some? then acked + [a.value] else acked)
  }

  lemma CountLive(nodes: seq<Node>, k: nat)
    requires k <= |nodes|
    ensures LiveCount(nodes, k) ==
            if k == 0 then 0 else LiveCount(nodes, k - 1) + if Live(nodes[k - 1]) then 1 else 0
  {}

  lemma LiveBelow(nodes: seq<Node>, k: nat)
    requires 0 < k <= |nodes|
    ensures var a, b := (set i: nat | i < k && Live(nodes[i])), (set i: nat | i < k - 1 && Live(nodes[i]));
      |a| == |b| + if Live(nodes[k - 1]) then 1 else 0
  {
    hide Live;
    var a, b := (set i: nat | i < k && Live(nodes[i])), (set i: nat | i < k - 1 && Live(nodes[i]));
    assert a == b + if Live(nodes[k - 1]) then {k - 1} else {};
  }

  lemma {:induction false} LiveCountIsSize(nodes: seq<Node>, k: nat)
    requires k <= |nodes|
    ensures LiveCount(nodes, k) == |set i: nat | i < k && Live(nodes[i])|
  {
    if k > 0 {
      LiveCountIsSize(nodes, k - 1);
      LiveBelow(nodes, k);
    }
  }

  /** The operation brings node i back, from a failure or from a partition. */
  predicate Returns(s: Shard, op: Op, i: nat)
  {
    && i < |s.nodes|
    && ((op == Health(i) && !s.nodes[i].healthy && !s.nodes[i].partitioned)
        || (op == Partition(i) && s.nodes[i].healthy && s.nodes[i].partitioned))
  }

  // ----- acknowledged writes, in every run: faults and rejoins at any time

  function Holders(nodes: seq<Node>, e: LogEntry): set<nat> { set i: nat | i < |nodes| && e in nodes[i].log }

  /** Logs only grow. */
  lemma LogsGrow(s: Shard, op: Op)
    ensures |Apply(s, op).nodes| == |s.nodes|
    ensures forall i :: 0 <= i < |s.nodes| ==> s.nodes[i].log <= Apply(s, op).nodes[i].log
  {
    hide LiveCount;
  }

  lemma HoldersGrow(s: Shard, op: Op, e: LogEntry)
    ensures Holders(s.nodes, e) <= Holders(Apply(s, op).nodes, e)
  {
    LogsGrow(s, op);
    hide Apply;
    var t := Apply(s, op);
    forall i | i in Holders(s.nodes, e) ensures i in Holders(t.nodes, e) {
      assert s.nodes[i].log <= t.nodes[i].log;
      var j :| 0 <= j < |s.nodes[i].log| && s.nodes[i].log[j] == e;
      assert t.nodes[i].log[j] == e;
    }
  }

  lemma AckedOnMajority(s: Shard, op: Op)
    requires Acknowledged(s, op).Some?
    ensures var e := Acknowledged(s, op).value;
      |Holders(Apply(s, op).nodes, e)| >= Majority(|s.nodes|)
  {
    var e, t := Acknowledged(s, op).value, Apply(s, op);
    LiveCountIsSize(s.nodes, |s.nodes|);
    assert (set i: nat | i < |s.nodes| && Live(s.nodes[i])) == LiveSet(s.nodes);
    forall i | i in LiveSet(s.nodes) ensures i in Holders(t.nodes, e) {
      assert t.nodes[i].log == s.nodes[i].log + [e];
    }
    SubsetCount(LiveSet(s.nodes), Holders(t.nodes, e));
  }

  lemma {:induction false} RunSize(start: Shard, ops: seq<Op>)
    ensures |Run(start, ops).0.nodes| == |start.nodes|
    decreases |ops|
  {
    hide Apply, Acknowledged;
    if ops != [] {
      RunSize(start, ops[..|ops| - 1]);
      LogsGrow(Run(start, ops[..|ops| - 1]).0, ops[|ops| - 1]);
    }
  }

  /** In every run of queries, elections, failures and rejoins, each write reported successful stays in
      the logs of a majority of the shard's nodes. */
  lemma {:induction false} AckedStaysOnMajority(start: Shard, ops: seq<Op>, e: LogEntry)
    requires e in Run(start, ops).1
    ensures |Holders(Run(start, ops).0.nodes, e)| >= Majority(|start.nodes|)
    decreases |ops|
  {
    hide Apply, Acknowledged, Holders;
    var front, op := ops[..|ops| - 1], ops[|ops| - 1];
    var (s, acked) := Run(start, front);
    RunSize(start, front);
    if Acknowledged(s, op) == Some(e) {
      AckedOnMajority(s, op);
    } else {
      AckedStaysOnMajority(start, front, e);
      HoldersGrow(s, op, e);
      SubsetCount(Holders(s.nodes, e), Holders(Apply(s, op).nodes, e));
    }
  }

  /** So any later majority contains a node that holds it. */
  lemma MajorityRemembers(start: Shard, ops: seq<Op>, e: LogEntry, majority: set<nat>)
    requires e in Run(start, ops).1
    requires majority <= Members(|start.nodes|) && |majority| >= Majority(|start.nodes|)
    ensures exists i :: i in majority && i < |Run(start, ops).0.nodes| && e in Run(start, ops).0.nodes[i].log
  {
    hide Run;
    AckedStaysOnMajority(start, ops, e);
    RunSize(start, ops);
    MajoritiesMeet(|start.nodes|, majority, Holders(Run(start, ops).0.nodes, e));
  }

  // ----- agreement, as long as failed nodes stay away

  predicate SameReplica(a: Node, b: Node)
  {
    a.log == b.log && a.term == b.term && a.commitIndex == b.commitIndex && a.lastApplied == b.lastApplied
    && a.applied == b.applied
  }

  /** Every live node holds the same log, indexed by position, and has got equally far with it. */
  predicate Agreement(s: Shard)
  {
    && (forall i, j :: 0 <= i < |s.nodes| && 0 <= j < |s.nodes| && Live(s.nodes[i]) && Live(s.nodes[j]) ==>
          SameReplica(s.nodes[i], s.nodes[j]))
    && (forall i, p :: 0 <= i < |s.nodes| && Live(s.nodes[i]) && 0 <= p < |s.nodes[i].log| ==>
          s.nodes[i].log[p].index == p + 1)
    && (forall i :: 0 <= i < |s.nodes| && Live(s.nodes[i]) ==> s.nodes[i].commitIndex <= |s.nodes[i].log|)
  }

  predicate InEveryLiveLog(s: Shard, e: LogEntry)
  {
    forall i :: 0 <= i < |s.nodes| && Live(s.nodes[i]) ==> e in s.nodes[i].log
  }

  /** The operation brings no node back. */
  predicate FailStop(s: Shard, op: Op)
  {
    match op
    case Health(i) => i < |s.nodes| ==> s.nodes[i].healthy
    case Partition(i) => i < |s.nodes| ==> !s.nodes[i].partitioned
    case _ => true
  }

  lemma WriteAgrees(s: Shard, command: Command, key: Bytes, value: Option<Bytes>)
    requires Agreement(s)
    ensures Agreement(Write(s, command, key, value))
  {
    hide LiveCount;
  }

  lemma FaultsAgree(s: Shard, op: Op)
    requires Agreement(s) && FailStop(s, op) && (op.Health? || op.Partition?)
    ensures Agreement(Apply(s, op))
    ensures forall e :: InEveryLiveLog(s, e) ==> InEveryLiveLog(Apply(s, op), e)
  {}

  lemma {:induction false} SomeoneLive(nodes: seq<Node>, k: nat)
    requires k <= |nodes| && LiveCount(nodes, k) > 0
    ensures exists i :: 0 <= i < k && Live(nodes[i])
  {
    if !Live(nodes[k - 1]) {
      SomeoneLive(nodes, k - 1);
    }
  }

  /** An election gives the shard a live leader whose term is above that of every live node. */
  lemma TickElects(s: Shard)
    requires Agreement(s) && Elects(s)
    ensures HasLeader(Tick(s))
    ensures forall i, j :: 0 <= i < |s.nodes| && 0 <= j < |s.nodes| && Live(s.nodes[i]) && Live(s.nodes[j]) ==>
              Tick(s).nodes[i].term > s.nodes[j].term
  {
    SomeoneLive(s.nodes, |s.nodes|);
    hide LiveCount;
    var c := FirstLive(s.nodes);
    forall j | 0 <= j < |s.nodes| && Live(s.nodes[j]) ensures s.nodes[j].term == s.nodes[c].term {
      assert SameReplica(s.nodes[c], s.nodes[j]);
    }
  }

  /** An election's term is above every term in the shard exactly when the first live node, which is the
      candidate, has not missed a term. */
  lemma FreshTermExact(s: Shard)
    requires Elects(s)
    ensures var c := FirstLive(s.nodes);
      c < |s.nodes| &&
      ((forall i :: 0 <= i < |s.nodes| ==> s.nodes[i].term < Tick(s).nodes[c].term) <==>
       (forall i :: 0 <= i < |s.nodes| ==> s.nodes[i].term <= s.nodes[c].term))
  {
    SomeoneLive(s.nodes, |s.nodes|);
    hide LiveCount;
    var c := FirstLive(s.nodes);
    assert Tick(s).nodes[c].term == s.nodes[c].term + 1;
    hide Tick;
  }

  lemma ElectAllAgrees(s: Shard, c: nat)
    requires Agreement(s) && c < |s.nodes| && Live(s.nodes[c])
    ensures Agreement(Shard(Some(c), ElectAll(s.nodes, c, s.nodes[c].term + 1)))
  {}

  lemma TickAgrees(s: Shard)
    requires Agreement(s)
    ensures Agreement(Tick(s))
    ensures forall e :: InEveryLiveLog(s, e) ==> InEveryLiveLog(Tick(s), e)
  {
    hide LiveCount;
    if Elects(s) && FirstLive(s.nodes) < |s.nodes| {
      ElectAllAgrees(s, FirstLive(s.nodes));
      hide Agreement;
    }
  }

  lemma ApplyAgrees(s: Shard, op: Op)
    requires Agreement(s) && FailStop(s, op)
    ensures Agreement(Apply(s, op))
    ensures forall e :: InEveryLiveLog(s, e) ==> InEveryLiveLog(Apply(s, op), e)
    ensures Acknowledged(s, op).Some? ==> InEveryLiveLog(Apply(s, op), Acknowledged(s, op).value)
  {
    match op {
      case Query(c, k, v) =>
        WriteAgrees(s, c, k, v);
        hide LiveCount, Agreement;
      case Heartbeat =>
        TickAgrees(s);
      case _ =>
        FaultsAgree(s, op);
    }
  }

  /** A live node that holds itself to be leader is the one the shard sends its writes to. */
  predicate OneLeader(s: Shard)
  {
    forall i :: 0 <= i < |s.nodes| && Live(s.nodes[i]) && s.nodes[i].role == Leader ==> s.leaderId == Some(i)
  }

  /** A node returns that still holds itself to be leader, while the shard's leader is another or none. */
  predicate BringsBackOldLeader(s: Shard, op: Op)
  {
    (op.Health? || op.Partition?) && Returns(s, op, op.i) && s.nodes[op.i].role == Leader && s.leaderId != Some(op.i)
  }

  /** An operation keeps the shard at one live leader exactly when it brings back no old one. */
  lemma OneLeaderExact(s: Shard, op: Op)
    requires OneLeader(s)
    ensures OneLeader(Apply(s, op)) <==> !BringsBackOldLeader(s, op)
  {
    hide LiveCount;
    if BringsBackOldLeader(s, op) {
      var t := Apply(s, op);
      assert Live(t.nodes[op.i]) && t.nodes[op.i].role == Leader;
    }
  }

  lemma RunPrefix(start: Shard, ops: seq<Op>, n: nat)
    requires n < |ops|
    ensures Run(start, ops[..n + 1]).0 == Apply(Run(start, ops[..n]).0, ops[n])
  {
    hide Apply;
    assert ops[..n + 1][..n] == ops[..n];
  }

  /** An operation keeps p exactly when it meets the guard g. */
  ghost predicate GuardExact(p: Shard -> bool, g: (Shard, Op) -> bool)
  {
    forall s, op :: p(s) ==> (p(Apply(s, op)) <==> g(s, op))
  }

  /** Then p holds throughout a run exactly when every operation of the run meets g. */
  lemma GuardedRuns(p: Shard -> bool, g: (Shard, Op) -> bool, start: Shard, ops: seq<Op>)
    requires GuardExact(p, g) && p(start)
    ensures (forall n :: 0 <= n <= |ops| ==> p(Run(start, ops[..n]).0)) <==>
            (forall i :: 0 <= i < |ops| ==> g(Run(start, ops[..i]).0, ops[i]))
  {
    hide Apply, Run;
    if forall i :: 0 <= i < |ops| ==> g(Run(start, ops[..i]).0, ops[i]) {
      forall n | 0 <= n <= |ops| ensures p(Run(start, ops[..n]).0) {
        GuardedPrefix(p, g, start, ops, n);
      }
    } else {
      var i :| 0 <= i < |ops| && !g(Run(start, ops[..i]).0, ops[i]);
      RunPrefix(start, ops, i);
      assert !p(Run(start, ops[..i]).0) || !p(Run(start, ops[..i + 1]).0);
    }
  }

  lemma {:induction false} GuardedPrefix(p: Shard -> bool, g: (Shard, Op) -> bool, start: Shard, ops: seq<Op>, n: nat)
    requires GuardExact(p, g) && p(start) && n <= |ops|
    requires forall i :: 0 <= i < n ==> g(Run(start, ops[..i]).0, ops[i])
    ensures p(Run(start, ops[..n]).0)
    decreases n
  {
    hide Apply;
    if n > 0 {
      GuardedPrefix(p, g, start, ops, n - 1);
      RunPrefix(start, ops, n - 1);
    }
  }

  /** So a run never has two live leaders exactly when none of its operations brings one back. */
  lemma OneLeaderRuns(start: Shard, ops: seq<Op>)
    requires OneLeader(start)
    ensures (forall n :: 0 <= n <= |ops| ==> OneLeader(Run(start, ops[..n]).0)) <==>
            (forall i :: 0 <= i < |ops| ==> !BringsBackOldLeader(Run(start, ops[..i]).0, ops[i]))
  {
    hide Apply, OneLeader, BringsBackOldLeader, Run;
    var g := (s: Shard, op: Op) => !BringsBackOldLeader(s, op);
    forall s, op | OneLeader(s) ensures OneLeader(Apply(s, op)) <==> g(s, op) {
      OneLeaderExact(s, op);
    }
    GuardedRuns(OneLeader, g, start, ops);
  }

  // ----- leaders of one term

  predicate Leads(n: Node) { Live(n) && n.role == Leader }

  /** Election safety: no two live nodes lead in one term. */
  predicate LeadersDiffer(s: Shard)
  {
    forall i, j :: 0 <= i < |s.nodes| && 0 <= j < |s.nodes| && Leads(s.nodes[i]) && Leads(s.nodes[j]) && i != j ==>
      s.nodes[i].term != s.nodes[j].term
  }

  /** A node returns that still holds itself to be leader, in the term of a live leader. */
  predicate BringsBackRival(s: Shard, op: Op)
  {
    && (op.Health? || op.Partition?) && Returns(s, op, op.i) && s.nodes[op.i].role == Leader
    && exists j :: 0 <= j < |s.nodes| && Leads(s.nodes[j]) && s.nodes[j].term == s.nodes[op.i].term
  }

  /** Election safety is lost exactly when an operation brings back such a node. */
  lemma LeadersDifferExact(s: Shard, op: Op)
    requires LeadersDiffer(s)
    ensures LeadersDiffer(Apply(s, op)) <==> !BringsBackRival(s, op)
  {
    hide LiveCount;
    if BringsBackRival(s, op) {
      var j :| 0 <= j < |s.nodes| && Leads(s.nodes[j]) && s.nodes[j].term == s.nodes[op.i].term;
      var t := Apply(s, op);
      assert Leads(t.nodes[op.i]) && Leads(t.nodes[j]);
    }
  }

  /** So it holds throughout a run exactly when no operation of the run does, whoever fails and returns
      and however often. */
  lemma LeadersDifferRuns(start: Shard, ops: seq<Op>)
    requires LeadersDiffer(start)
    ensures (forall n :: 0 <= n <= |ops| ==> LeadersDiffer(Run(start, ops[..n]).0)) <==>
            (forall i :: 0 <= i < |ops| ==> !BringsBackRival(Run(start, ops[..i]).0, ops[i]))
  {
    hide Apply, LeadersDiffer, BringsBackRival, Run;
    var g := (s: Shard, op: Op) => !BringsBackRival(s, op);
    forall s, op | LeadersDiffer(s) ensures LeadersDiffer(Apply(s, op)) <==> g(s, op) {
      LeadersDifferExact(s, op);
    }
    GuardedRuns(LeadersDiffer, g, start, ops);
  }

  lemma ApplyKeepsOneLeader(s: Shard, op: Op)
    requires OneLeader(s) && FailStop(s, op)
    ensures OneLeader(Apply(s, op))
  {
    OneLeaderExact(s, op);
    hide Apply, OneLeader;
  }

  predicate FailStopRun(start: Shard, ops: seq<Op>)
  {
    ops == [] ||
    (FailStopRun(start, ops[..|ops| - 1]) && FailStop(Run(start, ops[..|ops| - 1]).0, ops[|ops| - 1]))
  }

  /** In every run where failed or partitioned nodes do not return, all live nodes agree, at most one of
      them is leader, and every acknowledged write is in every live log. */
  lemma {:induction false} FailStopAgreement(start: Shard, ops: seq<Op>)
    requires Agreement(start) && OneLeader(start) && FailStopRun(start, ops)
    ensures var (s, acked) := Run(start, ops);
      Agreement(s) && OneLeader(s) && forall e :: e in acked ==> InEveryLiveLog(s, e)
    decreases |ops|
  {
    hide Apply, Acknowledged, Agreement, OneLeader, InEveryLiveLog;
    if ops != [] {
      FailStopAgreement(start, ops[..|ops| - 1]);
      ApplyAgrees(Run(start, ops[..|ops| - 1]).0, ops[|ops| - 1]);
      ApplyKeepsOneLeader(Run(start, ops[..|ops| - 1]).0, ops[|ops| - 1]);
    }
  }

  /** The shard that initCluster sets up meets what the run theorems start from. */
  lemma InitAgrees(n: nat, term: nat)
    ensures Agreement(Init(n, term)) && OneLeader(Init(n, term)) && LeadersDiffer(Init(n, term))
  {}

  // ----- and not after a rejoin

  /** Nothing ever brings a lagging node's log up to date: while two nodes are both live, their logs
      stay as far apart in length as they were, whatever operation runs. */
  lemma NoCatchUp(s: Shard, op: Op, i: nat, j: nat)
    requires i < |s.nodes| && j < |s.nodes| && Live(s.nodes[i]) && Live(s.nodes[j])
    ensures |Apply(s, op).nodes[i].log| - |Apply(s, op).nodes[j].log| == |s.nodes[i].log| - |s.nodes[j].log|
  {
    hide LiveCount;
  }

  /** So agreement survives a node's return exactly when the node has missed nothing that the live
      nodes did meanwhile. */
  lemma RejoinExact(s: Shard, op: Op, i: nat, j: nat)
    requires Agreement(s) && Returns(s, op, i) && j < |s.nodes| && Live(s.nodes[j])
    ensures Agreement(Apply(s, op)) <==> SameReplica(s.nodes[i], s.nodes[j])
  {
    var t := Apply(s, op);
    assert i != j && t.nodes[j] == s.nodes[j];
    assert Live(t.nodes[i]) && SameReplica(t.nodes[i], s.nodes[i]);
  }

  /** The operation changes what the live nodes hold: a write that finds a leader, or an election. */
  predicate Advances(s: Shard, op: Op)
  {
    (op.Query? && HasLeader(s)) || (op.Heartbeat? && Elects(s))
  }

  predicate AnyAdvance(start: Shard, ops: seq<Op>)
  {
    ops != [] && (AnyAdvance(start, ops[..|ops| - 1]) || Advances(Run(start, ops[..|ops| - 1]).0, ops[|ops| - 1]))
  }

  function Extent(n: Node): nat { |n.log| + n.term }

  lemma AdvanceIsFelt(s: Shard, op: Op, j: nat)
    requires Agreement(s) && j < |s.nodes| && Live(s.nodes[j]) && FailStop(s, op)
    ensures j < |Apply(s, op).nodes|
    ensures Advances(s, op) ==> Extent(Apply(s, op).nodes[j]) > Extent(s.nodes[j])
    ensures !Advances(s, op) ==> SameReplica(Apply(s, op).nodes[j], s.nodes[j])
  {
    hide LiveCount, Agreement;
    if op.Heartbeat? {
      TickIsFelt(s, j);
      hide Tick, HasLeader;
    }
  }

  lemma TickIsFelt(s: Shard, j: nat)
    requires Agreement(s) && j < |s.nodes| && Live(s.nodes[j])
    ensures j < |Tick(s).nodes|
    ensures Elects(s) ==> Extent(Tick(s).nodes[j]) > Extent(s.nodes[j])
    ensures !Elects(s) ==> Tick(s) == s
  {
    if Elects(s) {
      TickElects(s);
    }
    hide LiveCount, Agreement;
  }

  lemma AwayIsUntouched(s: Shard, op: Op, i: nat)
    requires i < |s.nodes| && !Live(s.nodes[i]) && FailStop(s, op)
    ensures i < |Apply(s, op).nodes| && !Live(Apply(s, op).nodes[i])
    ensures SameReplica(Apply(s, op).nodes[i], s.nodes[i])
  {
    hide LiveCount;
  }

  /** What a fail-stop run leaves of a failed node i and a node j that is live at its end. */
  lemma {:induction false} WhileAway(start: Shard, ops: seq<Op>, i: nat, j: nat)
    requires Agreement(start) && i < |start.nodes| && j < |start.nodes| && !Live(start.nodes[i])
    requires FailStopRun(start, ops)
    requires var s := Run(start, ops).0; j < |s.nodes| && Live(s.nodes[j])
    ensures var s := Run(start, ops).0;
      && |s.nodes| == |start.nodes| && Agreement(s) && Live(start.nodes[j])
      && !Live(s.nodes[i]) && SameReplica(s.nodes[i], start.nodes[i])
      && (if AnyAdvance(start, ops) then Extent(s.nodes[j]) > Extent(start.nodes[j])
          else SameReplica(s.nodes[j], start.nodes[j]))
    decreases |ops|
  {
    hide Apply, Agreement, Advances, FailStop;
    RunSize(start, ops);
    if ops != [] {
      var s, op := Run(start, ops[..|ops| - 1]).0, ops[|ops| - 1];
      RunSize(start, ops[..|ops| - 1]);
      StaysDown(s, op, j);
      WhileAway(start, ops[..|ops| - 1], i, j);
      ApplyAgrees(s, op);
      AdvanceIsFelt(s, op, j);
      AwayIsUntouched(s, op, i);
    }
  }

  lemma StaysDown(s: Shard, op: Op, j: nat)
    requires j < |s.nodes| && FailStop(s, op)
    requires j < |Apply(s, op).nodes| && Live(Apply(s, op).nodes[j])
    ensures Live(s.nodes[j])
  {
    hide LiveCount;
  }

  /** A node that failed or was partitioned off while all live nodes agreed can return without breaking
      agreement exactly when no write found a leader and no election was held meanwhile. */
  lemma ReturnExact(s: Shard, leave: Op, ops: seq<Op>, back: Op, i: nat, j: nat)
    requires Agreement(s) && i < |s.nodes| && j < |s.nodes| && Live(s.nodes[i])
    requires leave == Health(i) || leave == Partition(i)
    requires FailStopRun(Apply(s, leave), ops)
    requires var t := Run(Apply(s, leave), ops).0; Returns(t, back, i) && j < |t.nodes| && Live(t.nodes[j])
    ensures var away := Apply(s, leave);
      Agreement(Apply(Run(away, ops).0, back)) <==> !AnyAdvance(away, ops)
  {
    var away := Apply(s, leave);
    FaultsAgree(s, leave);
    hide Run, AnyAdvance, FailStopRun, Agreement;
    WhileAway(away, ops, i, j);
    assert SameReplica(s.nodes[i], s.nodes[j]) by { LiveAgree(s, i, j); }
    RejoinExact(Run(away, ops).0, back, i, j);
  }

  lemma LiveAgree(s: Shard, i: nat, j: nat)
    requires Agreement(s) && i < |s.nodes| && j < |s.nodes| && Live(s.nodes[i]) && Live(s.nodes[j])
    ensures SameReplica(s.nodes[i], s.nodes[j])
  {}

  lemma TickOfThree(s: Shard)
    requires |s.nodes| == 3 && !HasLeader(s) && Live(s.nodes[2])
    requires Live(s.nodes[0]) != Live(s.nodes[1])
    ensures var c := if Live(s.nodes[0]) then 0 else 1;
      Tick(s) == Shard(Some(c), ElectAll(s.nodes, c, s.nodes[c].term + 1))
  {
    var nodes := s.nodes;
    assert LiveCount(nodes, 1) == if Live(nodes[0]) then 1 else 0;
    assert LiveCount(nodes, 2) == LiveCount(nodes, 1) + if Live(nodes[1]) then 1 else 0;
    assert LiveCount(nodes, 3) == 2;
  }

  lemma RunOfSix(start: Shard, ops: seq<Op>)
    requires |ops| == 6
    ensures Run(start, ops).0 ==
            Apply(Apply(Apply(Apply(Apply(Apply(start, ops[0]), ops[1]), ops[2]), ops[3]), ops[4]), ops[5])
  {
    hide Run, Apply;
    RunStart(start);
    assert ops[..0] == [] && ops[..6] == ops;
    RunPrefix(start, ops, 0);
    RunPrefix(start, ops, 1);
    RunPrefix(start, ops, 2);
    RunPrefix(start, ops, 3);
    RunPrefix(start, ops, 4);
    RunPrefix(start, ops, 5);
  }

  lemma RunStart(start: Shard)
    ensures Run(start, []).0 == start
  {}

  /** A returning node keeps the role and the term it failed with, so with rejoins an election need not
      raise the term past those already used: here the first two of three nodes end up both live, both
      leader, and both in the same term. */
  lemma LeadersShareTerm(term: nat)
    ensures var s := Run(Init(3, term), [Health(0), Heartbeat, Health(1), Health(0), Heartbeat, Health(1)]).0;
      && |s.nodes| == 3 && Live(s.nodes[0]) && Live(s.nodes[1])
      && s.nodes[0].role == s.nodes[1].role == Leader && s.nodes[0].term == s.nodes[1].term == term + 1
  {
    hide Run, Tick;
    var ops := [Health(0), Heartbeat, Health(1), Health(0), Heartbeat, Health(1)];
    var s0 := Init(3, term);
    var s1 := Apply(s0, Health(0));
    var s2 := Apply(s1, Heartbeat);
    TickOfThree(s1);
    var s3 := Apply(s2, Health(1));
    var s4 := Apply(s3, Health(0));
    var s5 := Apply(s4, Heartbeat);
    TickOfThree(s4);
    RunOfSix(s0, ops);
  }
}
