/** What each operation of the simulator (src/engine/clusterSimulator.ts) does to a shard, told by the fields
    of its nodes and by the fields of the queries, and what follows for runs. */
module ClusterLaws {
  import opened Bytes
  import opened Cluster

  predicate Reachable(n: Node) { n.healthy && !n.partitioned }

  function ReachableSet(nodes: seq<Node>): set<nat> { set i: nat | i < |nodes| && Reachable(nodes[i]) }

  /** The node that writes and reads go to. */
  predicate Led(s: Shard)
  {
    s.leaderId.Some? && s.leaderId.value < |s.nodes| && Reachable(s.nodes[s.leaderId.value])
  }

  // ----- the start

  predicate Spells(b: Bytes, s: string)
  {
    |b| == |s| && forall i :: 0 <= i < |s| ==> b[i] as int == s[i] as int
  }

  predicate Sets(e: LogEntry, term: nat, index: nat, key: string, value: string)
  {
    && e.term == term && e.index == index && e.command == Put && Spells(e.key, key)
    && e.value.Some? && Spells(e.value.value, value)
  }

  /** A shard starts with its first node as leader; every node can be reached, and has two entries, both
      counted as committed and applied: one of term 1 and one of the shard's term. */
  lemma InitialShard(n: nat, term: nat, j: nat)
    requires j < n
    ensures var s := Init(n, term); var x := s.nodes[j];
      && s.leaderId == Some(0) && |s.nodes| == n && Reachable(x)
      && x.role == (if j == 0 then Leader else Follower) && x.votedFor == (if j == 0 then Some(0) else None)
      && x.term == term && x.commitIndex == 2 && x.lastApplied == 2 && x.applied == []
      && |x.log| == 2 && Sets(x.log[0], 1, 1, "cluster:init", "OK") && Sets(x.log[1], term, 2, "sys:epoch", "1")
  {}

  // ----- queries

  lemma CountIsSet(nodes: seq<Node>)
    ensures LiveCount(nodes, |nodes|) == |ReachableSet(nodes)|
  {
    LiveCountIsSize(nodes, |nodes|);
    assert (set i: nat | i < |nodes| && Live(nodes[i])) == ReachableSet(nodes);
  }

  /** A write is acknowledged exactly when the shard's leader is reachable and so is a majority of its nodes. */
  predicate Answerable(s: Shard) { Led(s) && 2 * |ReachableSet(s.nodes)| > |s.nodes| }

  /** The acknowledged entry is the query's, in the leader's term, behind the end of the leader's log. */
  lemma AcknowledgedExact(s: Shard, op: Op)
    ensures var a := Acknowledged(s, op);
      && (a.Some? <==> op.Query? && Answerable(s))
      && (a.Some? ==>
            && a.value.command == op.command && a.value.key == op.key && a.value.value == op.value
            && a.value.term == s.nodes[s.leaderId.value].term
            && a.value.index == |s.nodes[s.leaderId.value].log| + 1)
  {
    CountIsSet(s.nodes);
    hide LiveCount;
  }

  /** The queries of a run that are answered with success, in order. */
  function AckedQueries(start: Shard, ops: seq<Op>): (r: seq<Op>)
    ensures forall i :: 0 <= i < |r| ==> r[i].Query?
  {
    if ops == [] then []
    else
      var op := ops[|ops| - 1];
      AckedQueries(start, ops[..|ops| - 1]) +
      (if op.Query? && Answerable(Run(start, ops[..|ops| - 1]).0) then [op] else [])
  }

  predicate Carries(e: LogEntry, q: Op)
  {
    q.Query? && e.command == q.command && e.key == q.key && e.value == q.value
  }

  /** The acknowledged entries are those queries, field by field. */
  lemma {:induction false} AckedAreQueries(start: Shard, ops: seq<Op>)
    ensures var acked, queries := Run(start, ops).1, AckedQueries(start, ops);
      |acked| == |queries| && forall i :: 0 <= i < |acked| ==> Carries(acked[i], queries[i])
    decreases |ops|
  {
    hide Answerable, Acknowledged, Apply, Carries;
    if ops != [] {
      var (s, acked) := Run(start, ops[..|ops| - 1]);
      var op := ops[|ops| - 1];
      AckedAreQueries(start, ops[..|ops| - 1]);
      AckedCarries(s, op);
    }
  }

  lemma AckedCarries(s: Shard, op: Op)
    ensures Acknowledged(s, op).Some? <==> op.Query? && Answerable(s)
    ensures Acknowledged(s, op).Some? ==> Carries(Acknowledged(s, op).value, op)
  {
    AcknowledgedExact(s, op);
    hide Answerable, Acknowledged;
  }

  /** What a write leaves of one node: nothing changes at an unreachable one; a reachable one appends the
      entry, and, if a majority is reachable, counts it as committed and applied, and hands it to its store
      unless it is a put without a value or with an empty one. */
  predicate Received(was: Node, now: Node, e: LogEntry, quorum: bool)
  {
    if !Reachable(was) then now == was
    else
      && now.log == was.log + [e]
      && now.commitIndex == (if quorum then e.index else was.commitIndex)
      && now.lastApplied == (if quorum then e.index else was.lastApplied)
      && now.applied ==
         was.applied + (if quorum && (e.command == Delete || e.value !in {None, Some([])}) then [e] else [])
      && now.role == was.role && now.term == was.term && now.votedFor == was.votedFor
      && now.healthy == was.healthy && now.partitioned == was.partitioned
  }

  /** A query reaches every node that way, and without a reachable leader changes nothing. */
  lemma QueryEffect(s: Shard, q: Op, j: nat)
    requires q.Query? && j < |s.nodes|
    ensures |Apply(s, q).nodes| == |s.nodes| && Apply(s, q).leaderId == s.leaderId
    ensures !Led(s) ==> Apply(s, q) == s
    ensures Led(s) ==>
              var leader := s.nodes[s.leaderId.value];
              var e := LogEntry(leader.term, |leader.log| + 1, q.command, q.key, q.value);
              Received(s.nodes[j], Apply(s, q).nodes[j], e, 2 * |ReachableSet(s.nodes)| > |s.nodes|)
  {
    CountIsSet(s.nodes);
    hide LiveCount;
  }

  // ----- elections

  /** The candidate: the first reachable node. */
  predicate IsFirst(nodes: seq<Node>, c: nat)
  {
    c < |nodes| && Reachable(nodes[c]) && forall i :: 0 <= i < c ==> !Reachable(nodes[i])
  }

  /** A heartbeat holds an election exactly when the shard's leader is not reachable and two nodes are. */
  predicate Electing(s: Shard) { !Led(s) && |ReachableSet(s.nodes)| >= 2 }

  /** Its first reachable node then leads in the term behind its own, and votes for itself; every other
      reachable node follows in that term; nothing else changes, and without an election nothing at all. */
  lemma HeartbeatEffect(s: Shard, c: nat, j: nat)
    requires IsFirst(s.nodes, c) && j < |s.nodes|
    ensures var t := Apply(s, Heartbeat);
      && |t.nodes| == |s.nodes|
      && (!Electing(s) ==> t == s)
      && (Electing(s) ==>
            && t.leaderId == Some(c)
            && t.nodes[j] ==
               if j == c then s.nodes[j].(role := Leader, term := s.nodes[c].term + 1, votedFor := Some(c))
               else if Reachable(s.nodes[j]) then s.nodes[j].(role := Follower, term := s.nodes[c].term + 1)
               else s.nodes[j])
  {
    CountIsSet(s.nodes);
    hide LiveCount;
    assert FirstLive(s.nodes) == c;
    hide FirstLive;
  }

  /** With no reachable node a heartbeat changes nothing. */
  lemma HeartbeatInVain(s: Shard)
    requires ReachableSet(s.nodes) == {}
    ensures Apply(s, Heartbeat) == s
  {
    CountIsSet(s.nodes);
    hide LiveCount;
  }

  // ----- failures and partitions

  /** The operation turns this node's switch so that it stands against it. */
  predicate TakesDown(s: Shard, op: Op, i: nat)
  {
    i < |s.nodes| && ((op == Health(i) && s.nodes[i].healthy) || (op == Partition(i) && !s.nodes[i].partitioned))
  }

  /** A switch turns at one node and nothing else about the nodes changes; an unknown number changes nothing. */
  lemma SwitchEffect(s: Shard, op: Op, j: nat)
    requires (op.Health? || op.Partition?) && j < |s.nodes|
    ensures var t := Apply(s, op);
      && |t.nodes| == |s.nodes|
      && t.nodes[j] ==
         (if j != op.i then s.nodes[j]
          else if op.Health? then s.nodes[j].(healthy := !s.nodes[j].healthy)
          else s.nodes[j].(partitioned := !s.nodes[j].partitioned))
      && (op.i >= |s.nodes| ==> t == s)
  {}

  /** An operation takes the shard's leader from it exactly when it fails the leader or partitions it off,
      and gives it another only in an election. */
  lemma LeaderLostExact(s: Shard, op: Op)
    ensures s.leaderId.Some? ==> (Apply(s, op).leaderId == None <==> TakesDown(s, op, s.leaderId.value))
    ensures Apply(s, op).leaderId !in {None, s.leaderId} ==> op.Heartbeat? && Electing(s)
  {
    CountIsSet(s.nodes);
    hide LiveCount;
  }

  /** The run holds an election. */
  predicate HoldsElection(start: Shard, ops: seq<Op>)
  {
    exists i :: 0 <= i < |ops| && ops[i].Heartbeat? && Electing(Run(start, ops[..i]).0)
  }

  /** After the leader has failed or was partitioned off, whatever fails and returns meanwhile, no write is
      acknowledged, and no log grows, before a heartbeat has held an election. */
  lemma NoWriteBeforeElection(s: Shard, op: Op, ops: seq<Op>)
    requires s.leaderId.Some? && TakesDown(s, op, s.leaderId.value)
    requires !HoldsElection(Apply(s, op), ops)
    ensures var (t, acked) := Run(Apply(s, op), ops);
      && t.leaderId == None && acked == [] && |t.nodes| == |s.nodes|
      && forall j :: 0 <= j < |s.nodes| ==> t.nodes[j].log == s.nodes[j].log && t.nodes[j].applied == s.nodes[j].applied
  {
    LeaderLostExact(s, op);
    forall j | 0 <= j < |s.nodes|
      ensures |Apply(s, op).nodes| == |s.nodes| && SameLog(Apply(s, op).nodes[j], s.nodes[j])
    {
      SwitchEffect(s, op, j);
    }
    hide Apply, TakesDown;
    Leaderless(Apply(s, op), ops);
    EmptyShard(s, op);
  }

  predicate SameLog(a: Node, b: Node) { a.log == b.log && a.applied == b.applied }

  lemma EmptyShard(s: Shard, op: Op)
    ensures |Apply(s, op).nodes| == |s.nodes|
  {}

  lemma {:induction false} Leaderless(s: Shard, ops: seq<Op>)
    requires s.leaderId == None && !HoldsElection(s, ops)
    ensures var (t, acked) := Run(s, ops);
      && t.leaderId == None && acked == [] && |t.nodes| == |s.nodes|
      && forall j :: 0 <= j < |s.nodes| ==> SameLog(t.nodes[j], s.nodes[j])
    decreases |ops|
  {
    hide Apply, Electing, Acknowledged, SameLog;
    if ops == [] {
      SameLogs(s);
    } else {
      var n := |ops| - 1;
      var front := ops[..n];
      forall i | 0 <= i < n ensures !(front[i].Heartbeat? && Electing(Run(s, front[..i]).0)) {
        assert front[..i] == ops[..i] && front[i] == ops[i];
      }
      Leaderless(s, front);
      LeaderlessStep(Run(s, front).0, ops[n]);
      forall j | 0 <= j < |s.nodes| ensures SameLog(Run(s, ops).0.nodes[j], s.nodes[j]) {
        SameLogTwice(Run(s, ops).0.nodes[j], Run(s, front).0.nodes[j], s.nodes[j]);
      }
    }
  }

  lemma SameLogs(s: Shard)
    ensures forall j :: 0 <= j < |s.nodes| ==> SameLog(s.nodes[j], s.nodes[j])
  {}

  lemma SameLogTwice(a: Node, b: Node, c: Node)
    requires SameLog(a, b) && SameLog(b, c)
    ensures SameLog(a, c)
  {}

  lemma LeaderlessStep(s: Shard, op: Op)
    requires s.leaderId == None && !(op.Heartbeat? && Electing(s))
    ensures Apply(s, op).leaderId == None && Acknowledged(s, op) == None && |Apply(s, op).nodes| == |s.nodes|
    ensures forall j :: 0 <= j < |s.nodes| ==> SameLog(Apply(s, op).nodes[j], s.nodes[j])
  {
    CountIsSet(s.nodes);
    hide LiveCount;
  }
}
