/** One shard of src/engine/clusterSimulator.ts as its methods update it in place; each is proved to
    take the step of the Cluster protocol. */
module ClusterSim {
  import opened Bytes
  import opened Quorum
  import Cluster

  class NodeState {
    const id: nat
    var role: Cluster.Role
    var currentTerm: nat
    var votedFor: Option<nat>
    var commitIndex: nat
    var lastApplied: nat
    var log: seq<Cluster.LogEntry>
    var applied: seq<Cluster.LogEntry>
    var isHealthy: bool
    var isPartitioned: bool

    function Value(): Cluster.Node
      reads this
    {
      Cluster.Node(role, currentTerm, votedFor, commitIndex, lastApplied, log, applied, isHealthy, isPartitioned)
    }

    predicate Live()
      reads this
    {
      isHealthy && !isPartitioned
    }

    /** createNode */
    constructor (id: nat, role: Cluster.Role, term: nat)
      ensures this.id == id
      ensures Value() == Cluster.InitNode(id, role, term)
    {
      this.id := id;
      this.role := role;
      currentTerm := term;
      votedFor := if role == Cluster.Leader || role == Cluster.Candidate then Some(id) else None;
      commitIndex := 2;
      lastApplied := 2;
      log := Cluster.InitLog(term);
      applied := [];
      isHealthy := true;
      isPartitioned := false;
    }
  }

  function Values(nodes: seq<NodeState>): (r: seq<Cluster.Node>)
    reads nodes
    ensures |r| == |nodes| && forall i :: 0 <= i < |nodes| ==> r[i] == nodes[i].Value()
  {
    if nodes == [] then [] else Values(nodes[..|nodes| - 1]) + [nodes[|nodes| - 1].Value()]
  }

  /** The nodes are different objects, named by their position. */
  predicate Named(nodes: seq<NodeState>)
  {
    forall i :: 0 <= i < |nodes| ==> nodes[i].id == i
  }

  /** The node has the entry but has not applied it; a leader has already committed it. */
  ghost predicate Pending(now: Cluster.Node, was: Cluster.Node, e: Cluster.LogEntry)
  {
    var appended := Cluster.Receive(was, e, false);
    now == appended || (Cluster.Live(appended) && now == appended.(commitIndex := e.index))
  }

  class ShardState {
    const nodes: seq<NodeState>
    var leaderId: Option<nat>

    function View(): Cluster.Shard
      reads this, nodes
    {
      Cluster.Shard(leaderId, Values(nodes))
    }

    /** initCluster, one shard: the first node leads. */
    constructor (n: nat, term: nat)
      ensures Named(nodes) && fresh(nodes)
      ensures View() == Cluster.Init(n, term)
    {
      var built: seq<NodeState> := [];
      for i := 0 to n
        invariant |built| == i && Named(built) && fresh(built)
        invariant forall k :: 0 <= k < i ==>
                  built[k].Value() == Cluster.InitNode(k, if k == 0 then Cluster.Leader else Cluster.Follower, term)
      {
        var node := new NodeState(i, if i == 0 then Cluster.Leader else Cluster.Follower, term);
        built := built + [node];
      }
      nodes := built;
      leaderId := Some(0);
    }

    /** The first node that carries the leader's id and is reachable. */
    method FindLeader() returns (leader: NodeState?)
      requires Named(nodes)
      ensures (leader != null) == Cluster.HasLeader(View())
      ensures leader != null ==> leader in nodes && leaderId == Some(leader.id) && leader.Live()
    {
      for i := 0 to |nodes|
        invariant leaderId.Some? && leaderId.value < i ==> !nodes[leaderId.value].Live()
      {
        if leaderId == Some(nodes[i].id) && nodes[i].Live() {
          return nodes[i];
        }
      }
      leader := null;
    }

    /** The write path of executeQuery. */
    method ExecuteWrite(command: Cluster.Command, key: Bytes, value: Option<Bytes>) returns (success: bool)
      requires Named(nodes)
      modifies nodes
      ensures View() == Cluster.Write(old(View()), command, key, value)
      ensures success == Cluster.Acknowledged(old(View()), Cluster.Query(command, key, value)).Some?
    {
      hide Values, Cluster.LiveCount, Cluster.Receive;
      ghost var s := View();
      var leader := FindLeader();
      if leader == null {
        return false;
      }
      var entry := Cluster.LogEntry(leader.currentTerm, |leader.log| + 1, command, key, value);
      assert entry == Cluster.NewEntry(s, command, key, value);
      var acks := Replicate(leader, entry, s);
      success := acks >= Majority(|nodes|);
      if success {
        Commit(leader, entry, s);
      }
    }

    /** The leader appends the entry and sends it to every reachable peer, each of which acknowledges it. */
    method Replicate(leader: NodeState, entry: Cluster.LogEntry, ghost s: Cluster.Shard) returns (acks: nat)
      requires Named(nodes) && leader in nodes && leader.Live() && s == View()
      modifies nodes
      ensures View().nodes == Cluster.ReceiveAll(s.nodes, entry, false) && leader.Live()
      ensures acks == Cluster.LiveCount(s.nodes, |nodes|)
    {
      hide Values, Cluster.Receive, Cluster.LiveCount, Cluster.ReceiveAll;
      Cluster.CountLive(s.nodes, 0);
      AppendTo(leader, entry);
      Cluster.ReceiveKeepsLive(s.nodes[leader.id], entry, false);
      acks := 1;
      for i := 0 to |nodes|
        invariant acks == Cluster.LiveCount(s.nodes, i) + if leader.id < i then 0 else 1
        invariant forall k :: 0 <= k < |nodes| ==>
                    nodes[k].Value() ==
                    if k < i || k == leader.id then Cluster.Receive(s.nodes[k], entry, false) else s.nodes[k]
      {
        Cluster.CountLive(s.nodes, i + 1);
        if nodes[i].id != leader.id {
          var acked := Deliver(nodes[i], entry);
          if acked {
            acks := acks + 1;
          }
        }
      }
    }

    /** A peer acknowledges exactly when it is reachable. */
    method Deliver(node: NodeState, entry: Cluster.LogEntry) returns (acked: bool)
      modifies node
      ensures acked == Cluster.Live(old(node.Value()))
      ensures node.Value() == Cluster.Receive(old(node.Value()), entry, false)
    {
      acked := node.Live();
      if acked {
        AppendTo(node, entry);
      }
    }

    method AppendTo(node: NodeState, entry: Cluster.LogEntry)
      requires node.Live()
      modifies node
      ensures node.Value() == Cluster.Receive(old(node.Value()), entry, false)
    {
      node.log := node.log + [entry];
    }

    /** The leader's commit index moves first; then every reachable node commits and applies. */
    method Commit(leader: NodeState, entry: Cluster.LogEntry, ghost s: Cluster.Shard)
      requires Named(nodes) && leader in nodes && leader.Live() && |s.nodes| == |nodes|
      requires View().nodes == Cluster.ReceiveAll(s.nodes, entry, false)
      modifies nodes
      ensures View().nodes == Cluster.ReceiveAll(s.nodes, entry, true)
    {
      hide Values, Cluster.Receive;
      leader.commitIndex := entry.index;
      for i := 0 to |nodes|
        invariant forall k :: 0 <= k < i ==> nodes[k].Value() == Cluster.Receive(s.nodes[k], entry, true)
        invariant forall k :: i <= k < |nodes| ==> Pending(nodes[k].Value(), s.nodes[k], entry)
      {
        CommitAt(nodes[i], entry, s.nodes[i]);
      }
    }

    method CommitAt(node: NodeState, entry: Cluster.LogEntry, ghost was: Cluster.Node)
      requires Pending(node.Value(), was, entry)
      modifies node
      ensures node.Value() == Cluster.Receive(was, entry, true)
    {
      if node.Live() {
        node.commitIndex := entry.index;
        node.lastApplied := entry.index;
        if entry.command == Cluster.Put && entry.value.Some? && entry.value.value != [] {
          node.applied := node.applied + [entry];
        } else if entry.command == Cluster.Delete {
          node.applied := node.applied + [entry];
        }
      }
    }

    method HealthyNodes() returns (healthy: seq<NodeState>)
      ensures |healthy| == Cluster.LiveCount(View().nodes, |nodes|)
      ensures forall x :: x in healthy <==> x in nodes && x.Live()
      ensures healthy == [] ==> Cluster.FirstLive(View().nodes) == |nodes|
      ensures healthy != [] ==> Cluster.FirstLive(View().nodes) < |nodes|
      ensures healthy != [] ==> healthy[0] == nodes[Cluster.FirstLive(View().nodes)]
    {
      hide Values, Cluster.FirstLive;
      healthy := [];
      ghost var live := Values(nodes);
      for i := 0 to |nodes|
        invariant |healthy| == Cluster.LiveCount(live, i)
        invariant forall x :: x in healthy <==> x in nodes[..i] && x.Live()
        invariant healthy == [] ==> forall k :: 0 <= k < i ==> !Cluster.Live(live[k])
        invariant healthy != [] ==> Cluster.FirstLive(live) < i && healthy[0] == nodes[Cluster.FirstLive(live)]
      {
        assert nodes[..i + 1] == nodes[..i] + [nodes[i]];
        if nodes[i].Live() {
          healthy := healthy + [nodes[i]];
        }
      }
      assert nodes[..|nodes|] == nodes;
    }

    /** The body that startHeartbeatLoop runs for each shard. */
    method HeartbeatTick()
      requires Named(nodes)
      modifies this, nodes
      ensures View() == Cluster.Tick(old(View()))
    {
      hide Values, Cluster.LiveCount, Cluster.FirstLive, Cluster.Elect;
      var healthy := HealthyNodes();
      var leader := FindLeader();
      if leader == null && |healthy| >= 2 {
        HoldElection(healthy, View());
      }
    }

    method Promote(node: NodeState)
      modifies node
      ensures node.Value() ==
              old(node.Value()).(role := Cluster.Leader, term := old(node.currentTerm) + 1, votedFor := Some(node.id))
    {
      node.role := Cluster.Candidate;
      node.currentTerm := node.currentTerm + 1;
      node.votedFor := Some(node.id);
      node.role := Cluster.Leader;
    }

    method Follow(node: NodeState, term: nat)
      modifies node
      ensures node.Value() == old(node.Value()).(role := Cluster.Follower, term := term)
    {
      node.role := Cluster.Follower;
      node.currentTerm := term;
    }

    method HoldElection(healthy: seq<NodeState>, ghost s: Cluster.Shard)
      requires Named(nodes) && s == View() && healthy != [] && healthy[0] in nodes
      requires forall x :: x in healthy ==> x in nodes
      requires forall k :: 0 <= k < |nodes| ==> (nodes[k] in healthy <==> Cluster.Live(s.nodes[k]))
      modifies this, nodes
      ensures var c := healthy[0].id;
        View() == Cluster.Shard(Some(c), Cluster.ElectAll(s.nodes, c, s.nodes[c].term + 1))
    {
      hide Values;
      var candidate := healthy[0];
      ghost var c, term := candidate.id, candidate.currentTerm + 1;
      Promote(candidate);
      leaderId := Some(candidate.id);
      for i := 0 to |healthy|
        invariant leaderId == Some(c) && candidate.currentTerm == term
        invariant forall k :: 0 <= k < |nodes| ==>
                    (nodes[k].Value() ==
                     if k == c || nodes[k] in healthy[..i] then Cluster.Elect(s.nodes[k], k, c, term) else s.nodes[k])
      {
        assert healthy[i] in healthy && healthy[..i + 1] == healthy[..i] + [healthy[i]];
        if healthy[i].id != candidate.id {
          Follow(healthy[i], candidate.currentTerm);
        }
      }
      assert healthy[..|healthy|] == healthy;
    }

    method FindNode(nodeId: nat) returns (node: NodeState?)
      requires Named(nodes)
      ensures node == if nodeId < |nodes| then nodes[nodeId] else null
    {
      for i := 0 to |nodes|
        invariant i <= nodeId
      {
        if nodes[i].id == nodeId {
          return nodes[i];
        }
      }
      node := null;
    }

    method ToggleNodeHealth(nodeId: nat)
      requires Named(nodes)
      modifies this, nodes
      ensures View() == Cluster.ToggleHealth(old(View()), nodeId)
    {
      hide Values;
      ghost var s := View();
      var node := FindNode(nodeId);
      if node != null {
        node.isHealthy := !node.isHealthy;
        if !node.isHealthy && leaderId == Some(nodeId) {
          leaderId := None;
        }
        assert Values(nodes) == Cluster.ToggleHealth(s, nodeId).nodes;
      }
    }

    method ToggleNodePartition(nodeId: nat)
      requires Named(nodes)
      modifies this, nodes
      ensures View() == Cluster.TogglePartition(old(View()), nodeId)
    {
      hide Values;
      ghost var s := View();
      var node := FindNode(nodeId);
      if node != null {
        node.isPartitioned := !node.isPartitioned;
        if node.isPartitioned && leaderId == Some(nodeId) {
          leaderId := None;
        }
        assert Values(nodes) == Cluster.TogglePartition(s, nodeId).nodes;
      }
    }
  }
}
