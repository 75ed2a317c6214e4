/** One node of go/pkg/raft/node.go as a machine over its atomic steps: every region under the node's
    lock, every channel operation, and every read or increment of a goroutine's counter. The remote
    procedure calls are the environment: their answers arrive in any order, at any time, or never. */
module RaftNode {
  import opened Bytes
  import opened Quorum
  import opened RaftLog

  datatype Role = Follower | Candidate | Leader

  datatype Peer = Peer(nextIndex: nat, matchIndex: nat)

  /** The fields of Node that its lock guards. */
  datatype Core = Core(self: nat, role: Role, term: nat, votedFor: Option<nat>, leaderId: Option<nat>,
                       log: seq<LogEntry>, commitIndex: nat, lastApplied: nat, peers: map<nat, Peer>, paused: bool)

  /** What the goroutines of one startElection share: the term asked for and the votes counted. The
      peers that were counted and those yet to answer are kept beside the counter. */
  datatype Election = Election(term: nat, votes: nat, counted: set<nat>, awaiting: set<nat>)

  /** How far one replicateAndCommit has come. */
  datatype Phase = Started | Waiting | Quorate | Committed | Sent | Succeeded | Failed

  datatype Replication = Replication(entry: LogEntry, acks: nat, acked: set<nat>, awaiting: set<nat>, phase: Phase)

  /** The node with its goroutines: the apply channel, the entry the apply worker has in hand, and the
      entries it has taken so far. */
  datatype State = State(core: Core, elections: seq<Election>, replications: seq<Replication>,
                         channel: seq<LogEntry>, inHand: Option<LogEntry>, applied: seq<LogEntry>)

  const CHANNEL_SIZE := 256

  function QuorumOf(c: Core): nat { Majority(|c.peers.Keys| + 1) }

  // ----- NewNode

  function NewCore(self: nat, n: nat): Core
  {
    Core(self, Follower, 0, None, None, [BASE], 0, 0, map p | p in Members(n) - {self} :: Peer(1, 0), false)
  }

  function NewState(self: nat, n: nat): State { State(NewCore(self, n), [], [], [], None, []) }

  // ----- elections

  function Lead(c: Core): (r: Core)
    requires c.log != []
    ensures r.peers.Keys == c.peers.Keys
  {
    c.(role := Leader, leaderId := Some(c.self), peers := map p | p in c.peers :: Peer(|c.log|, 0))
  }

  function Stand(c: Core): Core
  {
    c.(role := Candidate, term := c.term + 1, votedFor := Some(c.self), leaderId := None)
  }

  /** startElection: a node that is a quorum by itself leads at once, and asks nobody. */
  function StartElection(c: Core): (Core, Election)
    requires c.log != []
  {
    var stood := Stand(c);
    if 1 >= QuorumOf(c) then (Lead(stood), Election(stood.term, 1, {}, {}))
    else (stood, Election(stood.term, 1, {}, c.peers.Keys))
  }

  /** What the goroutine of one peer does with its answer. */
  function Tally(c: Core, e: Election, peer: nat, granted: bool): (Core, Election)
    requires c.log != []
  {
    var heard := e.(awaiting := e.awaiting - {peer});
    if granted && c.role == Candidate && c.term == e.term then
      var counted := heard.(votes := e.votes + 1, counted := e.counted + {peer});
      (if counted.votes >= QuorumOf(c) then Lead(c) else c, counted)
    else (c, heard)
  }

  // ----- proposals

  function NewEntry(c: Core, command: string, key: Bytes, value: Bytes): LogEntry
    requires c.log != []
  {
    LogEntry(c.term, |c.log|, command, key, value)
  }

  function Ack(r: Replication, peer: nat, success: bool): Replication
  {
    var heard := r.(awaiting := r.awaiting - {peer});
    if success then heard.(acks := r.acks + 1, acked := r.acked + {peer}) else heard
  }

  /** The two quorum tests: at once after sending, and again when every peer has answered. */
  function Check(r: Replication, quorum: nat): Replication
  {
    if r.phase == Started then r.(phase := if r.acks >= quorum then Quorate else Waiting)
    else if r.phase == Waiting && r.awaiting == {} then r.(phase := if r.acks >= quorum then Quorate else Failed)
    else r
  }

  function CommitTo(c: Core, index: nat): Core
  {
    if index > c.commitIndex then c.(commitIndex := index) else c
  }

  // ----- the machine

  datatype Step =
    | Timeout
    | VoteReply(e: nat, peer: nat, granted: bool)
    | Propose(command: string, key: Bytes, value: Bytes)
    | AckReply(r: nat, peer: nat, success: bool)
    | QuorumTest(r: nat)
    | AdvanceCommit(r: nat)
    | Send(r: nat)
    | Reply(r: nat)
    | Take
    | Record
    | Pause(on: bool)

  predicate Enabled(s: State, step: Step)
  {
    match step
    case Timeout => s.core.role != Leader && !s.core.paused && s.core.log != []
    case VoteReply(e, p, _) => e < |s.elections| && p in s.elections[e].awaiting && s.core.log != []
    case Propose(_, _, _) => s.core.role == Leader && s.core.log != []
    case AckReply(r, p, _) => r < |s.replications| && p in s.replications[r].awaiting
    case QuorumTest(r) => r < |s.replications|
    case AdvanceCommit(r) => r < |s.replications| && s.replications[r].phase == Quorate
    case Send(r) => r < |s.replications| && s.replications[r].phase == Committed && |s.channel| < CHANNEL_SIZE
    case Reply(r) => r < |s.replications| && s.replications[r].phase == Sent
    case Take => s.inHand.None? && s.channel != []
    case Record => s.inHand.Some?
    case Pause(_) => true
  }

  function Next(s: State, step: Step): State
    requires Enabled(s, step)
  {
    match step
    case Timeout =>
      var (c, e) := StartElection(s.core);
      s.(core := c, elections := s.elections + [e])
    case VoteReply(e, p, granted) =>
      var (c, counted) := Tally(s.core, s.elections[e], p, granted);
      s.(core := c, elections := s.elections[e := counted])
    case Propose(command, key, value) =>
      var entry := NewEntry(s.core, command, key, value);
      s.(core := s.core.(log := s.core.log + [entry]),
         replications := s.replications + [Replication(entry, 1, {}, s.core.peers.Keys, Started)])
    case AckReply(r, p, success) => s.(replications := s.replications[r := Ack(s.replications[r], p, success)])
    case QuorumTest(r) => s.(replications := s.replications[r := Check(s.replications[r], QuorumOf(s.core))])
    case AdvanceCommit(r) =>
      s.(core := CommitTo(s.core, s.replications[r].entry.index),
         replications := s.replications[r := s.replications[r].(phase := Committed)])
    case Send(r) =>
      s.(channel := s.channel + [s.replications[r].entry],
         replications := s.replications[r := s.replications[r].(phase := Sent)])
    case Reply(r) => s.(replications := s.replications[r := s.replications[r].(phase := Succeeded)])
    case Take => s.(inHand := Some(s.channel[0]), channel := s.channel[1..], applied := s.applied + [s.channel[0]])
    case Record => s.(core := s.core.(lastApplied := s.inHand.value.index), inHand := None)
    case Pause(on) => s.(core := s.core.(paused := on))
  }

  /** A step that is not possible changes nothing. */
  function Do(s: State, step: Step): State { if Enabled(s, step) then Next(s, step) else s }

  function Run(s: State, steps: seq<Step>): State
  {
    if steps == [] then s else Do(Run(s, steps[..|steps| - 1]), steps[|steps| - 1])
  }

  lemma {:induction false} RunConcat(s: State, a: seq<Step>, b: seq<Step>)
    ensures Run(s, a + b) == Run(Run(s, a), b)
    decreases |b|
  {
    hide Do;
    if b == [] {
      assert a + b == a;
    } else {
      RunConcat(s, a, b[..|b| - 1]);
      assert (a + b)[..|a + b| - 1] == a + b[..|b| - 1];
    }
  }

  // ----- the invariant

  predicate CoreInv(c: Core)
  {
    && Indexed(c.log)
    && (forall i :: 0 <= i < |c.log| ==> c.log[i].term <= c.term)
    && c.commitIndex < |c.log| && c.lastApplied <= c.commitIndex
    && c.self !in c.peers
    && (c.term > 0 ==> c.votedFor == Some(c.self))
  }

  /** Votes and acknowledgements are counted once per peer, beside the node's own. */
  predicate Tallied(count: nat, counted: set<nat>, awaiting: set<nat>, peers: set<nat>)
  {
    count == 1 + |counted| && counted <= peers && awaiting <= peers && counted !! awaiting
  }

  /** Elections are numbered by their terms; only the last can be the current one, and the node leads
      exactly when that one has a quorum. */
  predicate ElectionsInv(c: Core, es: seq<Election>)
  {
    && c.term == |es|
    && (forall k :: 0 <= k < |es| ==>
          es[k].term == k + 1 && Tallied(es[k].votes, es[k].counted, es[k].awaiting, c.peers.Keys))
    && (c.role == Follower <==> es == [])
    && (es != [] ==> (c.role == Leader <==> es[|es| - 1].votes >= QuorumOf(c)))
  }

  predicate Past(p: Phase, q: Phase) { Rank(p) >= Rank(q) }

  function Rank(p: Phase): int
  {
    match p
    case Failed => -1
    case Started => 0
    case Waiting => 1
    case Quorate => 2
    case Committed => 3
    case Sent => 4
    case Succeeded => 5
  }

  predicate ReplicationInv(c: Core, r: Replication, index: nat)
  {
    && index < |c.log| && r.entry == c.log[index]
    && Tallied(r.acks, r.acked, r.awaiting, c.peers.Keys)
    && (Past(r.phase, Quorate) ==> r.acks >= QuorumOf(c))
    && (Past(r.phase, Committed) ==> index <= c.commitIndex)
    && (r.phase == Failed ==> r.acks < QuorumOf(c) && r.awaiting == {})
  }

  /** Every entry but the base has one replication; the entry at the commit index got through. */
  predicate ReplicationsInv(c: Core, rs: seq<Replication>)
  {
    && |c.log| == |rs| + 1
    && (forall k :: 0 <= k < |rs| ==> ReplicationInv(c, rs[k], k + 1))
    && (0 < c.commitIndex <= |rs| ==> Past(rs[c.commitIndex - 1].phase, Committed))
  }

  predicate Delivered(rs: seq<Replication>, e: LogEntry)
  {
    0 < e.index <= |rs| && rs[e.index - 1].entry == e && Past(rs[e.index - 1].phase, Sent)
  }

  /** What was taken and what is in the apply channel together hold exactly the entries that were sent, each once. */
  predicate PipelineInv(rs: seq<Replication>, pipe: seq<LogEntry>)
  {
    && (forall i :: 0 <= i < |pipe| ==> Delivered(rs, pipe[i]))
    && (forall i, j :: 0 <= i < j < |pipe| ==> pipe[i].index != pipe[j].index)
    && (forall k :: 0 <= k < |rs| && Past(rs[k].phase, Sent) ==> rs[k].entry in pipe)
  }

  predicate WorkerInv(lastApplied: nat, channel: seq<LogEntry>, inHand: Option<LogEntry>, applied: seq<LogEntry>)
  {
    && |channel| <= CHANNEL_SIZE
    && (inHand.Some? ==> applied != [] && inHand.value == applied[|applied| - 1])
    && (lastApplied > 0 ==> exists i :: 0 <= i < |applied| && applied[i].index == lastApplied)
  }

  predicate Inv(s: State)
  {
    && CoreInv(s.core) && ElectionsInv(s.core, s.elections) && ReplicationsInv(s.core, s.replications)
    && PipelineInv(s.replications, s.applied + s.channel)
    && WorkerInv(s.core.lastApplied, s.channel, s.inHand, s.applied)
  }

  // ----- every step keeps it

  lemma NewKeepsInv(self: nat, n: nat)
    ensures Inv(NewState(self, n))
  {}

  /** Counting one more answer of a peer that was still awaited. */
  lemma TallyOne(count: nat, counted: set<nat>, awaiting: set<nat>, peers: set<nat>, p: nat)
    requires Tallied(count, counted, awaiting, peers) && p in awaiting
    ensures Tallied(count, counted, awaiting - {p}, peers)
    ensures Tallied(count + 1, counted + {p}, awaiting - {p}, peers)
  {}

  lemma ReplicationsFrame(c: Core, d: Core, rs: seq<Replication>)
    requires ReplicationsInv(c, rs)
    requires d.log == c.log && d.commitIndex == c.commitIndex && d.peers.Keys == c.peers.Keys
    ensures ReplicationsInv(d, rs)
  {
    hide Tallied;
  }

  /** One replication moves on without being sent. */
  lemma UpdateOne(c: Core, rs: seq<Replication>, pipe: seq<LogEntry>, r: nat, moved: Replication)
    requires ReplicationsInv(c, rs) && PipelineInv(rs, pipe) && r < |rs|
    requires ReplicationInv(c, moved, r + 1) && moved.entry == rs[r].entry
    requires Past(moved.phase, Committed) == Past(rs[r].phase, Committed)
    requires Past(moved.phase, Sent) == Past(rs[r].phase, Sent)
    ensures ReplicationsInv(c, rs[r := moved]) && PipelineInv(rs[r := moved], pipe)
  {
    UpdatePipeline(rs, pipe, r, moved);
    hide ReplicationInv, PipelineInv;
  }

  lemma UpdatePipeline(rs: seq<Replication>, pipe: seq<LogEntry>, r: nat, moved: Replication)
    requires PipelineInv(rs, pipe) && r < |rs| && moved.entry == rs[r].entry
    requires Past(moved.phase, Sent) == Past(rs[r].phase, Sent)
    ensures PipelineInv(rs[r := moved], pipe)
  {
    hide Past;
    var us := rs[r := moved];
    forall i | 0 <= i < |pipe| ensures Delivered(us, pipe[i]) {
      assert Delivered(rs, pipe[i]);
    }
  }

  lemma TimeoutKeepsInv(s: State)
    requires Inv(s) && Enabled(s, Timeout)
    ensures Inv(Next(s, Timeout))
  {
    ReplicationsFrame(s.core, Next(s, Timeout).core, s.replications);
    hide Indexed, PipelineInv, WorkerInv, ReplicationsInv;
  }

  lemma VoteKeepsInv(s: State, e: nat, p: nat, granted: bool)
    requires Inv(s) && Enabled(s, VoteReply(e, p, granted))
    ensures Inv(Next(s, VoteReply(e, p, granted)))
  {
    TallyKeepsCore(s.core, s.elections[e], p, granted);
    TallyKeepsElections(s.core, s.elections, e, p, granted);
    hide CoreInv, PipelineInv, WorkerInv, ReplicationsInv, ElectionsInv, Tally;
    ReplicationsFrame(s.core, Next(s, VoteReply(e, p, granted)).core, s.replications);
  }

  lemma TallyKeepsCore(c: Core, e: Election, p: nat, granted: bool)
    requires CoreInv(c)
    ensures var d := Tally(c, e, p, granted).0;
      CoreInv(d) && d.log == c.log && d.commitIndex == c.commitIndex && d.lastApplied == c.lastApplied
      && d.peers.Keys == c.peers.Keys
  {
    hide Indexed, QuorumOf;
  }

  lemma TallyKeepsElections(c: Core, es: seq<Election>, e: nat, p: nat, granted: bool)
    requires c.log != [] && ElectionsInv(c, es) && e < |es| && p in es[e].awaiting
    ensures var (d, counted) := Tally(c, es[e], p, granted); ElectionsInv(d, es[e := counted])
  {
    TallyOne(es[e].votes, es[e].counted, es[e].awaiting, c.peers.Keys, p);
    hide Tallied;
  }

  lemma ProposeKeepsInv(s: State, command: string, key: Bytes, value: Bytes)
    requires Inv(s) && Enabled(s, Propose(command, key, value))
    ensures Inv(Next(s, Propose(command, key, value)))
  {
    AppendKeepsIndexed(s.core.log, NewEntry(s.core, command, key, value));
    hide Indexed, WorkerInv, ElectionsInv, ReplicationsInv, PipelineInv;
    var e := NewEntry(s.core, command, key, value);
    ProposeReplications(s.core, s.replications, s.applied + s.channel,
                        Replication(e, 1, {}, s.core.peers.Keys, Started));
  }

  lemma ProposeReplications(c: Core, rs: seq<Replication>, pipe: seq<LogEntry>, r: Replication)
    requires ReplicationsInv(c, rs) && PipelineInv(rs, pipe) && c.commitIndex < |c.log|
    requires r == Replication(r.entry, 1, {}, c.peers.Keys, Started)
    ensures ReplicationsInv(c.(log := c.log + [r.entry]), rs + [r]) && PipelineInv(rs + [r], pipe)
  {
    var d, us := c.(log := c.log + [r.entry]), rs + [r];
    forall k | 0 <= k < |us| ensures ReplicationInv(d, us[k], k + 1) {
      assert k < |rs| ==> ReplicationInv(c, rs[k], k + 1);
    }
    forall i | 0 <= i < |pipe| ensures Delivered(us, pipe[i]) {
      assert Delivered(rs, pipe[i]);
    }
  }

  lemma AckKeepsInv(s: State, r: nat, p: nat, success: bool)
    requires Inv(s) && Enabled(s, AckReply(r, p, success))
    ensures Inv(Next(s, AckReply(r, p, success)))
  {
    var rep := s.replications[r];
    TallyOne(rep.acks, rep.acked, rep.awaiting, s.core.peers.Keys, p);
    assert ReplicationInv(s.core, rep, r + 1);
    UpdateOne(s.core, s.replications, s.applied + s.channel, r, Ack(rep, p, success));
    hide CoreInv, WorkerInv, ElectionsInv, ReplicationsInv, PipelineInv;
  }

  lemma CheckKeepsInv(c: Core, r: Replication, index: nat)
    requires ReplicationInv(c, r, index)
    ensures var moved := Check(r, QuorumOf(c));
      && ReplicationInv(c, moved, index) && moved.entry == r.entry
      && Past(moved.phase, Committed) == Past(r.phase, Committed) && Past(moved.phase, Sent) == Past(r.phase, Sent)
  {
    hide Tallied;
  }

  lemma QuorumTestKeepsInv(s: State, r: nat)
    requires Inv(s) && Enabled(s, QuorumTest(r))
    ensures Inv(Next(s, QuorumTest(r)))
  {
    var rep := s.replications[r];
    CheckKeepsInv(s.core, rep, r + 1);
    hide Check, Past;
    UpdateOne(s.core, s.replications, s.applied + s.channel, r, Check(rep, QuorumOf(s.core)));
    hide CoreInv, WorkerInv, ElectionsInv, ReplicationsInv, PipelineInv, ReplicationInv;
  }

  lemma ReplyKeepsInv(s: State, r: nat)
    requires Inv(s) && Enabled(s, Reply(r))
    ensures Inv(Next(s, Reply(r)))
  {
    var rep := s.replications[r];
    assert ReplicationInv(s.core, rep, r + 1);
    UpdateOne(s.core, s.replications, s.applied + s.channel, r, rep.(phase := Succeeded));
    hide CoreInv, WorkerInv, ElectionsInv, ReplicationsInv, PipelineInv, ReplicationInv;
  }

  lemma AdvanceReplications(c: Core, rs: seq<Replication>, r: nat, moved: Replication)
    requires ReplicationsInv(c, rs) && r < |rs| && moved == rs[r].(phase := Committed) && rs[r].phase == Quorate
    ensures ReplicationsInv(CommitTo(c, r + 1), rs[r := moved])
  {
    hide Tallied;
    var d, us := CommitTo(c, r + 1), rs[r := moved];
    forall k | 0 <= k < |us| ensures ReplicationInv(d, us[k], k + 1) {
      assert ReplicationInv(c, rs[k], k + 1);
    }
  }

  lemma AdvanceKeepsInv(s: State, r: nat)
    requires Inv(s) && Enabled(s, AdvanceCommit(r))
    ensures Inv(Next(s, AdvanceCommit(r)))
  {
    var moved := s.replications[r].(phase := Committed);
    EntryAt(s, r);
    hide WorkerInv, PipelineInv, Tallied, ReplicationsInv, CoreInv, ElectionsInv;
    UpdatePipeline(s.replications, s.applied + s.channel, r, moved);
    AdvanceReplications(s.core, s.replications, r, moved);
    CommitKeepsCore(s.core, s.elections, r + 1);
  }

  lemma CommitKeepsCore(c: Core, es: seq<Election>, index: nat)
    requires CoreInv(c) && ElectionsInv(c, es) && index < |c.log|
    ensures CoreInv(CommitTo(c, index)) && ElectionsInv(CommitTo(c, index), es)
    ensures CommitTo(c, index).lastApplied == c.lastApplied
  {
    hide Indexed, Tallied;
  }

  lemma SendKeepsInv(s: State, r: nat)
    requires Inv(s) && Enabled(s, Send(r))
    ensures Inv(Next(s, Send(r)))
  {
    hide CoreInv, ElectionsInv, PipelineInv, Tallied, Indexed;
    var moved, pipe := s.replications[r].(phase := Sent), s.applied + s.channel;
    EntryAt(s, r);
    SendGrowsPipeline(s.replications, pipe, r, moved);
    SendReplications(s.core, s.replications, r);
    hide ReplicationsInv;
    assert s.applied + Next(s, Send(r)).channel == pipe + [moved.entry];
  }

  lemma EntryAt(s: State, r: nat)
    requires Inv(s) && r < |s.replications|
    ensures ReplicationInv(s.core, s.replications[r], r + 1) && s.replications[r].entry.index == r + 1
  {
    hide ElectionsInv, PipelineInv, WorkerInv, Tallied;
  }

  lemma SendReplications(c: Core, rs: seq<Replication>, r: nat)
    requires ReplicationsInv(c, rs) && r < |rs| && rs[r].phase == Committed
    ensures ReplicationsInv(c, rs[r := rs[r].(phase := Sent)])
  {
    hide Tallied;
  }

  lemma SendGrowsPipeline(rs: seq<Replication>, pipe: seq<LogEntry>, r: nat, moved: Replication)
    requires PipelineInv(rs, pipe) && r < |rs| && moved.entry == rs[r].entry && moved.entry.index == r + 1
    requires Past(moved.phase, Sent) && !Past(rs[r].phase, Sent)
    ensures PipelineInv(rs[r := moved], pipe + [moved.entry])
  {
    hide Past;
    var us, grown := rs[r := moved], pipe + [moved.entry];
    forall i | 0 <= i < |pipe| ensures Delivered(us, pipe[i]) && pipe[i].index != r + 1 {
      assert Delivered(rs, pipe[i]);
    }
    forall k | 0 <= k < |us| && Past(us[k].phase, Sent) ensures us[k].entry in grown {
      if k == r {
        assert grown[|pipe|] == moved.entry;
      } else {
        var i :| 0 <= i < |pipe| && pipe[i] == rs[k].entry;
        assert grown[i] == us[k].entry;
      }
    }
  }

  lemma TakeKeepsInv(s: State)
    requires Inv(s) && Enabled(s, Take)
    ensures Inv(Next(s, Take))
  {
    hide CoreInv, ReplicationsInv, ElectionsInv, PipelineInv;
    var t := Next(s, Take);
    assert t.applied + t.channel == s.applied + s.channel;
    if t.core.lastApplied > 0 {
      var i :| 0 <= i < |s.applied| && s.applied[i].index == s.core.lastApplied;
      assert t.applied[i].index == t.core.lastApplied;
    }
  }

  lemma RecordKeepsInv(s: State)
    requires Inv(s) && Enabled(s, Record)
    ensures Inv(Next(s, Record))
  {
    hide Indexed, Tallied;
    var t, last := Next(s, Record), |s.applied| - 1;
    assert Delivered(s.replications, (s.applied + s.channel)[last]);
    assert ReplicationInv(s.core, s.replications[s.applied[last].index - 1], s.applied[last].index);
    ReplicationsFrame(s.core, t.core, s.replications);
    assert WorkerInv(t.core.lastApplied, t.channel, t.inHand, t.applied) by {
      assert t.applied[last].index == t.core.lastApplied;
    }
    hide ReplicationsInv, PipelineInv, WorkerInv;
  }

  lemma PauseKeepsInv(s: State, on: bool)
    requires Inv(s)
    ensures Inv(Next(s, Pause(on)))
  {
    ReplicationsFrame(s.core, Next(s, Pause(on)).core, s.replications);
    hide Indexed, ReplicationsInv, PipelineInv, WorkerInv, Tallied;
  }

  lemma NextKeepsInv(s: State, step: Step)
    requires Inv(s) && Enabled(s, step)
    ensures Inv(Next(s, step))
  {
    hide Inv, Next;
    match step {
      case Timeout => TimeoutKeepsInv(s);
      case VoteReply(e, p, g) => VoteKeepsInv(s, e, p, g);
      case Propose(c, k, v) => ProposeKeepsInv(s, c, k, v);
      case AckReply(r, p, g) => AckKeepsInv(s, r, p, g);
      case Send(r) => SendKeepsInv(s, r);
      case QuorumTest(r) => QuorumTestKeepsInv(s, r);
      case AdvanceCommit(r) => AdvanceKeepsInv(s, r);
      case Reply(r) => ReplyKeepsInv(s, r);
      case Take => TakeKeepsInv(s);
      case Record => RecordKeepsInv(s);
      case Pause(on) => PauseKeepsInv(s, on);
    }
  }

  lemma DoKeepsInv(s: State, step: Step)
    requires Inv(s)
    ensures Inv(Do(s, step))
  {
    hide Inv, Next, Enabled;
    if Enabled(s, step) {
      NextKeepsInv(s, step);
    }
  }

  /** The invariant holds over every interleaving of elections, proposals, acknowledgements, commits
      and applies. */
  lemma {:induction false} RunsKeepInv(s: State, steps: seq<Step>)
    requires Inv(s)
    ensures Inv(Run(s, steps))
    decreases |steps|
  {
    hide Inv, Do;
    if steps != [] {
      var before, step := Run(s, steps[..|steps| - 1]), steps[|steps| - 1];
      RunsKeepInv(s, steps[..|steps| - 1]);
      DoKeepsInv(before, step);
    }
  }

  // ----- what the invariant says of a run

  lemma StepKeepsPeers(s: State, step: Step)
    ensures Do(s, step).core.peers.Keys == s.core.peers.Keys && Do(s, step).core.self == s.core.self
  {}

  lemma {:induction false} RunKeepsPeers(s: State, steps: seq<Step>)
    ensures Run(s, steps).core.peers.Keys == s.core.peers.Keys && Run(s, steps).core.self == s.core.self
    decreases |steps|
  {
    if steps != [] {
      RunKeepsPeers(s, steps[..|steps| - 1]);
      StepKeepsPeers(Run(s, steps[..|steps| - 1]), steps[|steps| - 1]);
      hide Do;
    }
  }

  predicate OnceIn(e: LogEntry, pipe: seq<LogEntry>)
  {
    e in pipe && forall i, j :: 0 <= i < |pipe| && 0 <= j < |pipe| && pipe[i] == e && pipe[j] == e ==> i == j
  }

  /** A proposal that was answered with success is in the log at its index, at or below the commit
      index, acknowledged by a majority with the node itself, and taken by the apply worker exactly once,
      now or from the apply channel. One that was answered with an error lacked that majority, and is
      never taken. */
  predicate Answered(s: State, k: nat, self: nat, members: set<nat>)
    requires k < |s.replications|
  {
    var r := s.replications[k];
    && k + 1 < |s.core.log| && s.core.log[k + 1] == r.entry && r.entry.index == k + 1
    && (r.phase == Succeeded ==>
          && r.entry.index <= s.core.commitIndex
          && |r.acked + {self}| >= Majority(|members|) && r.acked + {self} <= members
          && OnceIn(r.entry, s.applied + s.channel))
    && (r.phase == Failed ==> |r.acked + {self}| < Majority(|members|) && r.entry !in s.applied + s.channel)
  }

  lemma AnswerIsTrue(s: State, k: nat)
    requires Inv(s) && k < |s.replications|
    ensures Answered(s, k, s.core.self, s.core.peers.Keys + {s.core.self})
  {
    EntryAt(s, k);
    TakenOnce(s, k);
    hide CoreInv, WorkerInv, ElectionsInv, ReplicationsInv, PipelineInv, OnceIn;
  }

  /** An entry is in the pipeline, once, exactly when it was sent. */
  lemma TakenOnce(s: State, k: nat)
    requires Inv(s) && k < |s.replications|
    ensures var r := s.replications[k];
      if Past(r.phase, Sent) then OnceIn(r.entry, s.applied + s.channel) else r.entry !in s.applied + s.channel
  {
    EntryAt(s, k);
    hide CoreInv, WorkerInv, ElectionsInv, ReplicationsInv, Past;
    var r, pipe := s.replications[k], s.applied + s.channel;
    if r.entry in pipe {
      var i :| 0 <= i < |pipe| && pipe[i] == r.entry;
      assert Delivered(s.replications, pipe[i]);
    }
  }

  /** In every run of a node among n members, its answers to proposals are true. */
  lemma RepliesAreTrue(self: nat, n: nat, steps: seq<Step>, k: nat)
    requires self < n && k < |Run(NewState(self, n), steps).replications|
    ensures Answered(Run(NewState(self, n), steps), k, self, Members(n))
  {
    var start := NewState(self, n);
    NewKeepsInv(self, n);
    RunsKeepInv(start, steps);
    RunKeepsPeers(start, steps);
    PeersOf(self, n);
    hide Run, Inv, NewCore, Answered;
    AnswerIsTrue(Run(start, steps), k);
    assert Members(n) - {self} + {self} == Members(n);
  }

  lemma PeersOf(self: nat, n: nat)
    requires self < n
    ensures NewCore(self, n).peers.Keys == Members(n) - {self} && |NewCore(self, n).peers.Keys| == n - 1
  {
    assert NewCore(self, n).peers.Keys == Members(n) - {self};
  }

  lemma LeaderHasMajority(s: State, self: nat, n: nat)
    requires Inv(s) && self < n && s.core.peers.Keys == Members(n) - {self} && s.core.role == Leader
    ensures s.elections != []
    ensures var e := s.elections[|s.elections| - 1];
      e.term == s.core.term && |e.counted + {self}| >= Majority(n) && e.counted + {self} <= Members(n)
  {
    hide Members, CoreInv, ElectionsInv, ReplicationsInv, PipelineInv, WorkerInv, Tallied, Majority;
    LastElection(s.core, s.elections);
    WithSelf(s.core.peers.Keys, self, n);
    CountedWithSelf(s.elections[|s.elections| - 1], s.core.peers.Keys, self);
  }

  lemma WithSelf(peers: set<nat>, self: nat, n: nat)
    requires self < n && peers == Members(n) - {self}
    ensures peers + {self} == Members(n) && |peers| + 1 == n && self !in peers
  {
    assert peers + {self} == Members(n);
  }

  lemma LastElection(c: Core, es: seq<Election>)
    requires ElectionsInv(c, es) && c.role == Leader
    ensures es != []
    ensures var e := es[|es| - 1];
      e.term == c.term && e.votes >= QuorumOf(c) && Tallied(e.votes, e.counted, e.awaiting, c.peers.Keys)
  {
    hide Tallied, QuorumOf;
  }

  lemma CountedWithSelf(e: Election, peers: set<nat>, self: nat)
    requires Tallied(e.votes, e.counted, e.awaiting, peers) && self !in peers
    ensures |e.counted + {self}| == e.votes && e.counted + {self} <= peers + {self}
  {
    assert self !in e.counted;
  }

  /** And it leads only in the term of an election in which a majority, with itself, was counted. */
  lemma LeaderWasElected(self: nat, n: nat, steps: seq<Step>)
    requires self < n && Run(NewState(self, n), steps).core.role == Leader
    ensures var s := Run(NewState(self, n), steps);
      && s.elections != []
      && var e := s.elections[|s.elections| - 1];
      e.term == s.core.term && |e.counted + {self}| >= Majority(n) && e.counted + {self} <= Members(n)
  {
    var start := NewState(self, n);
    NewKeepsInv(self, n);
    RunsKeepInv(start, steps);
    RunKeepsPeers(start, steps);
    PeersOf(self, n);
    hide Run, Inv, NewState;
    LeaderHasMajority(Run(start, steps), self, n);
  }

  /** The indices and terms a reader sees, in every run. */
  lemma LogIsOrdered(self: nat, n: nat, steps: seq<Step>)
    ensures var c := Run(NewState(self, n), steps).core;
      && (forall i :: 0 <= i < |c.log| ==> c.log[i].index == i && c.log[i].term <= c.term)
      && (forall i, j :: 0 <= i <= j < |c.log| ==> c.log[i].term <= c.log[j].term)
      && c.lastApplied <= c.commitIndex < |c.log|
  {
    NewKeepsInv(self, n);
    RunsKeepInv(NewState(self, n), steps);
    hide Run;
  }

  predicate Final(p: Phase) { p == Succeeded || p == Failed }

  /** Nothing is taken back: the log and what was applied only grow, the commit index and the term never
      fall, and an answer once given stays. */
  lemma StepIsMonotone(s: State, step: Step)
    requires Inv(s)
    ensures var t := Do(s, step);
      && s.core.log <= t.core.log && s.core.commitIndex <= t.core.commitIndex && s.core.term <= t.core.term
      && s.applied <= t.applied && |s.replications| <= |t.replications|
      && (forall k :: 0 <= k < |s.replications| && Final(s.replications[k].phase) ==>
            t.replications[k].phase == s.replications[k].phase)
      && (s.core.role == Leader ==> t.core.role == Leader && t.core.term == s.core.term)
  {
    hide ReplicationsInv, WorkerInv, PipelineInv, ElectionsInv;
  }

  // ----- failed writes and the commit index

  /** No write that was answered with an error lies at or below the commit index. */
  predicate NoneFailedBelow(s: State)
  {
    forall k :: 0 <= k < |s.replications| && s.replications[k].phase == Failed ==> s.core.commitIndex < k + 1
  }

  /** The guard of the two steps that can break it: a commit must not pass a failed write, and a write
      must not fail once the commit index has passed it. */
  predicate PassesNoFailure(s: State, step: Step)
    requires Enabled(s, step)
  {
    match step
    case AdvanceCommit(r) => forall k :: 0 <= k < r ==> s.replications[k].phase != Failed
    case QuorumTest(r) => Check(s.replications[r], QuorumOf(s.core)).phase == Failed ==> s.core.commitIndex < r + 1
    case _ => true
  }

  lemma NoneFailedExact(s: State, step: Step)
    requires Inv(s) && NoneFailedBelow(s) && Enabled(s, step)
    ensures NoneFailedBelow(Next(s, step)) <==> PassesNoFailure(s, step)
  {
    hide CoreInv, ElectionsInv, PipelineInv, WorkerInv, Tallied, Check, QuorumOf, StartElection, Tally;
    match step {
      case AdvanceCommit(r) => CommitPassesExact(s, r);
      case QuorumTest(r) => TestPassesExact(s, r);
      case Timeout => ElectionKeepsIndex(s.core);
      case VoteReply(e, p, g) => TallyKeepsIndex(s.core, s.elections[e], p, g);
      case Propose(c, k, v) =>
      case _ =>
    }
  }

  lemma ElectionKeepsIndex(c: Core)
    requires c.log != []
    ensures StartElection(c).0.commitIndex == c.commitIndex
  {}

  lemma TallyKeepsIndex(c: Core, e: Election, peer: nat, granted: bool)
    requires c.log != []
    ensures Tally(c, e, peer, granted).0.commitIndex == c.commitIndex
  {}

  lemma CommitPassesExact(s: State, r: nat)
    requires Inv(s) && NoneFailedBelow(s) && Enabled(s, AdvanceCommit(r))
    ensures NoneFailedBelow(Next(s, AdvanceCommit(r))) <==> forall k :: 0 <= k < r ==> s.replications[k].phase != Failed
  {
    hide ElectionsInv, PipelineInv, WorkerInv, Tallied;
    var t := Next(s, AdvanceCommit(r));
    assert ReplicationInv(s.core, s.replications[r], r + 1);
    if k :| 0 <= k < r && s.replications[k].phase == Failed {
      assert t.replications[k].phase == Failed && t.core.commitIndex >= r + 1;
    }
  }

  lemma TestPassesExact(s: State, r: nat)
    requires NoneFailedBelow(s) && r < |s.replications|
    ensures NoneFailedBelow(Next(s, QuorumTest(r))) <==>
            (Check(s.replications[r], QuorumOf(s.core)).phase == Failed ==> s.core.commitIndex < r + 1)
  {
    hide Check, QuorumOf;
    var t := Next(s, QuorumTest(r));
    assert t.replications[r] == Check(s.replications[r], QuorumOf(s.core));
  }

  // ----- from one step to whole runs

  /** From states that keep the invariant and p, a step keeps p exactly when it meets the guard g. */
  ghost predicate GuardExact(p: State -> bool, g: (State, Step) -> bool)
  {
    forall s, step :: Inv(s) && p(s) && Enabled(s, step) ==> (p(Next(s, step)) <==> g(s, step))
  }

  /** Then p holds throughout a run exactly when every step of the run meets g. */
  lemma GuardedRuns(p: State -> bool, g: (State, Step) -> bool, start: State, steps: seq<Step>)
    requires GuardExact(p, g) && Inv(start) && p(start)
    ensures (forall i :: 0 <= i <= |steps| ==> p(Run(start, steps[..i]))) <==>
            (forall i :: 0 <= i < |steps| && Enabled(Run(start, steps[..i]), steps[i]) ==>
               g(Run(start, steps[..i]), steps[i]))
  {
    hide Enabled, Next, Inv, Run, GuardExact;
    if forall i :: 0 <= i < |steps| && Enabled(Run(start, steps[..i]), steps[i]) ==>
        g(Run(start, steps[..i]), steps[i])
    {
      forall i | 0 <= i <= |steps| ensures p(Run(start, steps[..i])) {
        GuardedPrefix(p, g, start, steps, i);
      }
    } else {
      var i :| 0 <= i < |steps| && Enabled(Run(start, steps[..i]), steps[i]) && !g(Run(start, steps[..i]), steps[i]);
      RunsKeepInv(start, steps[..i]);
      RunPrefix(start, steps, i);
      GuardAt(p, g, Run(start, steps[..i]), steps[i]);
      assert !p(Run(start, steps[..i])) || !p(Run(start, steps[..i + 1]));
    }
  }

  lemma GuardAt(p: State -> bool, g: (State, Step) -> bool, s: State, step: Step)
    requires GuardExact(p, g)
    ensures Inv(s) && p(s) && Enabled(s, step) ==> (p(Next(s, step)) <==> g(s, step))
  {
    hide Inv, Enabled, Next;
  }

  lemma {:induction false} GuardedPrefix(p: State -> bool, g: (State, Step) -> bool,
                                         start: State, steps: seq<Step>, i: nat)
    requires GuardExact(p, g) && Inv(start) && p(start) && i <= |steps|
    requires forall j :: 0 <= j < i && Enabled(Run(start, steps[..j]), steps[j]) ==> g(Run(start, steps[..j]), steps[j])
    ensures p(Run(start, steps[..i]))
    decreases i
  {
    hide Enabled, Next, Inv, GuardExact;
    if i == 0 {
      assert steps[..0] == [];
    } else {
      hide Run;
      GuardedPrefix(p, g, start, steps, i - 1);
      RunsKeepInv(start, steps[..i - 1]);
      RunPrefix(start, steps, i - 1);
      GuardAt(p, g, Run(start, steps[..i - 1]), steps[i - 1]);
    }
  }

  lemma RunPrefix(start: State, steps: seq<Step>, i: nat)
    requires i < |steps|
    ensures Run(start, steps[..i + 1]) == Do(Run(start, steps[..i]), steps[i])
  {
    hide Do;
    assert steps[..i + 1][..i] == steps[..i];
  }

  /** A run never commits past a failed write exactly when each of its steps keeps to the guard. */
  lemma NoneFailedRuns(self: nat, n: nat, steps: seq<Step>)
    ensures (forall i :: 0 <= i <= |steps| ==> NoneFailedBelow(Run(NewState(self, n), steps[..i]))) <==>
            (forall i :: 0 <= i < |steps| && Enabled(Run(NewState(self, n), steps[..i]), steps[i]) ==>
               PassesNoFailure(Run(NewState(self, n), steps[..i]), steps[i]))
  {
    NewKeepsInv(self, n);
    NewNoneFailed(self, n);
    hide NoneFailedBelow, PassesNoFailure, Enabled, Next, Inv, Run, NewState;
    var g := (s: State, step: Step) => Enabled(s, step) ==> PassesNoFailure(s, step);
    forall s, step | Inv(s) && NoneFailedBelow(s) && Enabled(s, step)
      ensures NoneFailedBelow(Next(s, step)) <==> PassesNoFailure(s, step)
    {
      NoneFailedExact(s, step);
    }
    GuardedRuns(NoneFailedBelow, g, NewState(self, n), steps);
  }

  lemma NewNoneFailed(self: nat, n: nat)
    ensures NoneFailedBelow(NewState(self, n))
  {}

  // ----- the order of application

  predicate Ascending(pipe: seq<LogEntry>)
  {
    forall i, j :: 0 <= i < j < |pipe| ==> pipe[i].index < pipe[j].index
  }

  /** The indices in the pipeline are those of the replications that were sent. */
  lemma InPipeline(s: State, k: nat)
    requires Inv(s) && k < |s.replications|
    ensures Past(s.replications[k].phase, Sent) <==>
            exists i :: 0 <= i < |s.applied + s.channel| && (s.applied + s.channel)[i].index == k + 1
    ensures s.replications[k].entry.index == k + 1
  {
    hide ElectionsInv, WorkerInv, Past;
    var pipe := s.applied + s.channel;
    assert ReplicationInv(s.core, s.replications[k], k + 1);
    if Past(s.replications[k].phase, Sent) {
      var i :| 0 <= i < |pipe| && pipe[i] == s.replications[k].entry;
    }
    if i :| 0 <= i < |pipe| && pipe[i].index == k + 1 {
      assert Delivered(s.replications, pipe[i]);
    }
  }

  /** Sending keeps the apply channel in log order exactly when no later entry was sent before. */
  lemma SendInOrderExact(s: State, r: nat)
    requires Inv(s) && Enabled(s, Send(r)) && Ascending(s.applied + s.channel)
    ensures var t := Next(s, Send(r));
      Ascending(t.applied + t.channel) <==>
      forall k :: r < k < |s.replications| ==> !Past(s.replications[k].phase, Sent)
  {
    hide CoreInv, ElectionsInv, ReplicationsInv, WorkerInv, Tallied;
    var pipe, e, t := s.applied + s.channel, s.replications[r].entry, Next(s, Send(r));
    InPipeline(s, r);
    assert !Past(s.replications[r].phase, Sent);
    forall i | 0 <= i < |pipe| ensures 0 < pipe[i].index <= |s.replications| {
      assert Delivered(s.replications, pipe[i]);
    }
    hide Inv, Past;
    assert t.applied + t.channel == pipe + [e];
    AscendingAppend(pipe, e);
    if k :| r < k < |s.replications| && Past(s.replications[k].phase, Sent) {
      InPipeline(s, k);
    } else {
      forall i | 0 <= i < |pipe| ensures pipe[i].index < e.index {
        InPipeline(s, pipe[i].index - 1);
      }
    }
  }

  lemma AscendingAppend(pipe: seq<LogEntry>, e: LogEntry)
    requires Ascending(pipe)
    ensures Ascending(pipe + [e]) <==> forall i :: 0 <= i < |pipe| ==> pipe[i].index < e.index
  {
    var grown := pipe + [e];
    assert grown[|pipe|] == e;
    if Ascending(grown) {
      forall i | 0 <= i < |pipe| ensures pipe[i].index < e.index {
        assert grown[i] == pipe[i];
      }
    }
  }

  /** What was taken, and then what waits in the apply channel, is in log order. */
  predicate LogOrder(s: State) { Ascending(s.applied + s.channel) }

  /** The guard of the one step that can break it: a send must not follow that of a later entry. */
  predicate FollowsNoLater(s: State, step: Step)
    requires Enabled(s, step)
  {
    step.Send? ==> forall k :: step.r < k < |s.replications| ==> !Past(s.replications[k].phase, Sent)
  }

  lemma LogOrderExact(s: State, step: Step)
    requires Inv(s) && LogOrder(s) && Enabled(s, step)
    ensures LogOrder(Next(s, step)) <==> FollowsNoLater(s, step)
  {
    if step.Send? {
      SendInOrderExact(s, step.r);
      hide Inv, Past, Next, Ascending;
    } else {
      hide Inv, Ascending;
      OthersKeepPipeline(s, step);
    }
  }

  lemma OthersKeepPipeline(s: State, step: Step)
    requires Enabled(s, step) && !step.Send?
    ensures Next(s, step).applied + Next(s, step).channel == s.applied + s.channel
  {
    hide StartElection, Tally, Ack, Check;
  }

  /** In every run, entries are applied in log order throughout exactly when no entry is sent behind a
      later one. */
  lemma LogOrderRuns(self: nat, n: nat, steps: seq<Step>)
    ensures (forall i :: 0 <= i <= |steps| ==> LogOrder(Run(NewState(self, n), steps[..i]))) <==>
            (forall i :: 0 <= i < |steps| && Enabled(Run(NewState(self, n), steps[..i]), steps[i]) ==>
               FollowsNoLater(Run(NewState(self, n), steps[..i]), steps[i]))
  {
    NewKeepsInv(self, n);
    NewInOrder(self, n);
    hide LogOrder, FollowsNoLater, Enabled, Next, Inv, Run, NewState;
    var g := (s: State, step: Step) => Enabled(s, step) ==> FollowsNoLater(s, step);
    forall s, step | Inv(s) && LogOrder(s) && Enabled(s, step)
      ensures LogOrder(Next(s, step)) <==> FollowsNoLater(s, step)
    {
      LogOrderExact(s, step);
    }
    GuardedRuns(LogOrder, g, NewState(self, n), steps);
  }

  // ----- proposals one at a time

  predicate Settled(s: State) { forall k :: 0 <= k < |s.replications| ==> Final(s.replications[k].phase) }

  /** The client waits for the answer to one proposal before it makes the next. */
  predicate OneAtATime(s: State, steps: seq<Step>)
  {
    steps == [] ||
    (OneAtATime(s, steps[..|steps| - 1]) &&
     (steps[|steps| - 1].Propose? && Run(s, steps[..|steps| - 1]).core.role == Leader ==>
      Settled(Run(s, steps[..|steps| - 1]))))
  }

  /** All but the last proposal have been answered, and what was sent is in log order. */
  predicate InOrder(s: State)
  {
    && (forall k :: 0 <= k < |s.replications| - 1 ==> Final(s.replications[k].phase))
    && LogOrder(s)
  }

  lemma StepInOrder(s: State, step: Step)
    requires Inv(s) && InOrder(s) && (step.Propose? && s.core.role == Leader ==> Settled(s))
    ensures InOrder(Do(s, step))
    ensures s.core.lastApplied <= Do(s, step).core.lastApplied
  {
    AnswersStay(s, step);
    PipelineStaysInOrder(s, step);
    AppliedStaysInOrder(s, step);
    hide Do, Inv, LogOrder;
  }

  lemma AnswersStay(s: State, step: Step)
    requires step.Propose? && s.core.role == Leader ==> Settled(s)
    requires forall k :: 0 <= k < |s.replications| - 1 ==> Final(s.replications[k].phase)
    ensures forall k :: 0 <= k < |Do(s, step).replications| - 1 ==> Final(Do(s, step).replications[k].phase)
  {
    hide StartElection, Tally;
  }

  lemma PipelineStaysInOrder(s: State, step: Step)
    requires Inv(s) && InOrder(s)
    ensures LogOrder(Do(s, step))
  {
    if Enabled(s, step) {
      OnlyLastMoves(s, step);
      LogOrderExact(s, step);
    }
    hide Inv, LogOrder, Enabled, Next, FollowsNoLater;
  }

  /** Entries before the last were answered, so they are not sent again. */
  lemma OnlyLastMoves(s: State, step: Step)
    requires Inv(s) && InOrder(s) && Enabled(s, step)
    ensures FollowsNoLater(s, step)
  {
    hide Inv, LogOrder;
  }

  lemma AppliedStaysInOrder(s: State, step: Step)
    requires Inv(s) && InOrder(s)
    ensures s.core.lastApplied <= Do(s, step).core.lastApplied
  {
    if Enabled(s, step) && step.Record? {
      RecordInOrder(s);
    }
    hide Inv, InOrder, StartElection, Tally;
  }

  lemma RecordInOrder(s: State)
    requires Inv(s) && Ascending(s.applied + s.channel) && s.inHand.Some?
    ensures s.core.lastApplied <= s.inHand.value.index
  {
    hide CoreInv, ElectionsInv, ReplicationsInv, PipelineInv;
    var pipe := s.applied + s.channel;
    if s.core.lastApplied > 0 {
      var i :| 0 <= i < |s.applied| && s.applied[i].index == s.core.lastApplied;
      assert pipe[i] == s.applied[i] && pipe[|s.applied| - 1] == s.inHand.value;
    }
  }

  /** Then entries are applied in log order, in every run. */
  lemma {:induction false} OneAtATimeInOrder(self: nat, n: nat, steps: seq<Step>)
    requires OneAtATime(NewState(self, n), steps)
    ensures InOrder(Run(NewState(self, n), steps))
    decreases |steps|
  {
    hide Inv, Do, InOrder, Settled;
    var start := NewState(self, n);
    if steps == [] {
      NewInOrder(self, n);
    } else {
      OneAtATimeInOrder(self, n, steps[..|steps| - 1]);
      NewKeepsInv(self, n);
      RunsKeepInv(start, steps[..|steps| - 1]);
      StepInOrder(Run(start, steps[..|steps| - 1]), steps[|steps| - 1]);
    }
  }

  lemma NewInOrder(self: nat, n: nat)
    ensures InOrder(NewState(self, n)) && LogOrder(NewState(self, n))
  {}
}
