/** The Node object of go/pkg/raft/node.go, updated in place by the regions its lock guards; each is
    proved to take the step of the RaftNode machine. */
module RaftDriver {
  import opened Bytes
  import opened Quorum
  import opened RaftLog
  import N = RaftNode
  import opened RaftLaws

  class RaftPeer {
    var nextIndex: nat
    var matchIndex: nat

    constructor ()
      ensures nextIndex == 1 && matchIndex == 0
    {
      nextIndex, matchIndex := 1, 0;
    }

    function Value(): N.Peer
      reads this
    {
      N.Peer(nextIndex, matchIndex)
    }
  }

  /** What the goroutines of one election share. */
  class Ballot {
    const term: nat
    var votesGranted: nat
    ghost var counted: set<nat>
    ghost var awaiting: set<nat>

    ghost function Value(): N.Election
      reads this
    {
      N.Election(term, votesGranted, counted, awaiting)
    }

    constructor (term: nat, ghost asked: set<nat>)
      ensures Value() == N.Election(term, 1, {}, asked)
    {
      this.term := term;
      votesGranted := 1;
      counted, awaiting := {}, asked;
    }
  }

  function Trues(answers: seq<bool>): nat
  {
    if answers == [] then 0 else Trues(answers[..|answers| - 1]) + if answers[|answers| - 1] then 1 else 0
  }

  lemma {:induction false} TruesConcat(a: seq<bool>, b: seq<bool>)
    ensures Trues(a + b) == Trues(a) + Trues(b)
    decreases |b|
  {
    if b == [] {
      assert a + b == a;
    } else {
      TruesConcat(a, b[..|b| - 1]);
      assert (a + b)[..|a + b| - 1] == a + b[..|b| - 1];
    }
  }

  // ----- one goroutine of replicateAndCommit among the steps of the machine

  /** The answers of some peers to one replication, in order. */
  function Answers(r: nat, ps: seq<nat>, answers: seq<bool>): (steps: seq<N.Step>)
    requires |ps| == |answers|
    ensures |steps| == |ps|
  {
    if ps == [] then []
    else Answers(r, ps[..|ps| - 1], answers[..|ps| - 1]) + [N.AckReply(r, ps[|ps| - 1], answers[|ps| - 1])]
  }

  predicate Distinct(ps: seq<nat>) { forall i, j :: 0 <= i < j < |ps| ==> ps[i] != ps[j] }

  function Elements(ps: seq<nat>): set<nat> { set p | p in ps }

  /** From s to t, n acknowledgements of replication r were counted and these peers heard. */
  predicate Counted(s: N.State, t: N.State, r: nat, n: nat, heard: set<nat>)
    requires r < |s.replications|
  {
    var rep := s.replications[r];
    && r < |t.replications|
    && t == s.(replications := s.replications[r := t.replications[r]])
    && t.replications[r] == rep.(acks := rep.acks + n, acked := t.replications[r].acked,
                                 awaiting := rep.awaiting - heard)
  }

  lemma CountOne(s: N.State, t: N.State, r: nat, n: nat, heard: set<nat>, p: nat, success: bool)
    requires r < |s.replications| && Counted(s, t, r, n, heard) && p in s.replications[r].awaiting && p !in heard
    ensures Counted(s, N.Do(t, N.AckReply(r, p, success)), r, n + if success then 1 else 0, heard + {p})
  {
    var u := N.Do(t, N.AckReply(r, p, success));
    assert u.replications[r].awaiting == s.replications[r].awaiting - (heard + {p});
    assert u.replications == s.replications[r := u.replications[r]];
  }

  lemma CountNone(s: N.State, r: nat)
    requires r < |s.replications|
    ensures Counted(s, s, r, 0, {})
  {
    assert s.replications[r := s.replications[r]] == s.replications;
  }

  /** The answers change the counter and the peers still awaited, and nothing else. */
  lemma {:induction false} AnswersCount(s: N.State, r: nat, ps: seq<nat>, answers: seq<bool>)
    requires |ps| == |answers| && r < |s.replications| && Distinct(ps)
    requires Elements(ps) <= s.replications[r].awaiting
    ensures Counted(s, N.Run(s, Answers(r, ps, answers)), r, Trues(answers), Elements(ps))
    decreases |ps|
  {
    hide Counted, Elements, Distinct, N.Do;
    if ps == [] {
      NoElements();
      CountNone(s, r);
    } else {
      var front, last, answer := ps[..|ps| - 1], ps[|ps| - 1], answers[|ps| - 1];
      var steps := Answers(r, front, answers[..|ps| - 1]);
      LastElement(ps);
      AnswersCount(s, r, front, answers[..|ps| - 1]);
      AppendStep(s, steps, N.AckReply(r, last, answer));
      CountOne(s, N.Run(s, steps), r, Trues(answers[..|ps| - 1]), Elements(front), last, answer);
      hide N.Run;
    }
  }

  lemma NoElements()
    ensures Elements([]) == {}
  {}

  lemma LastElement(ps: seq<nat>)
    requires ps != [] && Distinct(ps)
    ensures var front, last := ps[..|ps| - 1], ps[|ps| - 1];
      Distinct(front) && Elements(ps) == Elements(front) + {last} && last !in Elements(front)
  {
    var front, last := ps[..|ps| - 1], ps[|ps| - 1];
    assert ps == front + [last];
  }

  lemma AppendStep(s: N.State, steps: seq<N.Step>, step: N.Step)
    ensures N.Run(s, steps + [step]) == N.Do(N.Run(s, steps), step)
  {
    hide N.Do;
    assert (steps + [step])[..|steps|] == steps;
  }

  /** The steps that the method ReplicateAndCommit takes at one go: some answers, the first look at the
      counter, the other answers, the second look, and whatever that allows. */
  function Goroutine(r: nat, ps: seq<nat>, qs: seq<nat>, early: seq<bool>, late: seq<bool>): seq<N.Step>
    requires |ps| == |early| && |qs| == |late|
  {
    Answers(r, ps, early) + [N.QuorumTest(r)] + Answers(r, qs, late) +
    [N.QuorumTest(r)] + [N.AdvanceCommit(r)] + [N.Send(r)] + [N.Reply(r)]
  }

  /** Taken without a step of another goroutine between them, they do to the machine exactly what the
      method does to the object; with the apply channel full, the send and so the answer wait. */
  lemma GoroutineIsMethod(s: N.State, r: nat, ps: seq<nat>, qs: seq<nat>, early: seq<bool>, late: seq<bool>)
    requires r < |s.replications| && |ps| == |early| && |qs| == |late| && Distinct(ps + qs)
    requires var rep := s.replications[r]; rep.phase == N.Started && rep.acks == 1 && rep.awaiting == Elements(ps + qs)
    ensures var t := N.Run(s, Goroutine(r, ps, qs, early, late)); var e := s.replications[r].entry;
      var ok, room := 1 + Trues(early + late) >= N.QuorumOf(s.core), |s.channel| < N.CHANNEL_SIZE;
      && t.core == (if ok then N.CommitTo(s.core, e.index) else s.core)
      && t.channel == s.channel + (if ok && room then [e] else [])
      && r < |t.replications|
      && t.replications[r].phase == (if !ok then N.Failed else if room then N.Succeeded else N.Committed)
  {
    hide N.QuorumOf, N.CommitTo, N.Enabled, N.Next, Trues;
    TruesConcat(early, late);
    var rep := s.replications[r];
    SplitElements(ps, qs);
    AnswersCount(s, r, ps, early);
    var s1 := N.Run(s, Answers(r, ps, early));
    var s2 := N.Do(s1, N.QuorumTest(r));
    TestStep(s1, r);
    AnswersCount(s2, r, qs, late);
    var s3 := N.Run(s2, Answers(r, qs, late));
    var s4 := N.Do(s3, N.QuorumTest(r));
    TestStep(s3, r);
    RunSequence(s, Answers(r, ps, early), N.QuorumTest(r), Answers(r, qs, late), N.QuorumTest(r), N.AdvanceCommit(r),
                N.Send(r), N.Reply(r));
    hide N.Run, Goroutine, Answers;
    assert s4.core == s.core && s4.channel == s.channel && s4.replications[r].entry == rep.entry;
    assert s4.replications[r].phase ==
           if 1 + Trues(early) + Trues(late) >= N.QuorumOf(s.core) then N.Quorate else N.Failed;
    FinishSteps(s4, r);
  }

  lemma SplitElements(ps: seq<nat>, qs: seq<nat>)
    requires Distinct(ps + qs)
    ensures Distinct(ps) && Distinct(qs)
    ensures Elements(ps) <= Elements(ps + qs) && Elements(qs) == Elements(ps + qs) - Elements(ps)
  {
    var all := ps + qs;
    forall i, j | 0 <= i < j < |qs| ensures qs[i] != qs[j] {
      assert all[|ps| + i] != all[|ps| + j];
    }
    forall i, j | 0 <= i < j < |ps| ensures ps[i] != ps[j] {
      assert all[i] != all[j];
    }
    forall i, j | 0 <= i < |ps| && 0 <= j < |qs| ensures ps[i] != qs[j] {
      assert all[i] != all[|ps| + j];
    }
  }

  lemma TestStep(s: N.State, r: nat)
    requires r < |s.replications|
    ensures N.Do(s, N.QuorumTest(r)) ==
            s.(replications := s.replications[r := N.Check(s.replications[r], N.QuorumOf(s.core))])
  {
    hide N.Check, N.QuorumOf;
  }

  lemma FinishSteps(s: N.State, r: nat)
    requires r < |s.replications|
    requires s.replications[r].phase == N.Quorate || s.replications[r].phase == N.Failed
    ensures var t := N.Do(N.Do(N.Do(s, N.AdvanceCommit(r)), N.Send(r)), N.Reply(r)); var e := s.replications[r].entry;
      var room := |s.channel| < N.CHANNEL_SIZE;
      if s.replications[r].phase == N.Quorate
      then t.core == N.CommitTo(s.core, e.index) && t.channel == s.channel + (if room then [e] else [])
           && r < |t.replications| && t.replications[r].phase == (if room then N.Succeeded else N.Committed)
      else t == s
  {
    hide N.CommitTo;
  }

  lemma RunSequence(s: N.State, a: seq<N.Step>, x: N.Step, b: seq<N.Step>, y: N.Step, z: N.Step, v: N.Step, w: N.Step)
    ensures N.Run(s, a + [x] + b + [y] + [z] + [v] + [w]) ==
            N.Do(N.Do(N.Do(N.Do(N.Run(N.Do(N.Run(s, a), x), b), y), z), v), w)
  {
    hide N.Do, N.Run;
    AppendStep(s, a, x);
    N.RunConcat(s, a + [x], b);
    AppendStep(s, a + [x] + b, y);
    AppendStep(s, a + [x] + b + [y], z);
    AppendStep(s, a + [x] + b + [y] + [z], v);
    AppendStep(s, a + [x] + b + [y] + [z] + [v], w);
  }

  // ----- the node

  function PeerValues(peers: map<nat, RaftPeer>): (r: map<nat, N.Peer>)
    reads peers.Values
    ensures r.Keys == peers.Keys && forall p :: p in peers ==> r[p] == peers[p].Value()
  {
    map p | p in peers :: peers[p].Value()
  }

  predicate Separate(peers: map<nat, RaftPeer>)
  {
    forall p, q :: p in peers && q in peers && p != q ==> peers[p] != peers[q]
  }

  /** One record for each configured member but the node itself. */
  method NewPeers(id: nat, n: nat) returns (peers: map<nat, RaftPeer>)
    ensures fresh(peers.Values) && Separate(peers) && PeerValues(peers) == N.NewCore(id, n).peers
  {
    hide PeerValues, Members, Indexed;
    peers := map[];
    for p := 0 to n
      invariant forall q: nat :: q in peers <==> q < p && q != id
      invariant forall q :: q in peers ==> fresh(peers[q]) && peers[q].Value() == N.Peer(1, 0)
      invariant Separate(peers)
    {
      if p != id {
        var peer := new RaftPeer();
        peers := peers[p := peer];
      }
    }
  }

  /** The loop of becomeLeader. */
  method ResetPeers(peers: map<nat, RaftPeer>, next: nat)
    requires Separate(peers)
    modifies peers.Values
    ensures PeerValues(peers) == map p | p in peers :: N.Peer(next, 0)
  {
    hide PeerValues;
    var left := peers.Keys;
    while left != {}
      invariant left <= peers.Keys
      invariant forall p :: p in peers && p !in left ==> peers[p].Value() == N.Peer(next, 0)
      decreases |left|
    {
      var p :| p in left;
      peers[p].nextIndex := next;
      peers[p].matchIndex := 0;
      left := left - {p};
    }
  }

  class Node {
    const id: nat
    const peers: map<nat, RaftPeer>
    const replicatedLog: ReplicatedLog
    var role: N.Role
    var currentTerm: nat
    var votedFor: Option<nat>
    var leaderID: Option<nat>
    var commitIndex: nat
    var lastApplied: nat
    var isPaused: bool
    var applyCh: seq<LogEntry>
    /** What the storage engine has been asked to do. */
    var stored: seq<StorageCall>

    predicate Valid()
      reads replicatedLog
    {
      && replicatedLog.entries != [] && |replicatedLog.entries| < U64
      && Separate(peers)
    }

    function Core(): N.Core
      reads this, replicatedLog, peers.Values
    {
      N.Core(id, role, currentTerm, votedFor, leaderID, replicatedLog.entries, commitIndex, lastApplied,
             PeerValues(peers), isPaused)
    }

    /** NewNode, for one of the members 0 to n - 1. */
    constructor (id: nat, n: nat)
      ensures Valid() && fresh(replicatedLog) && fresh(peers.Values)
      ensures Core() == N.NewCore(id, n) && applyCh == [] && stored == []
    {
      hide PeerValues;
      var log := new ReplicatedLog();
      var built := NewPeers(id, n);
      this.id := id;
      peers := built;
      replicatedLog := log;
      role, currentTerm, votedFor, leaderID := N.Follower, 0, None, None;
      commitIndex, lastApplied, isPaused := 0, 0, false;
      applyCh, stored := [], [];
    }

    method BecomeLeader()
      requires Valid()
      modifies this, peers.Values
      ensures Valid() && Core() == N.Lead(old(Core()))
      ensures applyCh == old(applyCh) && stored == old(stored)
    {
      hide PeerValues, Separate, Indexed, Members;
      role := N.Leader;
      leaderID := Some(id);
      var lastIndex := replicatedLog.LastIndex();
      ResetPeers(peers, lastIndex + 1);
    }

    /** The first half of startElection. */
    method Stand()
      requires Valid()
      modifies this
      ensures Valid() && Core() == N.Stand(old(Core())) && applyCh == old(applyCh) && stored == old(stored)
    {
      hide PeerValues, Separate;
      role := N.Candidate;
      currentTerm := currentTerm + 1;
      votedFor := Some(id);
      leaderID := None;
    }

    /** The election timer of a node that is not paused and does not lead. */
    method StartElection() returns (ballot: Ballot)
      requires Valid()
      modifies this, peers.Values
      ensures Valid() && fresh(ballot)
      ensures (Core(), ballot.Value()) == N.StartElection(old(Core()))
      ensures applyCh == old(applyCh) && stored == old(stored)
    {
      hide PeerValues, N.Lead, N.Stand, Separate, Indexed, Members;
      Stand();
      var quorum := (|peers.Keys| + 1) / 2 + 1;
      if 1 >= quorum {
        ballot := new Ballot(currentTerm, {});
        BecomeLeader();
        return;
      }
      ballot := new Ballot(currentTerm, peers.Keys);
    }

    /** What one goroutine of an election does with the answer of its peer. */
    method CountVote(ballot: Ballot, ghost peer: nat, granted: bool)
      requires Valid()
      modifies this, peers.Values, ballot
      ensures Valid() && (Core(), ballot.Value()) == N.Tally(old(Core()), old(ballot.Value()), peer, granted)
      ensures applyCh == old(applyCh) && stored == old(stored)
    {
      hide PeerValues, N.Lead, Separate, Indexed, Members;
      ballot.awaiting := ballot.awaiting - {peer};
      if granted {
        if role == N.Candidate && currentTerm == ballot.term {
          ballot.votesGranted := ballot.votesGranted + 1;
          ballot.counted := ballot.counted + {peer};
          if ballot.votesGranted >= (|peers.Keys| + 1) / 2 + 1 {
            BecomeLeader();
          }
        }
      }
    }

    /** The proposal branch of runStateMachine; None is the refusal of a node that does not lead. */
    method HandleProposal(command: string, key: Bytes, value: Bytes) returns (entry: Option<LogEntry>)
      requires Valid() && |replicatedLog.entries| + 1 < U64
      modifies replicatedLog
      ensures Valid()
      ensures entry.Some? <==> role == N.Leader
      ensures entry.Some? ==>
                && entry.value == N.NewEntry(old(Core()), command, key, value)
                && entry.value == LogEntry(currentTerm, |old(replicatedLog.entries)|, command, key, value)
      ensures Core() == if entry.Some? then old(Core()).(log := old(Core()).log + [entry.value]) else old(Core())
    {
      if role != N.Leader {
        return None;
      }
      var lastIdx := replicatedLog.LastIndex();
      var e := LogEntry(currentTerm, lastIdx + 1, command, key, value);
      replicatedLog.Append([e]);
      entry := Some(e);
    }

    /** replicateAndCommit, given the answers that arrive before its first look at the counter and those
        it then waits for. It commits exactly when a quorum, with the node itself, has acknowledged; it
        answers unless it then waits for room in the apply channel. */
    method ReplicateAndCommit(entry: LogEntry, early: seq<bool>, late: seq<bool>) returns (ok: bool, answered: bool)
      requires Valid() && |early| + |late| == |peers.Keys|
      modifies this
      ensures Valid() && ok == (1 + Trues(early + late) >= N.QuorumOf(old(Core())))
      ensures answered == (!ok || |old(applyCh)| < N.CHANNEL_SIZE)
      ensures Core() == if ok then N.CommitTo(old(Core()), entry.index) else old(Core())
      ensures applyCh == old(applyCh) + (if ok && answered then [entry] else []) && stored == old(stored)
    {
      hide PeerValues;
      TruesConcat(early, late);
      var quorum := (|peers.Keys| + 1) / 2 + 1;
      var acks := 1;
      for i := 0 to |early|
        invariant acks == 1 + Trues(early[..i])
      {
        if early[i] {
          acks := acks + 1;
        }
        assert early[..i + 1][..i] == early[..i];
      }
      assert early[..|early|] == early;
      if acks >= quorum {
        answered := CommitEntry(entry);
        return true, answered;
      }
      for i := 0 to |late|
        invariant acks == 1 + Trues(early) + Trues(late[..i])
      {
        if late[i] {
          acks := acks + 1;
        }
        assert late[..i + 1][..i] == late[..i];
      }
      assert late[..|late|] == late;
      ok, answered := acks >= quorum, true;
      if ok {
        answered := CommitEntry(entry);
      }
    }

    /** commitEntry, up to the point where a send to a full channel waits. */
    method CommitEntry(entry: LogEntry) returns (sent: bool)
      requires Valid()
      modifies this
      ensures Valid() && Core() == N.CommitTo(old(Core()), entry.index)
      ensures sent == (|old(applyCh)| < N.CHANNEL_SIZE)
      ensures applyCh == old(applyCh) + (if sent then [entry] else []) && stored == old(stored)
    {
      if entry.index > commitIndex {
        commitIndex := entry.index;
      }
      sent := |applyCh| < N.CHANNEL_SIZE;
      if sent {
        applyCh := applyCh + [entry];
      }
    }

    /** One turn of applyWorker: storage gets puts and deletes, and nothing else. */
    method ApplyNext()
      requires Valid() && applyCh != []
      modifies this
      ensures Valid() && applyCh == old(applyCh)[1..]
      ensures var e := old(applyCh)[0];
        && (e.command == "PUT" ==> stored == old(stored) + [PutCall(e.key, e.value)])
        && (e.command == "DELETE" ==> stored == old(stored) + [DeleteCall(e.key)])
        && (e.command != "PUT" && e.command != "DELETE" ==> stored == old(stored))
      ensures Core() == old(Core()).(lastApplied := old(applyCh)[0].index)
    {
      var entry := applyCh[0];
      applyCh := applyCh[1..];
      if entry.command == "PUT" {
        stored := stored + [PutCall(entry.key, entry.value)];
      } else if entry.command == "DELETE" {
        stored := stored + [DeleteCall(entry.key)];
      }
      lastApplied := entry.index;
    }
  }
}
