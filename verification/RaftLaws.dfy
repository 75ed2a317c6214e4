/** What the steps of a Raft node do (go/pkg/raft/node.go), told by the fields of the node and by the
    proposals of the run, and what becomes of a proposal on its way to the storage engine. */
module RaftLaws {
  import opened Bytes
  import opened Quorum
  import opened RaftLog
  import opened RaftNode

  // ----- proposals

  /** A proposal that a leader took, with the term it led in. */
  datatype Request = Request(command: string, key: Bytes, value: Bytes, term: nat)

  /** The proposals of a run that met a leader, in order. */
  function Requests(start: State, steps: seq<Step>): seq<Request>
  {
    if steps == [] then []
    else
      var step, c := steps[|steps| - 1], Run(start, steps[..|steps| - 1]).core;
      Requests(start, steps[..|steps| - 1]) +
      (if step.Propose? && c.role == Leader then [Request(step.command, step.key, step.value, c.term)] else [])
  }

  /** The log behind its base, and the replications, are these requests, field by field. */
  ghost predicate Logs(s: State, rs: seq<Request>)
  {
    && |s.core.log| == |rs| + 1 && |s.replications| == |rs|
    && forall k :: 0 <= k < |rs| ==>
         && s.core.log[k + 1] == LogEntry(rs[k].term, k + 1, rs[k].command, rs[k].key, rs[k].value)
         && s.replications[k].entry == s.core.log[k + 1]
  }

  lemma StepLogs(s: State, step: Step, rs: seq<Request>)
    requires Logs(s, rs)
    ensures Logs(Do(s, step), rs + if step.Propose? && s.core.role == Leader
                                   then [Request(step.command, step.key, step.value, s.core.term)] else [])
  {
    hide QuorumOf;
  }

  /** In every run the k-th request that met a leader is entry k + 1 of the log and of replication k. */
  lemma {:induction false} ProposalsAreLogged(self: nat, n: nat, steps: seq<Step>)
    ensures Logs(Run(NewState(self, n), steps), Requests(NewState(self, n), steps))
    decreases |steps|
  {
    hide Logs, Do;
    var start := NewState(self, n);
    if steps == [] {
      NothingLogged(self, n);
    } else {
      var front, step := steps[..|steps| - 1], steps[|steps| - 1];
      ProposalsAreLogged(self, n, front);
      StepLogs(Run(start, front), step, Requests(start, front));
    }
  }

  lemma NothingLogged(self: nat, n: nat)
    ensures Logs(NewState(self, n), [])
  {}

  // ----- what storage is asked

  datatype StorageCall = PutCall(key: Bytes, value: Bytes) | DeleteCall(key: Bytes)

  /** storage.Put, storage.Delete, or nothing. */
  function Asked(command: string, key: Bytes, value: Bytes): Option<StorageCall>
  {
    if command == "PUT" then Some(PutCall(key, value))
    else if command == "DELETE" then Some(DeleteCall(key))
    else None
  }

  /** The calls for a list of entries taken from the apply channel, in order. */
  function Calls(taken: seq<LogEntry>): seq<StorageCall>
  {
    if taken == [] then []
    else
      var e := taken[|taken| - 1];
      var call := Asked(e.command, e.key, e.value);
      Calls(taken[..|taken| - 1]) + (if call.Some? then [call.value] else [])
  }

  /** Exactly one entry here has this index, and it asks storage this. */
  ghost predicate HandedOnce(pipe: seq<LogEntry>, index: nat, call: Option<StorageCall>)
  {
    exists i :: 0 <= i < |pipe| && pipe[i].index == index && Asked(pipe[i].command, pipe[i].key, pipe[i].value) == call
      && forall j :: 0 <= j < |pipe| && pipe[j].index == index ==> j == i
  }

  /** In every run of a node among n members: a success reply to the k-th request means that it is committed,
      acknowledged by a majority with the node itself, and taken by the apply worker exactly once, now or from
      the apply channel, with the command, key and value that were proposed; an error reply means that it is
      never taken. */
  lemma RequestsAreAnswered(self: nat, n: nat, steps: seq<Step>, k: nat)
    requires self < n && k < |Requests(NewState(self, n), steps)|
    ensures var s, r := Run(NewState(self, n), steps), Requests(NewState(self, n), steps)[k];
      && k < |s.replications| && k + 1 < |s.core.log|
      && s.replications[k].entry == s.core.log[k + 1] == LogEntry(r.term, k + 1, r.command, r.key, r.value)
      && (s.replications[k].phase == Succeeded ==>
            && k + 1 <= s.core.commitIndex
            && 2 * |s.replications[k].acked + {self}| > n && s.replications[k].acked + {self} <= Members(n)
            && HandedOnce(s.applied + s.channel, k + 1, Asked(r.command, r.key, r.value)))
      && (s.replications[k].phase == Failed ==>
            && 2 * |s.replications[k].acked + {self}| <= n
            && forall i :: 0 <= i < |s.applied + s.channel| ==> (s.applied + s.channel)[i].index != k + 1)
  {
    var start := NewState(self, n);
    ProposalsAreLogged(self, n, steps);
    NewKeepsInv(self, n);
    RunsKeepInv(start, steps);
    hide Run, Requests, NewState, Inv, Asked;
    var s := Run(start, steps);
    assert k < |s.replications|;
    RepliesAreTrue(self, n, steps, k);
    hide Logs;
    MajorityExact(n, |s.replications[k].acked + {self}|);
    InPipeline(s, k);
    if s.replications[k].phase == Succeeded {
      OnlyOne(s, k);
    }
  }

  /** A majority is more than half. */
  lemma MajorityExact(n: nat, k: nat)
    ensures k >= Majority(n) <==> 2 * k > n
  {}

  lemma OnlyOne(s: State, k: nat)
    requires Inv(s) && k < |s.replications| && OnceIn(s.replications[k].entry, s.applied + s.channel)
    ensures var e := s.replications[k].entry;
      e.index == k + 1 && HandedOnce(s.applied + s.channel, k + 1, Asked(e.command, e.key, e.value))
  {
    hide CoreInv, ElectionsInv, WorkerInv, Asked;
    EntryAt(s, k);
    var pipe, e := s.applied + s.channel, s.replications[k].entry;
    var i :| 0 <= i < |pipe| && pipe[i] == e;
  }

  /** Taking an entry from the channel asks storage for its put or its delete, behind what was asked before, and
      for nothing if it is neither. */
  lemma TakeAsks(s: State)
    requires Enabled(s, Take)
    ensures var e, calls := s.channel[0], Calls(Do(s, Take).applied);
      && (e.command == "PUT" ==> calls == Calls(s.applied) + [PutCall(e.key, e.value)])
      && (e.command == "DELETE" ==> calls == Calls(s.applied) + [DeleteCall(e.key)])
      && (e.command != "PUT" && e.command != "DELETE" ==> calls == Calls(s.applied))
  {
    assert (s.applied + [s.channel[0]])[..|s.applied|] == s.applied;
  }

  /** And no other step asks it anything. */
  lemma OthersAskNothing(s: State, step: Step)
    requires step != Take
    ensures Do(s, step).applied == s.applied
  {
    hide StartElection, Tally, Ack, Check;
  }

  // ----- the start

  /** A node starts as a follower in term 0 that knows no leader, with the base entry alone in its log and a
      record for each other member. */
  lemma StartEffect(self: nat, n: nat)
    ensures var s := NewState(self, n); var c := s.core;
      && c.role == Follower && c.term == 0 && c.votedFor == None && c.leaderId == None && !c.paused
      && c.self == self && c.log == [LogEntry(0, 0, "", [], [])] && c.commitIndex == 0 && c.lastApplied == 0
      && (forall p: nat :: p in c.peers <==> p < n && p != self)
      && (forall p :: p in c.peers ==> c.peers[p] == Peer(1, 0))
      && s.elections == [] && s.replications == [] && s.channel == [] && s.inHand == None && s.applied == []
  {}

  // ----- acknowledgements

  /** An acknowledgement is counted for the peer it comes from; a refusal only is no longer awaited. */
  lemma AckEffect(s: State, r: nat, p: nat, success: bool)
    requires r < |s.replications| && p in s.replications[r].awaiting
    ensures var t, was := Do(s, AckReply(r, p, success)), s.replications[r];
      t == s.(replications := s.replications[r := Replication(
                was.entry, was.acks + (if success then 1 else 0), was.acked + (if success then {p} else {}),
                was.awaiting - {p}, was.phase)])
  {
    var was := s.replications[r];
    assert was.acked + {} == was.acked;
  }

  /** Whoever is counted as having acknowledged a proposal did so in the run, and whoever is counted as a
      voter granted the vote. */
  lemma {:induction false} CountedAnswered(self: nat, n: nat, steps: seq<Step>)
    ensures var s := Run(NewState(self, n), steps);
      && (forall r, p :: 0 <= r < |s.replications| && p in s.replications[r].acked ==> AckReply(r, p, true) in steps)
      && (forall e, p :: 0 <= e < |s.elections| && p in s.elections[e].counted ==> VoteReply(e, p, true) in steps)
    decreases |steps|
  {
    var start := NewState(self, n);
    if steps != [] {
      var front, step := steps[..|steps| - 1], steps[|steps| - 1];
      CountedAnswered(self, n, front);
      CountedOnce(Run(start, front), step);
      hide Do, NewState;
      assert steps == front + [step];
    }
  }

  lemma CountedOnce(s: State, step: Step)
    ensures var t := Do(s, step);
      && (forall r, p :: 0 <= r < |t.replications| && p in t.replications[r].acked ==>
            (r < |s.replications| && p in s.replications[r].acked) || step == AckReply(r, p, true))
      && (forall e, p :: 0 <= e < |t.elections| && p in t.elections[e].counted ==>
            (e < |s.elections| && p in s.elections[e].counted) || step == VoteReply(e, p, true))
  {
    hide QuorumOf, Lead;
  }

  // ----- elections

  /** The election timer makes a node that is neither leader nor paused a candidate in the term behind its
      own, voting for itself; it leads at once exactly if it is alone. Otherwise it changes nothing. */
  lemma TimeoutEffect(s: State)
    requires s.core.log != []
    ensures var t, c := Do(s, Timeout), s.core;
      && (c.role == Leader || c.paused ==> t == s)
      && (c.role != Leader && !c.paused ==>
            && t.core.term == c.term + 1 && t.core.votedFor == Some(c.self)
            && t.core.role == (if c.peers.Keys == {} then Leader else Candidate)
            && t.core.leaderId == (if c.peers.Keys == {} then Some(c.self) else None)
            && t.elections == s.elections + [Election(c.term + 1, 1, {}, c.peers.Keys)]
            && t.core.log == c.log && t.core.commitIndex == c.commitIndex && t.core.lastApplied == c.lastApplied)
      && t.replications == s.replications && t.channel == s.channel && t.applied == s.applied && t.inHand == s.inHand
  {}

  /** A grant counts for the candidate of that very term, and more than half of all members make it leader;
      any other answer only is no longer awaited. */
  lemma VoteEffect(s: State, e: nat, p: nat, granted: bool)
    requires Enabled(s, VoteReply(e, p, granted))
    ensures var t, c, was := Do(s, VoteReply(e, p, granted)), s.core, s.elections[e];
      var counts := granted && c.role == Candidate && c.term == was.term;
      && t.elections == s.elections[e := Election(was.term, was.votes + (if counts then 1 else 0),
                                                   was.counted + (if counts then {p} else {}), was.awaiting - {p})]
      && t.core.term == c.term && t.core.log == c.log && t.core.votedFor == c.votedFor
      && t.core.role == (if counts && 2 * (was.votes + 1) > |c.peers.Keys| + 1 then Leader else c.role)
  {
    TallyEffect(s.core, s.elections[e], p, granted);
    hide Tally;
  }

  lemma TallyEffect(c: Core, was: Election, p: nat, granted: bool)
    requires c.log != []
    ensures var (d, counted) := Tally(c, was, p, granted);
      var counts := granted && c.role == Candidate && c.term == was.term;
      && counted == Election(was.term, was.votes + (if counts then 1 else 0),
                             was.counted + (if counts then {p} else {}), was.awaiting - {p})
      && d.term == c.term && d.log == c.log && d.votedFor == c.votedFor
      && d.role == (if counts && 2 * (was.votes + 1) > |c.peers.Keys| + 1 then Leader else c.role)
  {
    MajorityExact(|c.peers.Keys| + 1, was.votes + 1);
    assert was.counted + {} == was.counted;
  }

  /** A step that makes a node leader names it so, and sets each peer's next index behind the last entry. */
  lemma LeadingEffect(s: State, step: Step)
    requires s.core.role != Leader && Do(s, step).core.role == Leader && CoreInv(s.core)
    ensures var c := Do(s, step).core;
      && c.leaderId == Some(c.self)
      && c.peers.Keys == s.core.peers.Keys
      && forall p :: p in c.peers ==> c.peers[p] == Peer(s.core.log[|s.core.log| - 1].index + 1, 0)
  {}

  /** And a node leads only so long as it keeps its peers' records as they were then. */
  lemma LeaderKeepsPeers(s: State, step: Step)
    requires s.core.role == Leader
    ensures Do(s, step).core.peers == s.core.peers && Do(s, step).core.leaderId == s.core.leaderId
  {}

  /** A paused node starts no election, however long: its term stands until it is resumed. */
  lemma {:induction false} PausedKeepsTerm(s: State, steps: seq<Step>)
    requires s.core.paused && forall i :: 0 <= i < |steps| ==> steps[i] != Pause(false)
    ensures Run(s, steps).core.term == s.core.term && Run(s, steps).core.paused
    ensures |Run(s, steps).elections| == |s.elections|
    decreases |steps|
  {
    if steps != [] {
      PausedKeepsTerm(s, steps[..|steps| - 1]);
      PausedStep(Run(s, steps[..|steps| - 1]), steps[|steps| - 1]);
      hide Do;
    }
  }

  lemma PausedStep(s: State, step: Step)
    requires s.core.paused && step != Pause(false)
    ensures Do(s, step).core.term == s.core.term && Do(s, step).core.paused
    ensures |Do(s, step).elections| == |s.elections|
  {}

  // ----- commits and applies

  /** The commit index rises to the entry if it is below, and never falls. */
  lemma CommitEffect(s: State, r: nat)
    requires Inv(s) && Enabled(s, AdvanceCommit(r))
    ensures var t := Do(s, AdvanceCommit(r));
      && t.core.commitIndex == (if r + 1 > s.core.commitIndex then r + 1 else s.core.commitIndex)
      && t.core.log == s.core.log && t.core.lastApplied == s.core.lastApplied && t.channel == s.channel
  {
    EntryAt(s, r);
    hide CoreInv, ElectionsInv, ReplicationsInv, PipelineInv, WorkerInv;
  }

  /** A committed entry goes to the channel exactly while fewer than 256 wait there, and behind them. */
  lemma SendEffect(s: State, r: nat)
    requires r < |s.replications| && s.replications[r].phase == Committed
    ensures Do(s, Send(r)).channel == s.channel + (if |s.channel| < 256 then [s.replications[r].entry] else [])
    ensures Do(s, Send(r)).replications[r].phase == if |s.channel| < 256 then Sent else Committed
  {}

  /** The worker takes the oldest entry, one at a time, and then records its index. */
  lemma WorkerEffect(s: State)
    ensures s.inHand.None? && s.channel != [] ==>
              var t := Do(s, Take);
              && t.inHand == Some(s.channel[0]) && s.channel == [s.channel[0]] + t.channel
              && t.applied == s.applied + [s.channel[0]] && t.core == s.core
    ensures s.inHand.Some? ==>
              var t := Do(s, Record);
              t.inHand.None? && t.core == s.core.(lastApplied := s.inHand.value.index) && t.channel == s.channel
  {}

  /** What the two looks at the counter decide: at once with a quorum, an error only when all have answered
      without one. */
  lemma QuorumTestEffect(s: State, r: nat)
    requires r < |s.replications|
    ensures var t, was := Do(s, QuorumTest(r)), s.replications[r];
      var quorum := 2 * was.acks > |s.core.peers.Keys| + 1;
      && t.replications[r].phase ==
         (if was.phase == Started then (if quorum then Quorate else Waiting)
          else if was.phase == Waiting && was.awaiting == {} then (if quorum then Quorate else Failed)
          else was.phase)
      && t.core == s.core && t.channel == s.channel
  {
    MajorityExact(|s.core.peers.Keys| + 1, s.replications[r].acks);
  }
}
