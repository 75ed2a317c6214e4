/** Runs of one Raft node that show what overlapping proposals do: go/pkg/raft/node.go:188 starts a
    goroutine for each, and nothing orders them. */
module RaftLimits {
  import opened Bytes
  import opened Quorum
  import opened RaftLog
  import opened RaftNode

  lemma RunTwo(s: State, x: Step, y: Step)
    ensures Run(s, [x, y]) == Do(Do(s, x), y)
  {
    hide Do;
    assert [x, y][..1] == [x] && [x][..0] == [];
    assert Run(s, [x]) == Do(Run(s, []), x);
  }

  lemma RunFour(s: State, w: Step, x: Step, y: Step, z: Step)
    ensures Run(s, [w, x, y, z]) == Do(Do(Do(Do(s, w), x), y), z)
  {
    hide Do;
    RunTwo(s, w, x);
    RunTwo(Do(Do(s, w), x), y, z);
    RunConcat(s, [w, x], [y, z]);
    hide Run;
    assert [w, x] + [y, z] == [w, x, y, z];
  }

  function Settling(log: seq<LogEntry>, rs: seq<Replication>, commit: nat, channel: seq<LogEntry>,
                    inHand: Option<LogEntry>, applied: seq<LogEntry>, lastApplied: nat): State
  {
    State(Core(0, Leader, 1, Some(0), Some(0), log, commit, lastApplied, map[], false),
          [Election(1, 1, {}, {})], rs, channel, inHand, applied)
  }

  /** A cluster of one node that is given two puts to one key before it answers the first can commit
      and apply the second one first: the older value is stored last, and lastApplied falls from 2 to 1. */
  lemma OverlappingPutsReorder(key: Bytes, v1: Bytes, v2: Bytes)
    ensures exists steps, more :: var s, t := Run(NewState(0, 1), steps), Run(NewState(0, 1), steps + more);
      && t.replications == [Replication(LogEntry(1, 1, "PUT", key, v1), 1, {}, {}, Sent),
                            Replication(LogEntry(1, 2, "PUT", key, v2), 1, {}, {}, Sent)]
      && t.applied == [t.replications[1].entry, t.replications[0].entry]
      && s.core.lastApplied == 2 && t.core.lastApplied == 1
  {
    hide Run;
    var e1, e2 := LogEntry(1, 1, "PUT", key, v1), LogEntry(1, 2, "PUT", key, v2);
    var accept := [Timeout, Propose("PUT", key, v1), Propose("PUT", key, v2), QuorumTest(0)];
    var second := [QuorumTest(1), AdvanceCommit(1), Send(1), Take];
    var first := [AdvanceCommit(0), Send(0), Take, Record];
    var log := [BASE, e1, e2];
    var a := Settling(log, [Replication(e1, 1, {}, {}, Quorate), Replication(e2, 1, {}, {}, Started)],
                      0, [], None, [], 0);
    var b := Settling(log, [Replication(e1, 1, {}, {}, Quorate), Replication(e2, 1, {}, {}, Sent)],
                      2, [], Some(e2), [e2], 0);
    var c := Settling(log, [Replication(e1, 1, {}, {}, Quorate), Replication(e2, 1, {}, {}, Sent)],
                      2, [], None, [e2], 2);
    var d := Settling(log, [Replication(e1, 1, {}, {}, Sent), Replication(e2, 1, {}, {}, Sent)],
                      2, [], None, [e2, e1], 1);
    AcceptTwo(key, v1, v2);
    SecondOvertakes(e1, e2);
    FirstFollows(e1, e2);
    RunConcat(NewState(0, 1), accept, second);
    RunConcat(NewState(0, 1), accept + second, [Record]);
    RunConcat(NewState(0, 1), accept + second + [Record], first);
    var steps := accept + second + [Record];
    assert Run(NewState(0, 1), steps) == c;
    assert Run(NewState(0, 1), steps + first) == d;
  }

  lemma AcceptTwo(key: Bytes, v1: Bytes, v2: Bytes)
    ensures var e1, e2 := LogEntry(1, 1, "PUT", key, v1), LogEntry(1, 2, "PUT", key, v2);
      Run(NewState(0, 1), [Timeout, Propose("PUT", key, v1), Propose("PUT", key, v2), QuorumTest(0)]) ==
      Settling([BASE, e1, e2], [Replication(e1, 1, {}, {}, Quorate), Replication(e2, 1, {}, {}, Started)],
               0, [], None, [], 0)
  {
    hide Run, RaftLog.Indexed, Quorum.Members;
    RunFour(NewState(0, 1), Timeout, Propose("PUT", key, v1), Propose("PUT", key, v2), QuorumTest(0));
    var e1 := LogEntry(1, 1, "PUT", key, v1);
    var led := Settling([BASE], [], 0, [], None, [], 0);
    assert Members(1) == {0};
    assert NewState(0, 1).core.peers == map[];
    assert Do(NewState(0, 1), Timeout) == led;
    assert Do(led, Propose("PUT", key, v1)) ==
           Settling([BASE, e1], [Replication(e1, 1, {}, {}, Started)], 0, [], None, [], 0);
  }

  lemma SecondOvertakes(e1: LogEntry, e2: LogEntry)
    requires e1.index == 1 && e2.index == 2
    ensures var log, r1 := [BASE, e1, e2], Replication(e1, 1, {}, {}, Quorate);
      var done := [r1, Replication(e2, 1, {}, {}, Sent)];
      && Run(Settling(log, [r1, Replication(e2, 1, {}, {}, Started)], 0, [], None, [], 0),
             [QuorumTest(1), AdvanceCommit(1), Send(1), Take]) == Settling(log, done, 2, [], Some(e2), [e2], 0)
      && Run(Settling(log, done, 2, [], Some(e2), [e2], 0), [Record]) == Settling(log, done, 2, [], None, [e2], 2)
  {
    var log, r1 := [BASE, e1, e2], Replication(e1, 1, {}, {}, Quorate);
    var a := Settling(log, [r1, Replication(e2, 1, {}, {}, Started)], 0, [], None, [], 0);
    var b := Settling(log, [r1, Replication(e2, 1, {}, {}, Sent)], 2, [], Some(e2), [e2], 0);
    assert Run(b, [Record]) == Do(b, Record) by { assert [Record][..0] == []; }
    hide Run, RaftLog.Indexed, Quorum.Members;
    RunFour(a, QuorumTest(1), AdvanceCommit(1), Send(1), Take);
    assert Do(a, QuorumTest(1)) == Settling(log, [r1, Replication(e2, 1, {}, {}, Quorate)], 0, [], None, [], 0);
  }

  lemma FirstFollows(e1: LogEntry, e2: LogEntry)
    requires e1.index == 1 && e2.index == 2
    ensures var log, r2 := [BASE, e1, e2], Replication(e2, 1, {}, {}, Sent);
      Run(Settling(log, [Replication(e1, 1, {}, {}, Quorate), r2], 2, [], None, [e2], 2),
          [AdvanceCommit(0), Send(0), Take, Record]) ==
      Settling(log, [Replication(e1, 1, {}, {}, Sent), r2], 2, [], None, [e2, e1], 1)
  {
    var log, r2 := [BASE, e1, e2], Replication(e2, 1, {}, {}, Sent);
    var c := Settling(log, [Replication(e1, 1, {}, {}, Quorate), r2], 2, [], None, [e2], 2);
    hide Run, RaftLog.Indexed, Quorum.Members;
    RunFour(c, AdvanceCommit(0), Send(0), Take, Record);
    assert Do(c, AdvanceCommit(0)) == Settling(log, [Replication(e1, 1, {}, {}, Committed), r2], 2, [], None, [e2], 2);
  }

  function OfThree(role: Role, leader: Option<nat>, log: seq<LogEntry>, commit: nat, es: seq<Election>,
                   rs: seq<Replication>, channel: seq<LogEntry>): State
  {
    var peers := map[1 := Peer(1, 0), 2 := Peer(1, 0)];
    State(Core(0, role, 1, Some(0), leader, log, commit, 0, peers, false), es, rs, channel, None, [])
  }

  /** The commit index is the greatest index that got through, not the end of a committed prefix: here
      a write whose client was told that it failed, and that no other node holds, lies below it. */
  lemma FailedBelowCommit(key: Bytes, v1: Bytes, v2: Bytes)
    ensures exists steps :: var s := Run(NewState(0, 3), steps);
      && |s.replications| == 2 && s.core.commitIndex == 2
      && s.replications[0].entry == LogEntry(1, 1, "PUT", key, v1)
      && s.replications[0].phase == Failed && s.replications[0].acked == {}
  {
    hide Run, Do;
    var e1, e2 := LogEntry(1, 1, "PUT", key, v1), LogEntry(1, 2, "PUT", key, v2);
    var accept := [Timeout, VoteReply(0, 1, true), Propose("PUT", key, v1), Propose("PUT", key, v2)];
    var fail := [QuorumTest(0), AckReply(0, 1, false), AckReply(0, 2, false), QuorumTest(0)];
    var commit := [AckReply(1, 1, true), QuorumTest(1), AdvanceCommit(1), Send(1)];
    LeadThree(key, v1, v2);
    FirstFails(e1, e2);
    SecondCommits(e1, e2);
    RunConcat(NewState(0, 3), accept, fail);
    RunConcat(NewState(0, 3), accept + fail, commit);
    var s := Run(NewState(0, 3), accept + fail + commit);
    assert s.core.commitIndex == 2;
  }

  lemma StandThree()
    ensures Do(NewState(0, 3), Timeout) == OfThree(Candidate, None, [BASE], 0, [Election(1, 1, {}, {1, 2})], [], [])
  {
    TwoPeers();
    hide NewCore, Indexed;
  }

  lemma TwoPeers()
    ensures var peers := map[1 := Peer(1, 0), 2 := Peer(1, 0)];
      && NewCore(0, 3) == Core(0, Follower, 0, None, None, [BASE], 0, 0, peers, false)
      && peers.Keys == {1, 2} && |peers.Keys| == 2
  {
    var peers := map[1 := Peer(1, 0), 2 := Peer(1, 0)];
    assert Members(3) - {0} == {1, 2};
    assert NewCore(0, 3).peers == peers;
  }

  lemma WinThree()
    ensures Do(OfThree(Candidate, None, [BASE], 0, [Election(1, 1, {}, {1, 2})], [], []), VoteReply(0, 1, true)) ==
            OfThree(Leader, Some(0), [BASE], 0, [Election(1, 2, {1}, {2})], [], [])
  {
    var stood := OfThree(Candidate, None, [BASE], 0, [Election(1, 1, {}, {1, 2})], [], []);
    var peers := stood.core.peers;
    assert peers.Keys == {1, 2} && {1, 2} - {1} == {2} && |peers.Keys| == 2;
    assert Lead(stood.core).peers == peers;
  }

  lemma LeadThree(key: Bytes, v1: Bytes, v2: Bytes)
    ensures var e1, e2 := LogEntry(1, 1, "PUT", key, v1), LogEntry(1, 2, "PUT", key, v2);
      Run(NewState(0, 3), [Timeout, VoteReply(0, 1, true), Propose("PUT", key, v1), Propose("PUT", key, v2)]) ==
      OfThree(Leader, Some(0), [BASE, e1, e2], 0, [Election(1, 2, {1}, {2})],
              [Replication(e1, 1, {}, {1, 2}, Started), Replication(e2, 1, {}, {1, 2}, Started)], [])
  {
    hide Run, RaftLog.Indexed, Quorum.Members;
    RunFour(NewState(0, 3), Timeout, VoteReply(0, 1, true), Propose("PUT", key, v1), Propose("PUT", key, v2));
    StandThree();
    WinThree();
    var e1 := LogEntry(1, 1, "PUT", key, v1);
    var led := OfThree(Leader, Some(0), [BASE], 0, [Election(1, 2, {1}, {2})], [], []);
    assert led.core.peers.Keys == {1, 2};
    assert Do(led, Propose("PUT", key, v1)) ==
           OfThree(Leader, Some(0), [BASE, e1], 0, [Election(1, 2, {1}, {2})],
                   [Replication(e1, 1, {}, {1, 2}, Started)], []);
  }

  /** One step of the leader of three, as far as it changes one replication. */
  lemma StepOfThree(log: seq<LogEntry>, commit: nat, es: seq<Election>, rs: seq<Replication>, channel: seq<LogEntry>,
                    r: nat, p: nat, success: bool)
    requires r < |rs|
    ensures var s := OfThree(Leader, Some(0), log, commit, es, rs, channel);
      && (p in rs[r].awaiting ==>
            Do(s, AckReply(r, p, success)) ==
            OfThree(Leader, Some(0), log, commit, es, rs[r := Ack(rs[r], p, success)], channel))
      && Do(s, QuorumTest(r)) == OfThree(Leader, Some(0), log, commit, es, rs[r := Check(rs[r], 2)], channel)
      && (rs[r].phase == Quorate && commit < rs[r].entry.index ==>
            Do(s, AdvanceCommit(r)) ==
            OfThree(Leader, Some(0), log, rs[r].entry.index, es, rs[r := rs[r].(phase := Committed)], channel))
      && (rs[r].phase == Committed && |channel| < CHANNEL_SIZE ==>
            Do(s, Send(r)) ==
            OfThree(Leader, Some(0), log, commit, es, rs[r := rs[r].(phase := Sent)], channel + [rs[r].entry]))
  {
    hide Check, Ack;
    var s := OfThree(Leader, Some(0), log, commit, es, rs, channel);
    assert s.core.peers.Keys == {1, 2};
  }

  lemma FirstFails(e1: LogEntry, e2: LogEntry)
    ensures var log, es, r2 := [BASE, e1, e2], [Election(1, 2, {1}, {2})], Replication(e2, 1, {}, {1, 2}, Started);
      Run(OfThree(Leader, Some(0), log, 0, es, [Replication(e1, 1, {}, {1, 2}, Started), r2], []),
          [QuorumTest(0), AckReply(0, 1, false), AckReply(0, 2, false), QuorumTest(0)]) ==
      OfThree(Leader, Some(0), log, 0, es, [Replication(e1, 1, {}, {}, Failed), r2], [])
  {
    hide Run, Do;
    var log, es, r2 := [BASE, e1, e2], [Election(1, 2, {1}, {2})], Replication(e2, 1, {}, {1, 2}, Started);
    var a, b := Replication(e1, 1, {}, {1, 2}, Started), Replication(e1, 1, {}, {1, 2}, Waiting);
    var c, d := Replication(e1, 1, {}, {2}, Waiting), Replication(e1, 1, {}, {}, Waiting);
    assert {1, 2} - {1} == {2} && {2} - {2} == {};
    assert Check(a, 2) == b && Ack(b, 1, false) == c && Ack(c, 2, false) == d && Check(d, 2) == d.(phase := Failed);
    hide Check, Ack, OfThree;
    assert [a, r2][0 := b] == [b, r2] && [b, r2][0 := c] == [c, r2] && [c, r2][0 := d] == [d, r2];
    assert [d, r2][0 := Check(d, 2)] == [Check(d, 2), r2];
    RunFour(OfThree(Leader, Some(0), log, 0, es, [a, r2], []),
            QuorumTest(0), AckReply(0, 1, false), AckReply(0, 2, false), QuorumTest(0));
    StepOfThree(log, 0, es, [a, r2], [], 0, 1, false);
    StepOfThree(log, 0, es, [b, r2], [], 0, 1, false);
    StepOfThree(log, 0, es, [c, r2], [], 0, 2, false);
    StepOfThree(log, 0, es, [d, r2], [], 0, 2, false);
  }

  lemma SecondCommits(e1: LogEntry, e2: LogEntry)
    requires e2.index == 2
    ensures var log, es, r1 := [BASE, e1, e2], [Election(1, 2, {1}, {2})], Replication(e1, 1, {}, {}, Failed);
      Run(OfThree(Leader, Some(0), log, 0, es, [r1, Replication(e2, 1, {}, {1, 2}, Started)], []),
          [AckReply(1, 1, true), QuorumTest(1), AdvanceCommit(1), Send(1)]) ==
      OfThree(Leader, Some(0), log, 2, es, [r1, Replication(e2, 2, {1}, {2}, Sent)], [e2])
  {
    hide Run, Do;
    var log, es, r1 := [BASE, e1, e2], [Election(1, 2, {1}, {2})], Replication(e1, 1, {}, {}, Failed);
    var a, b := Replication(e2, 1, {}, {1, 2}, Started), Replication(e2, 2, {1}, {2}, Started);
    var c, d := b.(phase := Quorate), b.(phase := Committed);
    assert {1, 2} - {1} == {2} && {} + {1} == {1};
    assert Ack(a, 1, true) == b && Check(b, 2) == c;
    hide Check, Ack, OfThree;
    assert [r1, a][1 := b] == [r1, b] && [r1, b][1 := c] == [r1, c] && [r1, c][1 := d] == [r1, d];
    assert [r1, d][1 := d.(phase := Sent)] == [r1, d.(phase := Sent)] && [] + [e2] == [e2];
    RunFour(OfThree(Leader, Some(0), log, 0, es, [r1, a], []),
            AckReply(1, 1, true), QuorumTest(1), AdvanceCommit(1), Send(1));
    StepOfThree(log, 0, es, [r1, a], [], 1, 1, true);
    StepOfThree(log, 0, es, [r1, b], [], 1, 1, true);
    StepOfThree(log, 0, es, [r1, c], [], 1, 1, true);
    StepOfThree(log, 2, es, [r1, d], [], 1, 1, true);
  }
}
