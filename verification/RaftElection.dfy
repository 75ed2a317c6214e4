/** Several Raft nodes over one member set: the elections of go/pkg/raft/node.go under every delay and
    order of the answers. */
module RaftElection {
  import opened Bytes
  import opened Quorum
  import N = RaftNode

  datatype Event = Event(node: nat, step: N.Step)

  function Start(n: nat): (r: seq<N.State>)
    ensures |r| == n && forall i :: 0 <= i < n ==> r[i] == N.NewState(i, n)
  {
    seq(n, i requires 0 <= i < n => N.NewState(i, n))
  }

  function Do(nodes: seq<N.State>, ev: Event): (r: seq<N.State>)
    ensures |r| == |nodes|
  {
    if ev.node < |nodes| then nodes[ev.node := N.Do(nodes[ev.node], ev.step)] else nodes
  }

  function Run(nodes: seq<N.State>, events: seq<Event>): (r: seq<N.State>)
    ensures |r| == |nodes|
  {
    if events == [] then nodes else Do(Run(nodes, events[..|events| - 1]), events[|events| - 1])
  }

  predicate Leads(nodes: seq<N.State>, i: nat, term: nat)
  {
    i < |nodes| && nodes[i].core.role == N.Leader && nodes[i].core.term == term
  }

  // ----- voters that vote once per term

  /** A node that stands votes for itself; an answer that grants is the vote of the peer it comes from. */
  predicate AsVoted(vote: (nat, nat) -> Option<nat>, i: nat, s: N.State, step: N.Step)
  {
    N.Enabled(s, step) ==>
      && (step.Timeout? ==> vote(i, s.core.term + 1) == Some(i))
      && (step.VoteReply? && step.granted ==> vote(step.peer, s.elections[step.e].term) == Some(i))
  }

  /** All grants of the run agree with one vote of each member in each term. */
  predicate OneVoteEach(vote: (nat, nat) -> Option<nat>, nodes: seq<N.State>, events: seq<Event>)
  {
    events == [] ||
    (OneVoteEach(vote, nodes, events[..|events| - 1]) &&
     var ev := events[|events| - 1];
     ev.node < |nodes| ==> AsVoted(vote, ev.node, Run(nodes, events[..|events| - 1])[ev.node], ev.step))
  }

  /** Whoever node i counted did vote for it. */
  predicate CountedVoted(vote: (nat, nat) -> Option<nat>, i: nat, s: N.State)
  {
    forall k :: 0 <= k < |s.elections| ==> Backed(vote, i, s.elections[k])
  }

  predicate Backed(vote: (nat, nat) -> Option<nat>, i: nat, e: N.Election)
  {
    vote(i, e.term) == Some(i) && forall p :: p in e.counted ==> vote(p, e.term) == Some(i)
  }

  predicate NodeInv(vote: (nat, nat) -> Option<nat>, n: nat, i: nat, s: N.State)
  {
    N.Inv(s) && s.core.self == i && s.core.peers.Keys == Members(n) - {i} && CountedVoted(vote, i, s)
  }

  lemma StepKeepsVotes(vote: (nat, nat) -> Option<nat>, i: nat, s: N.State, step: N.Step)
    requires N.Inv(s) && CountedVoted(vote, i, s) && AsVoted(vote, i, s, step)
    ensures CountedVoted(vote, i, N.Do(s, step))
  {
    hide N.CoreInv, N.ReplicationsInv, N.PipelineInv, N.WorkerInv, N.Tallied, N.QuorumOf, N.Lead;
  }

  lemma StepKeepsNode(vote: (nat, nat) -> Option<nat>, n: nat, i: nat, s: N.State, step: N.Step)
    requires NodeInv(vote, n, i, s) && AsVoted(vote, i, s, step)
    ensures NodeInv(vote, n, i, N.Do(s, step))
  {
    StepKeepsVotes(vote, i, s, step);
    if N.Enabled(s, step) {
      N.NextKeepsInv(s, step);
    }
    N.StepKeepsPeers(s, step);
    hide N.Inv, N.Do, CountedVoted;
  }

  lemma {:induction false} RunKeepsNodes(vote: (nat, nat) -> Option<nat>, n: nat, events: seq<Event>, i: nat)
    requires i < n && OneVoteEach(vote, Start(n), events)
    ensures NodeInv(vote, n, i, Run(Start(n), events)[i])
    decreases |events|
  {
    hide NodeInv, AsVoted, N.Do;
    if events == [] {
      StartKeepsNode(vote, n, i);
    } else {
      RunKeepsNodes(vote, n, events[..|events| - 1], i);
      if events[|events| - 1].node == i {
        StepKeepsNode(vote, n, i, Run(Start(n), events[..|events| - 1])[i], events[|events| - 1].step);
      }
    }
  }

  lemma StartKeepsNode(vote: (nat, nat) -> Option<nat>, n: nat, i: nat)
    requires i < n
    ensures NodeInv(vote, n, i, N.NewState(i, n))
  {
    N.NewKeepsInv(i, n);
    N.PeersOf(i, n);
  }

  /** A leader was voted for by a majority. */
  lemma LeaderHasVoters(vote: (nat, nat) -> Option<nat>, n: nat, i: nat, s: N.State) returns (voters: set<nat>)
    requires i < n && NodeInv(vote, n, i, s) && s.core.role == N.Leader
    ensures voters <= Members(n) && |voters| >= Majority(n)
    ensures forall p :: p in voters ==> vote(p, s.core.term) == Some(i)
  {
    hide N.Inv, N.CoreInv, N.ReplicationsInv, N.PipelineInv, N.WorkerInv, Members;
    LeaderCounted(n, i, s);
    voters := s.elections[|s.elections| - 1].counted + {i};
  }

  lemma LeaderCounted(n: nat, i: nat, s: N.State)
    requires i < n && N.Inv(s) && s.core.role == N.Leader && s.core.peers.Keys == Members(n) - {i}
    ensures s.elections != [] && s.elections[|s.elections| - 1].term == s.core.term > 0
    ensures s.core.votedFor == Some(s.core.self)
    ensures var voters := s.elections[|s.elections| - 1].counted + {i};
      voters <= Members(n) && |voters| >= Majority(n)
  {
    N.LeaderHasMajority(s, i, n);
    hide N.ReplicationsInv, N.PipelineInv, N.WorkerInv, N.Tallied, Members, N.QuorumOf;
  }

  /** If every member votes for at most one candidate in a term, its own vote for itself included, then
      over all delays and orders of the answers no two nodes ever lead in one term, even at different times. */
  lemma AtMostOneLeader(vote: (nat, nat) -> Option<nat>, n: nat, events: seq<Event>,
                        a: nat, b: nat, i: nat, j: nat, term: nat)
    requires OneVoteEach(vote, Start(n), events) && a <= |events| && b <= |events|
    requires Leads(Run(Start(n), events[..a]), i, term) && Leads(Run(Start(n), events[..b]), j, term)
    ensures i == j
  {
    PrefixVotes(vote, n, events, a);
    PrefixVotes(vote, n, events, b);
    RunKeepsNodes(vote, n, events[..a], i);
    RunKeepsNodes(vote, n, events[..b], j);
    hide NodeInv, Run, OneVoteEach;
    var v := LeaderHasVoters(vote, n, i, Run(Start(n), events[..a])[i]);
    var w := LeaderHasVoters(vote, n, j, Run(Start(n), events[..b])[j]);
    MajoritiesMeet(n, v, w);
  }

  lemma {:induction false} PrefixVotes(vote: (nat, nat) -> Option<nat>, n: nat, events: seq<Event>, a: nat)
    requires OneVoteEach(vote, Start(n), events) && a <= |events|
    ensures OneVoteEach(vote, Start(n), events[..a])
    decreases |events|
  {
    if a == |events| {
      assert events[..a] == events;
    } else {
      PrefixVotes(vote, n, events[..|events| - 1], a);
      assert events[..|events| - 1][..a] == events[..a];
    }
  }

  // ----- voters that always grant, as sendRequestVote does

  /** Every peer that is asked answers, in order of its number, and grants. */
  function Granting(peers: nat, self: nat): seq<N.Step>
  {
    if peers == 0 then [N.Timeout]
    else if peers - 1 == self then Granting(peers - 1, self)
    else Granting(peers - 1, self) + [N.VoteReply(0, peers - 1, true)]
  }

  predicate AllGrant(events: seq<Event>)
  {
    forall k :: 0 <= k < |events| && events[k].step.VoteReply? ==> events[k].step.granted
  }

  /** After the answers of the peers below k, the node leads or has counted them all. */
  predicate Asking(n: nat, self: nat, k: nat, s: N.State)
  {
    && N.Inv(s) && s.core.self == self && s.core.peers.Keys == Members(n) - {self} && s.core.term == 1
    && |s.elections| == 1 && (s.core.role == N.Leader || s.core.role == N.Candidate)
    && (s.core.role == N.Candidate ==> s.elections[0].counted == Members(k) - {self})
    && (n > 1 ==> s.elections[0].awaiting == Members(n) - {self} - Members(k))
  }

  lemma AskingStarts(n: nat, self: nat)
    requires self < n
    ensures Asking(n, self, 0, N.Run(N.NewState(self, n), [N.Timeout]))
  {
    hide N.Inv, N.Run, N.Do;
    RunOnce(N.NewState(self, n), N.Timeout);
    N.NewKeepsInv(self, n);
    N.DoKeepsInv(N.NewState(self, n), N.Timeout);
    FirstTimeout(n, self);
    hide N.NewState;
  }

  lemma FirstTimeout(n: nat, self: nat)
    requires self < n
    ensures var s := N.Do(N.NewState(self, n), N.Timeout);
      && s.core.self == self && s.core.peers.Keys == Members(n) - {self} && s.core.term == 1
      && |s.elections| == 1 && (s.core.role == N.Leader || s.core.role == N.Candidate)
      && s.elections[0].counted == {} && (n > 1 ==> s.elections[0].awaiting == Members(n) - {self})
  {
    N.PeersOf(self, n);
    hide Members;
  }

  lemma RunOnce(s: N.State, step: N.Step)
    ensures N.Run(s, [step]) == N.Do(s, step)
  {
    hide N.Do;
    assert [step][..0] == [];
  }

  lemma VoteCounts(s: N.State, k: nat)
    requires s.core.log != [] && |s.elections| == 1 && k in s.elections[0].awaiting
    requires s.elections[0].term == s.core.term && (s.core.role == N.Leader || s.core.role == N.Candidate)
    ensures var t := N.Do(s, N.VoteReply(0, k, true));
      && |t.elections| == 1 && t.core.term == s.core.term && t.elections[0].awaiting == s.elections[0].awaiting - {k}
      && (t.core.role == N.Leader || t.core.role == N.Candidate)
      && (t.core.role == N.Candidate ==>
            s.core.role == N.Candidate && t.elections[0].counted == s.elections[0].counted + {k})
  {
    hide N.QuorumOf;
  }

  lemma NextMember(n: nat, self: nat, k: nat)
    requires k < n
    ensures Members(k + 1) - {self} == if k == self then Members(k) - {self} else Members(k) - {self} + {k}
    ensures Members(n) - {self} - Members(k + 1) ==
            if k == self then Members(n) - {self} - Members(k) else Members(n) - {self} - Members(k) - {k}
    ensures k != self ==> k in Members(n) - {self} - Members(k)
  {
    assert k in Members(n) && k !in Members(k) && Members(k + 1) == Members(k) + {k};
    hide Members;
    OneMoreMember(Members(n), Members(k), self, k);
  }

  lemma OneMoreMember(all: set<nat>, some: set<nat>, self: nat, k: nat)
    requires k in all && k !in some
    ensures some + {k} - {self} == if k == self then some - {self} else some - {self} + {k}
    ensures all - {self} - (some + {k}) == if k == self then all - {self} - some else all - {self} - some - {k}
  {}

  lemma AskingFacts(n: nat, self: nat, k: nat, s: N.State)
    requires Asking(n, self, k, s)
    ensures s.core.log != [] && s.elections[0].term == 1
  {}

  /** It does not ask itself. */
  lemma AskingSkips(n: nat, self: nat, s: N.State)
    requires self < n && Asking(n, self, self, s)
    ensures Asking(n, self, self + 1, s)
  {
    hide N.Inv, Members;
    NextMember(n, self, self);
  }

  lemma AskingHears(n: nat, self: nat, k: nat, s: N.State)
    requires self < n && k < n && k != self && Asking(n, self, k, s)
    ensures Asking(n, self, k + 1, N.Do(s, N.VoteReply(0, k, true)))
  {
    AskingFacts(n, self, k, s);
    hide N.Inv, N.Do, Members;
    NextMember(n, self, k);
    N.DoKeepsInv(s, N.VoteReply(0, k, true));
    N.StepKeepsPeers(s, N.VoteReply(0, k, true));
    VoteCounts(s, k);
  }

  lemma {:induction false} AskingRun(n: nat, self: nat, k: nat)
    requires self < n && k <= n
    ensures Asking(n, self, k, N.Run(N.NewState(self, n), Granting(k, self)))
  {
    hide Asking, N.Do;
    if k == 0 {
      AskingStarts(n, self);
    } else {
      AskingRun(n, self, k - 1);
      var front, step := Granting(k - 1, self), N.VoteReply(0, k - 1, true);
      var s := N.Run(N.NewState(self, n), front);
      if k - 1 == self {
        AskingSkips(n, self, s);
      } else {
        AskingHears(n, self, k - 1, s);
        assert (front + [step])[..|front|] == front;
      }
    }
  }

  /** A node that everybody votes for comes to lead in term 1. */
  lemma GrantedLeads(n: nat, self: nat)
    requires self < n
    ensures var s := N.Run(N.NewState(self, n), Granting(n, self)); s.core.role == N.Leader && s.core.term == 1
  {
    AskingRun(n, self, n);
    N.PeersOf(self, n);
    hide N.Run, N.CoreInv, N.ReplicationsInv, N.PipelineInv, N.WorkerInv;
  }

  /** The same steps, as events of one node among the others. */
  function At(i: nat, steps: seq<N.Step>): (r: seq<Event>)
    ensures |r| == |steps| && forall k :: 0 <= k < |steps| ==> r[k] == Event(i, steps[k])
  {
    seq(|steps|, k requires 0 <= k < |steps| => Event(i, steps[k]))
  }

  lemma {:induction false} RunAt(nodes: seq<N.State>, events: seq<Event>, i: nat, steps: seq<N.Step>)
    requires i < |nodes|
    ensures Run(nodes, events + At(i, steps)) == Run(nodes, events)[i := N.Run(Run(nodes, events)[i], steps)]
    decreases |steps|
  {
    hide N.Do;
    if steps == [] {
      assert events + At(i, steps) == events;
    } else {
      var front, last := steps[..|steps| - 1], steps[|steps| - 1];
      RunAt(nodes, events, i, front);
      assert (events + At(i, steps))[..|events| + |front|] == events + At(i, front);
    }
  }

  lemma {:induction false} GrantingGrants(peers: nat, self: nat)
    ensures forall k :: 0 <= k < |Granting(peers, self)| && Granting(peers, self)[k].VoteReply? ==>
              Granting(peers, self)[k].granted
  {
    if peers > 0 {
      GrantingGrants(peers - 1, self);
    }
  }

  lemma TwoLeaders(n: nat) returns (events: seq<Event>)
    requires n >= 2
    ensures AllGrant(events) && Leads(Run(Start(n), events), 0, 1) && Leads(Run(Start(n), events), 1, 1)
  {
    hide N.Run, Granting, Run, N.NewState;
    events := At(0, Granting(n, 0)) + At(1, Granting(n, 1));
    GrantedLeads(n, 0);
    GrantedLeads(n, 1);
    RunTwo(n);
    GrantingGrants(n, 0);
    GrantingGrants(n, 1);
  }

  lemma RunTwo(n: nat)
    requires n >= 2
    ensures var nodes := Run(Start(n), At(0, Granting(n, 0)) + At(1, Granting(n, 1)));
      nodes[0] == N.Run(N.NewState(0, n), Granting(n, 0)) && nodes[1] == N.Run(N.NewState(1, n), Granting(n, 1))
  {
    hide N.Run, Granting, N.NewState;
    var first := At(0, Granting(n, 0));
    assert [] + first == first && Run(Start(n), []) == Start(n);
    hide Run;
    RunAt(Start(n), [], 0, Granting(n, 0));
    RunAt(Start(n), first, 1, Granting(n, 1));
  }

  /** Every answer being a grant, two nodes can lead in one term exactly when there are two nodes. */
  lemma AlwaysGrantingExact(n: nat)
    ensures (exists events, i, j, term :: AllGrant(events) && i != j
               && Leads(Run(Start(n), events), i, term) && Leads(Run(Start(n), events), j, term)) <==> n >= 2
  {
    hide Run, AllGrant;
    if n >= 2 {
      var events := TwoLeaders(n);
    }
  }
}
