/** What the simulator's leader reads (src/engine/clusterSimulator.ts): the protocol of Cluster, with a
    store of SimStore behind every node. */
module ClusterReads {
  import opened Bytes
  import opened Entries
  import C = Cluster
  import L = ClusterLaws
  import S = SimStore

  /** The acknowledged writes that reach the stores: puts without a value, or with an empty one, do not. */
  function Reaching(acked: seq<C.LogEntry>): seq<C.LogEntry>
  {
    if acked == [] then []
    else Reaching(acked[..|acked| - 1]) + (if C.Applies(acked[|acked| - 1]) then [acked[|acked| - 1]] else [])
  }

  /** When nobody returns, a node that is live at the end of a run was live throughout, and has applied
      exactly the acknowledged writes, in the order of their acknowledgement, but for those puts. */
  lemma {:induction false} AppliedIsAcknowledged(start: C.Shard, ops: seq<C.Op>, j: nat)
    requires C.FailStopRun(start, ops)
    requires var s := C.Run(start, ops).0; j < |s.nodes| && C.Live(s.nodes[j])
    ensures var (s, acked) := C.Run(start, ops);
      j < |start.nodes| && C.Live(start.nodes[j]) && s.nodes[j].applied == start.nodes[j].applied + Reaching(acked)
    decreases |ops|
  {
    hide C.Apply, C.Live;
    if ops != [] {
      var (s, acked) := C.Run(start, ops[..|ops| - 1]);
      var op := ops[|ops| - 1];
      OneMore(s, op, j);
      AppliedIsAcknowledged(start, ops[..|ops| - 1], j);
      var a := C.Acknowledged(s, op);
      if a.Some? {
        ReachingOneMore(acked, a.value);
      }
    }
  }

  lemma OneMore(s: C.Shard, op: C.Op, j: nat)
    requires C.FailStop(s, op) && j < |C.Apply(s, op).nodes| && C.Live(C.Apply(s, op).nodes[j])
    ensures j < |s.nodes| && C.Live(s.nodes[j])
    ensures var a := C.Acknowledged(s, op);
      C.Apply(s, op).nodes[j].applied ==
      s.nodes[j].applied + (if a.Some? && C.Applies(a.value) then [a.value] else [])
  {
    hide C.LiveCount;
  }

  lemma ReachingOneMore(acked: seq<C.LogEntry>, e: C.LogEntry)
    ensures Reaching(acked + [e]) == Reaching(acked) + (if C.Applies(e) then [e] else [])
  {
    assert (acked + [e])[..|acked|] == acked;
  }

  // ----- the store behind a node

  /** The record is what lsm.put or lsm.delete writes for the entry, at whatever time. */
  predicate SameWrite(e: Entry, c: C.LogEntry)
  {
    e.key == c.key && (if c.command == C.Delete then e.tombstone else !e.tombstone && c.value == Some(e.value))
  }

  /** The store's writes: the initial data, and then the applied entries, each once and in order. */
  predicate Mirrors(writes: seq<Entry>, data: seq<Entry>, applied: seq<C.LogEntry>)
  {
    && |writes| == |data| + |applied|
    && writes[..|data|] == data
    && forall m :: 0 <= m < |applied| ==> SameWrite(writes[|data| + m], applied[m])
  }

  function LastOf(es: seq<C.LogEntry>, k: Bytes): Option<C.LogEntry>
  {
    if es == [] then None
    else if es[|es| - 1].key == k then Some(es[|es| - 1])
    else LastOf(es[..|es| - 1], k)
  }

  lemma {:induction false} LatestMirrored(writes: seq<Entry>, data: seq<Entry>, applied: seq<C.LogEntry>, k: Bytes)
    requires Mirrors(writes, data, applied)
    ensures var w, last := Latest(writes, k), LastOf(applied, k);
      if last.Some? then w.Some? && SameWrite(w.value, last.value) else w == Latest(data, k)
    decreases |applied|
  {
    hide SameWrite;
    if applied == [] {
      assert writes == data;
    } else {
      var n := |applied| - 1;
      assert writes[..|writes| - 1][..|data|] == writes[..|data|];
      LatestMirrored(writes[..|writes| - 1], data, applied[..n], k);
      SameKey(writes[|data| + n], applied[n]);
    }
  }

  lemma SameKey(e: Entry, c: C.LogEntry)
    requires SameWrite(e, c)
    ensures e.key == c.key
  {}

  lemma {:induction false} LastReaching(acked: seq<C.LogEntry>, k: Bytes)
    ensures LastOf(Reaching(acked), k).Some? ==> C.Applies(LastOf(Reaching(acked), k).value)
    ensures LastOf(acked, k).Some? && C.Applies(LastOf(acked, k).value) ==>
            LastOf(Reaching(acked), k) == LastOf(acked, k)
    ensures LastOf(acked, k).None? ==> LastOf(Reaching(acked), k).None?
  {
    hide C.Applies;
    if acked != [] {
      var front, last := acked[..|acked| - 1], acked[|acked| - 1];
      LastReaching(front, k);
      assert (Reaching(front) + [last])[..|Reaching(front)|] == Reaching(front);
      assert Reaching(front) + [] == Reaching(front);
    }
  }

  // ----- reading

  /** The answer of GET is what this write left behind. */
  predicate Shows(answer: Option<Entry>, c: C.LogEntry)
  {
    if c.command == C.Delete then answer.None? else answer.Some? && c.value == Some(answer.value.value)
  }

  /** The same, told by the acknowledged entries. */
  lemma LeaderReadsEntries(n: nat, term: nat, ops: seq<C.Op>, data: seq<Entry>, stored: seq<S.Op>, k: Bytes)
    requires C.FailStopRun(C.Init(n, term), ops) && C.HasLeader(C.Run(C.Init(n, term), ops).0)
    requires var s := C.Run(C.Init(n, term), ops).0;
      Mirrors(S.Run(stored).1, data, s.nodes[s.leaderId.value].applied)
    requires forall i :: 0 <= i < |stored| ==> S.StepFaithful(S.Run(stored[..i]).0, stored[i])
    requires forall e :: e in data ==> !e.tombstone && e.value != []
    ensures var answer, acked := S.Get(S.Run(stored).0, k), C.Run(C.Init(n, term), ops).1;
      var last, reaching := LastOf(acked, k), LastOf(Reaching(acked), k);
      && (last.Some? ==> (Shows(answer, last.value) <==> C.Applies(last.value)))
      && (reaching.Some? ==> Shows(answer, reaching.value))
      && (reaching.None? ==> answer == Latest(data, k))
  {
    hide C.Run, C.FailStopRun, S.Run, S.StepFaithful, S.Get, C.Applies, Mirrors, Latest, Reaching;
    var (s, acked) := C.Run(C.Init(n, term), ops);
    var l := s.leaderId.value;
    AppliedIsAcknowledged(C.Init(n, term), ops, l);
    NothingApplied(n, term, l, Reaching(acked));
    StoreAnswers(stored, k);
    LatestMirrored(S.Run(stored).1, data, Reaching(acked), k);
    LastReaching(acked, k);
    LatestData(data, k);
    hide LastOf;
    if LastOf(Reaching(acked), k).Some? {
      StoredIsNotEmpty(Latest(S.Run(stored).1, k).value, LastOf(Reaching(acked), k).value);
    }
    AppliesShows(S.Get(S.Run(stored).0, k), LastOf(acked, k));
  }

  lemma NothingApplied(n: nat, term: nat, l: nat, more: seq<C.LogEntry>)
    requires l < n
    ensures C.Init(n, term).nodes[l].applied + more == more
  {}

  lemma StoreAnswers(stored: seq<S.Op>, k: Bytes)
    requires forall i :: 0 <= i < |stored| ==> S.StepFaithful(S.Run(stored[..i]).0, stored[i])
    ensures S.Get(S.Run(stored).0, k) == Live(Latest(S.Run(stored).1, k))
  {
    hide S.Run, S.StepFaithful, S.Get, Latest;
    S.RunsExact(stored);
    assert S.CorrectAfter(stored, |stored|);
    assert stored[..|stored|] == stored;
  }

  lemma LatestData(data: seq<Entry>, k: Bytes)
    requires forall e :: e in data ==> !e.tombstone && e.value != []
    ensures Live(Latest(data, k)) == Latest(data, k)
    ensures Latest(data, k).Some? ==> Latest(data, k).value.value != []
  {
    LatestIn(data, k);
  }

  lemma {:induction false} LatestIn(ws: seq<Entry>, k: Bytes)
    ensures Latest(ws, k).Some? ==> Latest(ws, k).value in ws
  {
    if ws != [] {
      LatestIn(ws[..|ws| - 1], k);
    }
  }

  lemma StoredIsNotEmpty(e: Entry, c: C.LogEntry)
    requires SameWrite(e, c) && C.Applies(c)
    ensures !e.tombstone ==> e.value != []
  {}

  /** A put that does not reach the stores is never what is shown, as no stored value is empty. */
  lemma AppliesShows(answer: Option<Entry>, last: Option<C.LogEntry>)
    requires answer.Some? ==> answer.value.value != []
    ensures last.Some? && !C.Applies(last.value) ==> !Shows(answer, last.value)
  {}

  // ----- reading, told by the queries

  /** The query is a deletion, or a put with a value that is not empty. */
  predicate Effective(q: C.Op)
    requires q.Query?
  {
    q.command == C.Delete || q.value !in {None, Some([])}
  }

  /** The last query of the key among these, or the last effective one. */
  function LastQuery(queries: seq<C.Op>, k: Bytes, effective: bool): (r: Option<C.Op>)
    requires forall i :: 0 <= i < |queries| ==> queries[i].Query?
    ensures r.Some? ==> r.value.Query? && r.value.key == k && (effective ==> Effective(r.value))
  {
    if queries == [] then None
    else
      var q := queries[|queries| - 1];
      if q.key == k && (effective ==> Effective(q)) then Some(q)
      else LastQuery(queries[..|queries| - 1], k, effective)
  }

  /** The answer of GET is what the query asked for. */
  predicate Answers(answer: Option<Entry>, q: C.Op)
    requires q.Query?
  {
    if q.command == C.Delete then answer.None? else answer.Some? && q.value == Some(answer.value.value)
  }

  predicate Matching(e: Option<C.LogEntry>, q: Option<C.Op>)
  {
    if e.None? then q.None? else q.Some? && L.Carries(e.value, q.value)
  }

  ghost predicate AllCarried(acked: seq<C.LogEntry>, queries: seq<C.Op>)
  {
    |acked| == |queries| && forall i :: 0 <= i < |queries| ==> queries[i].Query? && L.Carries(acked[i], queries[i])
  }

  lemma {:induction false} LastCarried(acked: seq<C.LogEntry>, queries: seq<C.Op>, k: Bytes)
    requires AllCarried(acked, queries)
    ensures Matching(LastOf(acked, k), LastQuery(queries, k, false))
    decreases |acked|
  {
    if acked != [] {
      LastCarried(acked[..|acked| - 1], queries[..|acked| - 1], k);
    }
  }

  lemma {:induction false} EffectiveCarried(acked: seq<C.LogEntry>, queries: seq<C.Op>, k: Bytes)
    requires AllCarried(acked, queries)
    ensures Matching(LastOf(Reaching(acked), k), LastQuery(queries, k, true))
    decreases |acked|
  {
    if acked != [] {
      var n := |acked| - 1;
      EffectiveCarried(acked[..n], queries[..n], k);
      assert acked == acked[..n] + [acked[n]];
      ReachingOneMore(acked[..n], acked[n]);
      LastBehind(Reaching(acked[..n]), acked[n], k);
      assert C.Applies(acked[n]) <==> Effective(queries[n]);
      hide Reaching, LastOf, C.Applies, Effective;
      assert Reaching(acked[..n]) + [] == Reaching(acked[..n]);
    }
  }

  lemma LastBehind(es: seq<C.LogEntry>, e: C.LogEntry, k: Bytes)
    ensures LastOf(es + [e], k) == if e.key == k then Some(e) else LastOf(es, k)
  {
    assert (es + [e])[..|es|] == es;
  }

  /** In a run in which nobody returns, with a faithful history of compactions behind the leader, GET at
      the leader answers a key as its last acknowledged PUT or DELETE query asked exactly when that query is
      effective; it always answers as the last acknowledged effective one asked, and with the initial data
      if there is none. */
  lemma LeaderReads(n: nat, term: nat, ops: seq<C.Op>, data: seq<Entry>, stored: seq<S.Op>, k: Bytes)
    requires C.FailStopRun(C.Init(n, term), ops) && C.HasLeader(C.Run(C.Init(n, term), ops).0)
    requires var s := C.Run(C.Init(n, term), ops).0;
      Mirrors(S.Run(stored).1, data, s.nodes[s.leaderId.value].applied)
    requires forall i :: 0 <= i < |stored| ==> S.StepFaithful(S.Run(stored[..i]).0, stored[i])
    requires forall e :: e in data ==> !e.tombstone && e.value != []
    ensures var answer, queries := S.Get(S.Run(stored).0, k), L.AckedQueries(C.Init(n, term), ops);
      var last, effective := LastQuery(queries, k, false), LastQuery(queries, k, true);
      && (last.Some? ==> (Answers(answer, last.value) <==> Effective(last.value)))
      && (effective.Some? ==> Answers(answer, effective.value))
      && (effective.None? ==> answer == Latest(data, k))
  {
    hide C.Run, C.FailStopRun, S.Run, S.StepFaithful, S.Get, Mirrors, Latest, Reaching, LastOf, LastQuery;
    hide L.AckedQueries;
    LeaderReadsEntries(n, term, ops, data, stored, k);
    L.AckedAreQueries(C.Init(n, term), ops);
    LastCarried(C.Run(C.Init(n, term), ops).1, L.AckedQueries(C.Init(n, term), ops), k);
    EffectiveCarried(C.Run(C.Init(n, term), ops).1, L.AckedQueries(C.Init(n, term), ops), k);
  }
}
