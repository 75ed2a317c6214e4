/** What OpenEngine rebuilds after a crash (go/pkg/lsm/engine.go, go/pkg/lsm/wal.go). */
module Recovery {
  import opened Bytes
  import opened Entries
  import opened EngineAges
  import opened EngineModel
  import opened EngineRuns
  import EngineLimits
  import Compaction
  import SkipList
  import Wal

  /** The installing step truncates the log: no rotated memtable is left. */
  predicate Resets(s: State, step: Step)
  {
    step.FlushInstall? && s.flushing.Some? && s.flushing.value.entries != []
    && Remove(s.immutable, s.flushing.value.id) == []
  }

  /** A trace in which no flush has truncated the log yet. */
  ghost predicate IsTraceBeforeReset(states: seq<State>, steps: seq<Step>)
  {
    IsTrace(states, steps) && forall i :: 0 <= i < |steps| ==> !Resets(states[i], steps[i])
  }

  lemma {:induction false} LogIsHistory(states: seq<State>, steps: seq<Step>, i: nat)
    requires IsTraceBeforeReset(states, steps) && i < |states|
    ensures states[i].wal == states[i].history
    decreases i
  {
    if i > 0 {
      LogIsHistory(states, steps, i - 1);
      StepKeepsLog(states[i - 1], steps[i - 1]);
    }
  }

  lemma StepKeepsLog(s: State, step: Step)
    requires Enabled(s, step) && !Resets(s, step) && s.wal == s.history
    ensures Next(s, step).wal == Next(s, step).history
  {
    hide Upsert;
  }

  /** OpenEngine: replay the recovered records, and load the table files found, whatever their order. */
  function Reopened(records: seq<Entry>, tables: seq<Table>): State
  {
    State(Replay([], records), [], [], None, tables, [], [], 0, records, records)
  }

  /** A reopened engine has no level 1, so no lookup tests a key range: only the entries of the tables
      count, and not the ranges that their readers report. */
  lemma OnlyEntriesCount(records: seq<Entry>, ts: seq<Table>, us: seq<Table>, k: Bytes)
    requires TableLayers(ts) == TableLayers(us)
    ensures Locate(Reopened(records, ts), k) == Locate(Reopened(records, us), k)
  {
    hide FindInLayers;
    assert Memory(Reopened(records, ts)) == Memory(Reopened(records, us));
  }

  /** The tables whose files the engine in this state has written or is writing: both levels, the inputs
      and the output of every compaction under way, and the output of the flush under way. */
  ghost predicate HasFile(s: State, t: Table)
  {
    || t in s.l0 || t in s.l1
    || (exists j :: j in s.jobs && (t in j || t == TableOf(Compaction.Merge(TableLayers(j), true))))
    || (s.flushing.Some? && t == TableOf(s.flushing.value.entries))
  }

  lemma TableFromHistory(s: State, t: Table)
    requires Inv(s) && HasFile(s, t)
    ensures FromHistory(t.entries, s.history)
  {
    hide Ages, Older, Apart, Compaction.Merge, IsSuffix, Increasing, Ascending;
    if t in s.l0 {
      InTables(s.l0, t);
    } else if t in s.l1 {
      InTables(s.l1, t);
    } else if j :| j in s.jobs && (t in j || t == TableOf(Compaction.Merge(TableLayers(j), true))) {
      assert GoodJob(s, j);
      if t in j {
        InTables(j, t);
      } else {
        MergedIsGood(s, j);
      }
    } else {
      FlushingAt(s);
      InFrozensOf(s.immutable, s.flushing.value);
    }
  }

  lemma InTables(ts: seq<Table>, t: Table)
    requires t in ts
    ensures forall e :: e in t.entries ==> e in Tables(ts)
  {
    forall e | e in t.entries ensures e in Tables(ts) {
      var i :| 0 <= i < |ts| && ts[i] == t;
      assert e in TableLayers(ts)[i];
      Compaction.InFlatten(TableLayers(ts), e);
    }
  }

  lemma {:induction false} HistoryGrows(states: seq<State>, steps: seq<Step>, j: nat, i: nat)
    requires IsTrace(states, steps) && j <= i < |states|
    ensures states[j].history <= states[i].history
    decreases i
  {
    if j < i {
      HistoryGrows(states, steps, j, i - 1);
      StepGrowsHistory(states[i - 1], steps[i - 1]);
      hide Next;
    }
  }

  lemma StepGrowsHistory(s: State, step: Step)
    requires Enabled(s, step)
    ensures s.history <= Next(s, step).history
  {
    hide Upsert, Compaction.Merge;
  }

  /** Whatever table files a crash leaves, finished or replaced or not yet installed, now or at any
      earlier point, hold records that were written. */
  lemma FilesFromHistory(states: seq<State>, steps: seq<Step>, i: nat, tables: seq<Table>)
    requires IsTrace(states, steps) && i < |states|
    requires forall t :: t in tables ==> exists j :: 0 <= j <= i && HasFile(states[j], t)
    ensures FromHistory(Tables(tables), states[i].history)
  {
    hide HasFile, Inv, Enabled, Next, Ascending;
    forall e | e in Tables(tables) ensures e in states[i].history {
      Compaction.InFlatten(TableLayers(tables), e);
      var m :| 0 <= m < |tables| && e in TableLayers(tables)[m];
      var t := tables[m];
      assert t in tables;
      var j :| 0 <= j <= i && HasFile(states[j], t);
      TracesKeepInv(states, steps, j);
      TableFromHistory(states[j], t);
      HistoryGrows(states, steps, j, i);
    }
  }

  lemma {:induction false} LatestNone(ws: seq<Entry>, k: Bytes)
    ensures Latest(ws, k).None? <==> forall w :: w in ws ==> w.key != k
    ensures Latest(ws, k).Some? ==> Latest(ws, k).value in ws
  {
    if ws != [] {
      LatestNone(ws[..|ws| - 1], k);
      assert ws == ws[..|ws| - 1] + [ws[|ws| - 1]];
    }
  }

  lemma {:induction false} LatestLogged(ws: seq<Entry>, k: Bytes)
    ensures Latest(Wal.AllLogged(ws), k) ==
            if Latest(ws, k).Some? then Some(Wal.Logged(Latest(ws, k).value)) else None
  {
    hide Wal.Logged;
    if ws != [] {
      LatestLogged(ws[..|ws| - 1], k);
      assert Wal.AllLogged(ws)[..|ws| - 1] == Wal.AllLogged(ws[..|ws| - 1]);
      LoggedKey(ws[|ws| - 1]);
    }
  }

  lemma LoggedKey(e: Entry)
    ensures Wal.Logged(e).key == e.key
  {}

  /** The replayed memtable has every key that any table file has, so it alone decides. */
  lemma ReopenedLookup(history: seq<Entry>, tables: seq<Table>, k: Bytes)
    requires FromHistory(Tables(tables), history)
    ensures Locate(Reopened(Wal.AllLogged(history), tables), k) == Latest(Wal.AllLogged(history), k)
  {
    hide Wal.Logged, Replay;
    var records := Wal.AllLogged(history);
    var r := Reopened(records, tables);
    MemoryTop(r, k);
    assert FrozenLayers([]) == [];
    ReplayIsLatest(records);
    LatestLogged(history, k);
    LatestNone(history, k);
    Compaction.LayersReversed(TableLayers(tables), k);
  }

  /** Crash before the first reset, at any byte of the frame being written: recovery succeeds, and the
      reopened engine answers from exactly the records framed in full, whichever table files it finds. */
  lemma CrashBeforeReset(states: seq<State>, steps: seq<Step>, i: nat, torn: Entry, n: nat, tables: seq<Table>)
    requires IsTraceBeforeReset(states, steps) && i < |states|
    requires Wal.AllLoggable(states[i].history) && Wal.Loggable(torn) && n < |Wal.Frame(torn)|
    requires FromHistory(Tables(tables), states[i].history)
    ensures var s := states[i]; var records := Wal.AllLogged(s.history);
      && Wal.RecoverFile(Wal.Log(s.wal) + Wal.Frame(torn)[..n]) == Wal.Recovered(records)
      && forall k :: Locate(Reopened(records, tables), k) == Latest(records, k)
  {
    hide Wal.RecoverFile, Wal.Frame, Wal.Loggable, Wal.Logged, Replay, Locate;
    var s := states[i];
    LogIsHistory(states, steps, i);
    RecoverWithTail(s.history, torn, n);
    forall k ensures Locate(Reopened(Wal.AllLogged(s.history), tables), k) == Latest(Wal.AllLogged(s.history), k) {
      ReopenedLookup(s.history, tables, k);
    }
  }

  lemma RecoverWithTail(ws: seq<Entry>, torn: Entry, n: nat)
    requires Wal.AllLoggable(ws) && Wal.Loggable(torn) && n < |Wal.Frame(torn)|
    ensures Wal.RecoverFile(Wal.Log(ws) + Wal.Frame(torn)[..n]) == Wal.Recovered(Wal.AllLogged(ws))
  {
    hide Wal.RecoverFile, Wal.Frame, Wal.Loggable, Wal.Logged;
    Wal.RecoverTorn(torn, n);
    Wal.RecoverLog(ws, Wal.Frame(torn)[..n]);
    assert Wal.AllLogged(ws) + [] == Wal.AllLogged(ws);
  }

  /** For a key, the reopened engine returns what it returned before exactly unless the key's last
      write was a live empty value, which the log cannot tell from a deletion. */
  lemma ReopenedExact(history: seq<Entry>, tables: seq<Table>, k: Bytes)
    requires FromHistory(Tables(tables), history) && Clean(history)
    ensures var last := Latest(history, k);
      Get(Reopened(Wal.AllLogged(history), tables), k) == Live(last) <==>
      !(last.Some? && !last.value.tombstone && last.value.value == [])
  {
    hide Locate, Reopened;
    ReopenedLookup(history, tables, k);
    LatestLogged(history, k);
    LatestNone(history, k);
    if Latest(history, k).Some? {
      Wal.LoggedIsFaithful(Latest(history, k).value);
    }
  }

  // ----- after a reset

  /** The directory lists files by name: those of level 0 by the numbers that the one flush worker gave
      them, then those of level 1 by numbers given when a compaction started, in whatever order it was
      installed. All are loaded as level 0, so the last of them is searched first. */
  function ByName(s: State, ones: seq<Table>): seq<Table> { s.l0 + ones }

  /** What a crash keeps of a key. If the log has it, its last logged record must not be a live empty
      value. If not, then a record only memory has must be a deletion of something no table holds live;
      a record of level 0 must not stand behind level 1, which is loaded as newer; and of several level 1
      tables that have the key, the newest must hold what the oldest in range answered. */
  ghost predicate KeptByCrash(s: State, ones: seq<Table>, k: Bytes)
  {
    var logged := Latest(s.wal, k);
    var m, c := FindInLayers(Memory(s), k), FindInLayers(Reversed(TableLayers(s.l0)), k);
    var below := FindInLayers(Reversed(TableLayers(ones)), k);
    if logged.Some? then logged.value.tombstone || logged.value.value != []
    else if m.Some? then m.value.tombstone && Live(c).None? && below.None?
    else if c.Some? then below.None?
    else below == FindL1(s.l1, k)
  }

  /** Whatever files a crash leaves, in whatever order they load, and whatever has become of other keys:
      a key that was answered right is kept, if logged, unless its last logged record is a live empty
      value, and otherwise exactly if the last loaded file that has it answers as memory and levels did. */
  lemma CrashWithAnyFiles(s: State, tables: seq<Table>, k: Bytes)
    requires IsSuffix(s.wal, s.history) && Clean(s.history) && Get(s, k) == Live(Latest(s.history, k))
    ensures Get(Reopened(Wal.AllLogged(s.wal), tables), k) == Live(Latest(s.history, k)) <==>
            if Latest(s.wal, k).Some? then Latest(s.wal, k).value.tombstone || Latest(s.wal, k).value.value != []
            else Live(FindInLayers(Reversed(TableLayers(tables)), k)) == Live(Locate(s, k))
  {
    hide Reopened, FindInLayers, Locate, Latest, TableLayers, Reversed, IsSuffix;
    if Latest(s.wal, k).Some? {
      LoggedKeyKept(s, tables, k);
    } else {
      UnloggedLookup(s.wal, tables, k);
    }
  }

  /** At any point of any trace, with any number of resets behind it and any part of a frame being
      written, recovery succeeds, and the engine reopened from the log and the installed tables answers
      a key that was answered right before the crash right again exactly when KeptByCrash says so. */
  lemma CrashExact(s: State, ones: seq<Table>, torn: Entry, n: nat, k: Bytes)
    requires (forall t :: t in ones ==> t in s.l1) && Inv(s) && Clean(s.history)
    requires Get(s, k) == Live(Latest(s.history, k))
    requires Wal.AllLoggable(s.wal) && Wal.Loggable(torn) && n < |Wal.Frame(torn)|
    ensures Wal.RecoverFile(Wal.Log(s.wal) + Wal.Frame(torn)[..n]) == Wal.Recovered(Wal.AllLogged(s.wal))
    ensures Get(Reopened(Wal.AllLogged(s.wal), ByName(s, ones)), k) == Live(Latest(s.history, k)) <==>
            KeptByCrash(s, ones, k)
  {
    hide Inv, Reopened, Wal.AllLoggable, Wal.Loggable, Wal.Frame, Wal.RecoverFile, Wal.Log, ByName, Locate;
    RecoverWithTail(s.wal, torn, n);
    InvSuffix(s);
    if Latest(s.wal, k).Some? {
      LoggedKeyKept(s, ByName(s, ones), k);
    } else {
      OtherKeyKept(s, ones, k);
    }
  }

  lemma InvSuffix(s: State)
    requires Inv(s)
    ensures IsSuffix(s.wal, s.history)
  {}

  lemma {:induction false} LatestSuffix(a: seq<Entry>, b: seq<Entry>, k: Bytes)
    requires IsSuffix(a, b) && Latest(a, k).Some?
    ensures Latest(b, k) == Latest(a, k)
    decreases |b|
  {
    if a[|a| - 1].key != k {
      LatestSuffix(a[..|a| - 1], b[..|b| - 1], k);
    }
  }

  lemma LoggedKeyKept(s: State, tables: seq<Table>, k: Bytes)
    requires IsSuffix(s.wal, s.history) && Clean(s.history) && Latest(s.wal, k).Some?
    ensures Get(Reopened(Wal.AllLogged(s.wal), tables), k) == Live(Latest(s.history, k)) <==>
            Latest(s.wal, k).value.tombstone || Latest(s.wal, k).value.value != []
  {
    hide Locate, Reopened;
    LatestSuffix(s.wal, s.history, k);
    LatestNone(s.history, k);
    hide Latest, IsSuffix;
    LoggedLookup(s.wal, tables, k);
    Wal.LoggedIsFaithful(Latest(s.wal, k).value);
  }

  /** A key that the log has is answered by the replayed memtable. */
  lemma LoggedLookup(ws: seq<Entry>, tables: seq<Table>, k: Bytes)
    requires Latest(ws, k).Some?
    ensures Locate(Reopened(Wal.AllLogged(ws), tables), k) == Some(Wal.Logged(Latest(ws, k).value))
  {
    hide Replay, Latest, FindInLayers, TableLayers, Reversed, Wal.Logged;
    var r := Reopened(Wal.AllLogged(ws), tables);
    LatestLogged(ws, k);
    ReplayIsLatest(Wal.AllLogged(ws));
    MemoryTop(r, k);
  }

  /** A key that the log does not have is looked up in the files. */
  lemma UnloggedLookup(ws: seq<Entry>, tables: seq<Table>, k: Bytes)
    requires Latest(ws, k).None?
    ensures Locate(Reopened(Wal.AllLogged(ws), tables), k) == FindInLayers(Reversed(TableLayers(tables)), k)
  {
    hide Replay, Latest, FindInLayers, TableLayers, Reversed;
    var r := Reopened(Wal.AllLogged(ws), tables);
    LatestLogged(ws, k);
    ReplayIsLatest(Wal.AllLogged(ws));
    MemoryTop(r, k);
    NothingAbove(k);
    assert FindL1([], k) == None;
  }

  lemma OtherKeyKept(s: State, ones: seq<Table>, k: Bytes)
    requires (forall t :: t in ones ==> t in s.l1) && Inv(s)
    requires Get(s, k) == Live(Latest(s.history, k)) && Latest(s.wal, k).None?
    ensures Get(Reopened(Wal.AllLogged(s.wal), ByName(s, ones)), k) == Live(Latest(s.history, k)) <==>
            KeptByCrash(s, ones, k)
  {
    hide Inv, Reopened, FindInLayers, Memory, Latest, TableLayers, Reversed, FindL1;
    UnloggedLookup(s.wal, ByName(s, ones), k);
    TablesConcat(s.l0, ones);
    ReversedConcat(TableLayers(s.l0), TableLayers(ones));
    LayersConcat(Reversed(TableLayers(ones)), Reversed(TableLayers(s.l0)), k);
    AnswersDiffer(s, ones, k);
  }

  lemma SomeTables(ts: seq<Table>, some: seq<Table>)
    requires forall t :: t in some ==> t in ts
    ensures forall e :: e in Tables(some) ==> e in Tables(ts)
  {
    forall e | e in Tables(some) ensures e in Tables(ts) {
      assert e in Flatten(TableLayers(some));
      Compaction.InFlatten(TableLayers(some), e);
      var i :| 0 <= i < |some| && e in TableLayers(some)[i];
      assert some[i] in some;
      InTables(ts, some[i]);
    }
  }

  /** The layers never answer with one and the same record, and level 1 answers with live ones. */
  lemma AnswersDiffer(s: State, ones: seq<Table>, k: Bytes)
    requires (forall t :: t in ones ==> t in s.l1) && Inv(s)
    ensures var m, c := FindInLayers(Memory(s), k), FindInLayers(Reversed(TableLayers(s.l0)), k);
      var below := FindInLayers(Reversed(TableLayers(ones)), k);
      && (m.Some? ==> m != c && m != below) && (c.Some? ==> c != below)
      && (below.Some? ==> !below.value.tombstone)
      && (FindL1(s.l1, k).Some? ==> !FindL1(s.l1, k).value.tombstone)
  {
    hide FindInLayers, Reversed, Ages, GoodTable, GoodQueue, Increasing, IsSuffix, Ascending, FindL1, TableLayers;
    MemoryTop(s, k);
    Compaction.LayersReversed(FrozenLayers(s.immutable), k);
    Compaction.LayersReversed(TableLayers(s.l0), k);
    Compaction.LayersReversed(TableLayers(ones), k);
    SomeTables(s.l1, ones);
    if FindL1(s.l1, k).Some? {
      EngineLimits.FindL1Member(s.l1, k);
    }
  }

  lemma NothingAbove(k: Bytes)
    ensures FindInLayers(Reversed([]), k) == None && FrozenLayers([]) == []
  {}

  /** The replay loop of OpenEngine rebuilds the memtable from the recovered records. */
  method ReplayLog(records: seq<Entry>, heights: seq<nat>) returns (m: SkipList.Memtable)
    requires |heights| == |records| && forall i :: 0 <= i < |heights| ==> 1 <= heights[i] <= 16
    requires Clean(records)
    ensures fresh(m.Repr) && m.Valid() && m.Contents() == Replay([], records)
  {
    hide SkipList.Memtable.Contents, SkipList.Memtable.Shaped, SkipList.Memtable.Linked;
    hide SkipList.Memtable.Counted, Upsert;
    m := new SkipList.Memtable();
    for i := 0 to |records|
      invariant fresh(m.Repr) && m.Valid()
      invariant m.Owned() && |m.nodes| > 0 && m.Contents() == Replay([], records[..i])
    {
      var e := records[i];
      assert records[..i + 1][..i] == records[..i];
      assert e in records;
      if e.tombstone {
        m.Delete(e.key, e.ts, heights[i]);
      } else {
        m.Put(e.key, e.value, e.ts, heights[i]);
      }
    }
    assert records[..|records|] == records;
  }

  // ----- runs that lose or bring back a record

  /** The flush of a rotated memtable empties the log, the next memtable's record with it. */
  lemma ResetLosesWrite(a: Entry, b: Entry) returns (states: seq<State>, steps: seq<Step>, s: State)
    requires a == Entry([1], [10], false, 1) && b == Entry([2], [20], false, 2)
    ensures steps == [Write(a, true), Write(b, false), FlushTake, FlushInstall] && Reaches(states, steps, s)
    ensures Correct(s) && s.wal == [] && Get(s, [2]) == Some(b)
    ensures Get(Reopened(Wal.AllLogged(s.wal), ByName(s, s.l1)), [2]) == None
  {
    hide Reaches, EngineLimits.FlushHarmless, Get, Correct, Inv;
    var f := Frozen(0, [a]);
    var s1 := State([], [f], [f], None, [], [], [], 1, [a], [a]);
    var s2 := s1.(memtable := [b], wal := [a, b], history := [a, b]);
    var s3 := s2.(flushing := Some(f), queue := []);
    s := State([b], [], [], None, [One(a)], [], [], 1, [], [a, b]);
    FourSteps(a, b, f, s1, s2, s3, s);
    hide Next;
    states, steps := Start();
    states, steps := Extend(states, steps, INIT, Write(a, true));
    states, steps := Extend(states, steps, s1, Write(b, false));
    states, steps := Extend(states, steps, s2, FlushTake);
    EngineLimits.OldestIsHarmless(s3);
    states, steps := Extend(states, steps, s3, FlushInstall);
    ReachesCorrect(states, steps, s);
    LostAfterReset(s, a, b);
  }

  lemma FourSteps(a: Entry, b: Entry, f: Frozen, s1: State, s2: State, s3: State, s4: State)
    requires a.ts < b.ts && f == Frozen(0, [a])
    requires s1 == State([], [f], [f], None, [], [], [], 1, [a], [a])
    requires s2 == s1.(memtable := [b], wal := [a, b], history := [a, b]) && s3 == s2.(flushing := Some(f), queue := [])
    requires s4 == State([b], [], [], None, [One(a)], [], [], 1, [], [a, b])
    ensures Enabled(INIT, Write(a, true)) && Next(INIT, Write(a, true)) == s1
    ensures Enabled(s1, Write(b, false)) && Next(s1, Write(b, false)) == s2
    ensures Enabled(s2, FlushTake) && Next(s2, FlushTake) == s3
    ensures Enabled(s3, FlushInstall) && Next(s3, FlushInstall) == s4
  {
    hide TableOf;
    assert Upsert([], a) == [a] && Upsert([], b) == [b] && [f][1..] == [];
  }

  lemma ReachesCorrect(states: seq<State>, steps: seq<Step>, s: State)
    requires Reaches(states, steps, s)
    ensures Correct(s) && Inv(s)
  {
    hide EngineLimits.Harmless, Enabled, Next, Correct, Inv;
    EngineLimits.HarmlessPrefix(states, steps, |steps|);
    TracesKeepInv(states, steps, |steps|);
  }

  lemma LostAfterReset(s: State, a: Entry, b: Entry)
    requires s == State([b], [], [], None, [One(a)], [], [], 1, [], [a, b]) && a.key == [1] && b.key == [2]
    requires !b.tombstone
    ensures Get(s, [2]) == Some(b) && Get(Reopened(Wal.AllLogged([]), ByName(s, s.l1)), [2]) == None
  {
    MemoryTop(s, [2]);
    assert ByName(s, s.l1) == [One(a)];
    UnloggedLookup([], [One(a)], [2]);
    OneTable(One(a));
    SingleLayer([a], [], [2]);
    assert [] + [[a]] == [[a]] && FindInLayers([], [2]) == None;
  }

  /** A key that is rewritten while level 1 holds it, and flushed: the reopened engine loads the level 1
      file last, and answers with the older record. */
  lemma ReopenReadsLevel1(a: Entry, b: Entry, again: Entry) returns (states: seq<State>, steps: seq<Step>, s: State)
    requires a == Entry([1], [10], false, 1) && b == Entry([2], [20], false, 2) && again == Entry([1], [11], false, 3)
    ensures steps == TwoSteps(a, b) + [CompactInstall(0)] + [Write(again, true), FlushTake, FlushInstall]
    ensures Reaches(states, steps, s) && Correct(s) && Get(s, [1]) == Some(again)
    ensures Get(Reopened(Wal.AllLogged(s.wal), ByName(s, s.l1)), [1]) == Some(a)
  {
    hide Reaches, Get, One, Both, TwoSteps;
    states, steps := TwoTables(a, b);
    states, steps := FirstCompaction(states, steps, a, b, [a, b]);
    states, steps := WriteAndFlush(states, steps, [], [Both(a, b)], [], 2, [a, b], again);
    assert [] + [One(again)] == [One(again)] && [a, b] + [again] == [a, b, again];
    s := Idle([One(again)], [Both(a, b)], [], 3, [a, b, again]);
    ReachesCorrect(states, steps, s);
    OldLevel1(s, a, b, again);
  }

  lemma OldLevel1(s: State, a: Entry, b: Entry, again: Entry)
    requires s == Idle([One(again)], [Both(a, b)], [], 3, [a, b, again]) && Correct(s)
    requires a.key == again.key == [1] && b.key == [2] && !a.tombstone && !again.tombstone && !b.tombstone
    ensures Get(s, [1]) == Some(again) && Get(Reopened(Wal.AllLogged(s.wal), ByName(s, s.l1)), [1]) == Some(a)
  {
    hide Both, Locate;
    assert Get(s, [1]) == Live(Latest(s.history, [1]));
    assert ByName(s, s.l1) == [One(again)] + [Both(a, b)];
    UnloggedLookup([], ByName(s, s.l1), [1]);
    MergeOfTwo(a, b);
    OneTable(Both(a, b));
    TablesConcat([One(again)], [Both(a, b)]);
    OneTable(One(again));
    ReversedConcat([[again]], [Both(a, b).entries]);
    SingleLayer(Both(a, b).entries, Reversed([[again]]), [1]);
    hide Reversed, FindInLayers;
  }
}
