/** Lives of the engine: its steps, and crashes after which it opens again over its log and the table files
    it finds. A file may repeat what the log has too, and a replayed record may differ from the one that was
    flushed, so timestamps no longer order the layers and the invariant of EngineModel is lost. */
module EngineLives {
  import opened Bytes
  import opened Entries
  import opened Compaction
  import opened EngineModel
  import EngineLimits
  import Recovery
  import Wal

  datatype Event = Work(step: Step) | Crash(tables: seq<Table>)

  /** The engine stops between two steps, so that its log ends with a whole frame, and opens again over
      that log and these files. What was written before stays written. */
  function Reborn(s: State, tables: seq<Table>): State
  {
    Recovery.Reopened(Wal.AllLogged(s.wal), tables).(history := s.history)
  }

  predicate Possible(s: State, ev: Event)
  {
    match ev
    case Work(step) => Enabled(s, step) && (step.Write? && step.e.tombstone ==> step.e.value == [])
    case Crash(tables) => AllAscend(tables)
  }

  function After(s: State, ev: Event): State
    requires Possible(s, ev)
  {
    match ev
    case Work(step) => Next(s, step)
    case Crash(tables) => Reborn(s, tables)
  }

  /** States of one directory, from the empty one on. */
  ghost predicate IsLife(states: seq<State>, events: seq<Event>)
  {
    && |states| == |events| + 1
    && states[0] == INIT
    && forall i :: 0 <= i < |events| ==> Possible(states[i], events[i]) && states[i + 1] == After(states[i], events[i])
  }

  // ----- what lives keep

  predicate AllAscend(ts: seq<Table>) { forall t :: t in ts ==> Ascending(t.entries) }

  predicate Level1Form(ts: seq<Table>)
  {
    (forall t :: t in ts ==> GoodTable(t)) && forall e :: e in Tables(ts) ==> !e.tombstone
  }

  /** The log ends as the history does, once empty values are taken for deletions. */
  predicate LogForm(wal: seq<Entry>, history: seq<Entry>)
  {
    IsSuffix(Wal.AllLogged(wal), Wal.AllLogged(history)) && Clean(history)
  }

  predicate LifeInv(s: State)
  {
    && Ascending(s.memtable) && QueueForm(s)
    && AllAscend(s.l0) && Level1Form(s.l1) && (forall j :: j in s.jobs ==> AllAscend(j))
    && LogForm(s.wal, s.history)
  }

  lemma RotateKeepsForm(s: State)
    requires QueueForm(s) && s.memtable != [] && Ascending(s.memtable)
    ensures QueueForm(Rotate(s))
  {
    hide Ascending;
    var f := Frozen(s.nextId, s.memtable);
    assert |s.queue| < QUEUE_CAPACITY ==> Pending(Rotate(s)) == Pending(s) + [f];
  }

  lemma LogAppends(wal: seq<Entry>, history: seq<Entry>, e: Entry)
    requires LogForm(wal, history) && (e.tombstone ==> e.value == [])
    ensures LogForm(wal + [e], history + [e])
  {
    hide Wal.Logged;
    var a, b := Wal.AllLogged(wal), Wal.AllLogged(history);
    assert Wal.AllLogged(wal + [e]) == a + [Wal.Logged(e)] && Wal.AllLogged(history + [e]) == b + [Wal.Logged(e)];
  }

  lemma LogEmpties(history: seq<Entry>)
    requires Clean(history)
    ensures LogForm([], history)
  {}

  lemma WriteKeepsLife(s: State, e: Entry, rotate: bool)
    requires LifeInv(s) && (e.tombstone ==> e.value == [])
    ensures LifeInv(WriteTo(s, e, rotate))
  {
    hide Ascending, LogForm, GoodFrozens, AllAscend, Level1Form;
    AscendingUpsert(s.memtable, e);
    UpsertParts(s.memtable, e);
    LogAppends(s.wal, s.history, e);
    hide Upsert;
    var t := WriteTo(s, e, false);
    assert Pending(t) == Pending(s);
    if rotate {
      RotateKeepsForm(t);
      NothingAscends();
    }
  }

  lemma FlushKeepsLife(s: State)
    requires LifeInv(s) && s.flushing.Some?
    ensures LifeInv(InstallFlush(s))
  {
    hide Ascending, LogForm, GoodFrozens, Level1Form;
    var f, t := s.flushing.value, InstallFlush(s);
    FlushingAt(s);
    FlushKeepsForm(s);
    assert s.history == t.history;
    assert Clean(s.history) by { LogIsClean(s); }
    LogEmpties(s.history);
    hide QueueForm, Remove;
  }

  lemma LogIsClean(s: State)
    requires LogForm(s.wal, s.history)
    ensures Clean(s.history)
  {}

  lemma InstallKeepsLife(s: State, inputs: seq<Table>)
    requires LifeInv(s)
    ensures LifeInv(InstallCompaction(s, inputs))
  {
    hide Ascending, LogForm, QueueForm;
    var merged := Merge(TableLayers(inputs), true);
    MergeKeepsNewest(TableLayers(inputs), true);
    hide Merge;
    if merged != [] {
      TablesConcat(s.l1, [TableOf(merged)]);
      OneTable(TableOf(merged));
      SameQueue(s, InstallCompaction(s, inputs));
    }
  }

  lemma SameQueue(s: State, t: State)
    requires QueueForm(s) && t.immutable == s.immutable && t.nextId == s.nextId
    requires t.queue == s.queue && t.flushing == s.flushing
    ensures QueueForm(t)
  {
    hide GoodFrozens;
  }

  lemma TakeKeepsLife(s: State)
    requires LifeInv(s) && Enabled(s, FlushTake)
    ensures LifeInv(Next(s, FlushTake))
  {
    hide Ascending, LogForm, GoodFrozens, AllAscend, Level1Form;
    assert Pending(Next(s, FlushTake)) == Pending(s);
  }

  lemma JobsKeepLife(s: State, jobs: seq<seq<Table>>)
    requires LifeInv(s) && forall j :: j in jobs ==> AllAscend(j)
    ensures LifeInv(s.(jobs := jobs))
  {
    hide Ascending, LogForm, AllAscend, Level1Form, QueueForm;
    SameQueue(s, s.(jobs := jobs));
  }

  lemma CrashKeepsLife(s: State, tables: seq<Table>)
    requires LifeInv(s) && AllAscend(tables)
    ensures LifeInv(Reborn(s, tables))
  {
    hide Replay, Wal.Logged, Ascending, Clean, QueueForm, Level1Form;
    ReplayIsLatest(Wal.AllLogged(s.wal));
    LoggedTwice(s.wal);
    NothingQueued(Reborn(s, tables));
    NothingStored();
  }

  lemma NothingStored()
    ensures Level1Form([])
  {}

  lemma NothingQueued(s: State)
    requires s.immutable == [] && s.queue == [] && s.flushing == None
    ensures QueueForm(s)
  {}

  /** What was read back from the log is logged as itself. */
  lemma LoggedTwice(ws: seq<Entry>)
    ensures Wal.AllLogged(Wal.AllLogged(ws)) == Wal.AllLogged(ws)
  {
    forall i | 0 <= i < |ws| ensures Wal.Logged(Wal.Logged(ws[i])) == Wal.Logged(ws[i]) {}
  }

  lemma AfterKeepsLife(s: State, ev: Event)
    requires LifeInv(s) && Possible(s, ev)
    ensures LifeInv(After(s, ev))
  {
    hide LifeInv, Reborn, WriteTo, InstallFlush, InstallCompaction, AllAscend;
    match ev {
      case Work(step) =>
        match step {
          case Write(e, rotate) => WriteKeepsLife(s, e, rotate);
          case FlushTake => TakeKeepsLife(s);
          case FlushInstall => FlushKeepsLife(s);
          case CompactTake =>
            FilesAscend(s);
            JobsKeepLife(s, s.jobs + [s.l0]);
          case CompactInstall(j) =>
            FilesAscend(s);
            InstallKeepsLife(s, s.jobs[j]);
            InstallKeepsJobs(s, s.jobs[j]);
            JobsKeepLife(InstallCompaction(s, s.jobs[j]), s.jobs[..j] + s.jobs[j + 1..]);
        }
      case Crash(tables) => CrashKeepsLife(s, tables);
    }
  }

  lemma FilesAscend(s: State)
    requires LifeInv(s)
    ensures AllAscend(s.l0) && forall j :: j in s.jobs ==> AllAscend(j)
  {}

  // ----- when an event keeps every lookup right

  /** Wherever both the flushed memtable and an older one still in memory would answer a key, they
      answer alike. */
  ghost predicate FlushKeeps(s: State)
    requires s.flushing.Some?
  {
    var f := s.flushing.value;
    var i := Position(s.immutable, f.id);
    i < |s.immutable| ==> EngineLimits.NothingChanges(s, s.immutable[..i], f, s.immutable[i + 1..])
  }

  /** A key that level 0 answers is answered alike by level 1, or, if level 1 does not have it, by its
      newest record in the snapshot, which takes the table's place; and no key that neither level has is
      live in the snapshot. An empty key is read back from a table only if it stands alone there. */
  ghost predicate KeyKept(s: State, inputs: seq<Table>, alone: bool, k: Bytes)
  {
    var now, below := FindInLayers(Reversed(TableLayers(s.l0)), k), FindL1(s.l1, k);
    var newest := if k != [] || alone then Live(Newest(Tables(inputs), k)) else None;
    && (now.Some? ==> Live(now) == if below.Some? then below else newest)
    && (now.None? && below.None? ==> newest.None?)
  }

  ghost predicate InstallKeeps(s: State, inputs: seq<Table>)
  {
    var merged := Merge(TableLayers(inputs), true);
    merged != [] ==> forall k :: FindInLayers(Memory(s), k).None? ==> KeyKept(s, inputs, |merged| == 1, k)
  }

  /** A key that the log has was not last written with a live empty value; any other is answered by the
      last loaded file that has it as memory and levels answered it. */
  ghost predicate Outlives(s: State, tables: seq<Table>, k: Bytes)
  {
    var last := Latest(s.history, k);
    if Latest(s.wal, k).Some? then last.Some? && (last.value.tombstone || last.value.value != [])
    else Live(FindInLayers(Reversed(TableLayers(tables)), k)) == Live(Locate(s, k))
  }

  ghost predicate Keeps(s: State, ev: Event)
    requires Possible(s, ev)
  {
    match ev
    case Work(step) =>
      (match step
       case FlushInstall => FlushKeeps(s)
       case CompactInstall(j) => InstallKeeps(s, s.jobs[j])
       case _ => true)
    case Crash(tables) => forall k :: Outlives(s, tables, k)
  }

  lemma FlushExact(s: State)
    requires LifeInv(s) && Correct(s) && s.flushing.Some?
    ensures Correct(InstallFlush(s)) <==> FlushKeeps(s)
  {
    hide Correct, EngineLimits.NothingChanges, GoodFrozens, LogForm, Level1Form, AllAscend, Ascending;
    var f := s.flushing.value;
    FlushingAt(s);
    var i := Position(s.immutable, f.id);
    assert s.immutable == s.immutable[..i] + [f] + s.immutable[i + 1..];
    forall x | x in s.immutable[..i] ensures x.id != f.id {}
    EngineLimits.FlushSplitExact(s, s.immutable[..i], f, s.immutable[i + 1..]);
  }

  /** Level 1 holds live records only. */
  lemma Level1Lives(s: State, k: Bytes)
    requires Level1Form(s.l1) && FindL1(s.l1, k).Some?
    ensures !FindL1(s.l1, k).value.tombstone
  {
    hide FindL1, GoodTable;
    EngineLimits.FindL1Member(s.l1, k);
  }

  lemma InstallExact(s: State, inputs: seq<Table>)
    requires LifeInv(s) && Correct(s)
    ensures Correct(InstallCompaction(s, inputs)) <==> InstallKeeps(s, inputs)
  {
    hide FindInLayers, FindL1, Latest, Reversed, TableLayers, Memory;
    hide Merge, QueueForm, LogForm, AllAscend, Newest, Tables;
    var t, merged := InstallCompaction(s, inputs), Merge(TableLayers(inputs), true);
    if merged != [] {
      forall k
        ensures Get(t, k) == Get(s, k) <==>
                (FindInLayers(Memory(s), k).None? ==> KeyKept(s, inputs, |merged| == 1, k))
        ensures Get(s, k) == Live(Latest(t.history, k))
      {
        LocateInstalled(s, inputs, k);
        if FindL1(s.l1, k).Some? {
          Level1Lives(s, k);
        }
      }
    }
  }

  /** A key that the log has: its last record is the last one written, but for empty values. */
  lemma LastLogged(wal: seq<Entry>, history: seq<Entry>, k: Bytes)
    requires LogForm(wal, history) && Latest(wal, k).Some?
    ensures Latest(history, k).Some? && Wal.Logged(Latest(wal, k).value) == Wal.Logged(Latest(history, k).value)
    ensures var w := Latest(history, k).value; w.tombstone ==> w.value == []
  {
    hide Wal.Logged, Latest;
    Recovery.LatestLogged(wal, k);
    Recovery.LatestLogged(history, k);
    Recovery.LatestSuffix(Wal.AllLogged(wal), Wal.AllLogged(history), k);
    Recovery.LatestNone(history, k);
  }

  lemma KeyOutlives(s: State, tables: seq<Table>, k: Bytes)
    requires LogForm(s.wal, s.history) && Get(s, k) == Live(Latest(s.history, k))
    ensures Get(Reborn(s, tables), k) == Live(Latest(s.history, k)) <==> Outlives(s, tables, k)
  {
    hide Latest, LogForm, FindInLayers, TableLayers, Reversed;
    SameLookup(s, tables, k);
    hide Locate, Reborn, Recovery.Reopened;
    if Latest(s.wal, k).Some? {
      LastLogged(s.wal, s.history, k);
      Recovery.LoggedLookup(s.wal, tables, k);
      Wal.LoggedIsFaithful(Latest(s.history, k).value);
    } else {
      Recovery.UnloggedLookup(s.wal, tables, k);
    }
  }

  lemma SameLookup(s: State, tables: seq<Table>, k: Bytes)
    ensures Locate(Reborn(s, tables), k) == Locate(Recovery.Reopened(Wal.AllLogged(s.wal), tables), k)
    ensures Reborn(s, tables).history == s.history
  {
    hide FindInLayers, Replay;
    assert Memory(Reborn(s, tables)) == Memory(Recovery.Reopened(Wal.AllLogged(s.wal), tables));
  }

  lemma CrashExact(s: State, tables: seq<Table>)
    requires LifeInv(s) && Correct(s)
    ensures Correct(Reborn(s, tables)) <==> forall k :: Outlives(s, tables, k)
  {
    hide Get, Reborn, Outlives, LogForm, QueueForm, Level1Form;
    forall k
      ensures Get(Reborn(s, tables), k) == Live(Latest(s.history, k)) <==> Outlives(s, tables, k)
      ensures Reborn(s, tables).history == s.history
    {
      KeyOutlives(s, tables, k);
      SameLookup(s, tables, k);
    }
  }

  lemma LifeMemtable(s: State)
    requires LifeInv(s)
    ensures Ascending(s.memtable)
  {}

  /** An event keeps every lookup right exactly when it meets its guard. */
  lemma AfterExact(s: State, ev: Event)
    requires LifeInv(s) && Correct(s) && Possible(s, ev)
    ensures Correct(After(s, ev)) <==> Keeps(s, ev)
  {
    hide LifeInv, Correct, Reborn, Outlives, WriteTo, InstallFlush, InstallCompaction, FlushKeeps, InstallKeeps;
    match ev {
      case Work(step) =>
        match step {
          case Write(e, rotate) =>
            LifeMemtable(s);
            EngineLimits.WriteKeepsCorrect(s, e, rotate);
          case FlushTake => EngineLimits.SameLayers(s, Next(s, step));
          case FlushInstall => FlushExact(s);
          case CompactTake => EngineLimits.SameLayers(s, Next(s, step));
          case CompactInstall(j) =>
            InstallExact(s, s.jobs[j]);
            EngineLimits.SameLayers(InstallCompaction(s, s.jobs[j]), Next(s, step));
        }
      case Crash(tables) => CrashExact(s, tables);
    }
  }

  // ----- whole lives

  lemma {:induction false} LivesKeepInv(states: seq<State>, events: seq<Event>, i: nat)
    requires IsLife(states, events) && i < |states|
    ensures LifeInv(states[i])
    decreases i
  {
    hide LifeInv, Possible, After;
    if i == 0 {
      NewLife();
    } else {
      LivesKeepInv(states, events, i - 1);
      AfterKeepsLife(states[i - 1], events[i - 1]);
    }
  }

  lemma NewLife()
    ensures LifeInv(INIT)
  {}

  /** A directory answers every key with its last write at every point, through all crashes, exactly when
      each event meets its guard where it happens. */
  lemma LivesExact(states: seq<State>, events: seq<Event>)
    requires IsLife(states, events)
    ensures (forall i :: 0 <= i < |states| ==> Correct(states[i])) <==>
            (forall i :: 0 <= i < |events| ==> Keeps(states[i], events[i]))
  {
    hide Correct, Keeps, Possible, After, LifeInv;
    if forall i :: 0 <= i < |events| ==> Keeps(states[i], events[i]) {
      forall i | 0 <= i < |states| ensures Correct(states[i]) {
        KeptPrefix(states, events, i);
      }
    } else {
      var i :| 0 <= i < |events| && !Keeps(states[i], events[i]);
      LivesKeepInv(states, events, i);
      if Correct(states[i]) {
        AfterExact(states[i], events[i]);
        assert !Correct(states[i + 1]);
      }
    }
  }

  lemma {:induction false} KeptPrefix(states: seq<State>, events: seq<Event>, i: nat)
    requires IsLife(states, events) && i < |states|
    requires forall j :: 0 <= j < i ==> Keeps(states[j], events[j])
    ensures Correct(states[i])
    decreases i
  {
    hide Correct, Keeps, Possible, After, LifeInv;
    if i == 0 {
      EngineLimits.InitCorrect();
    } else {
      KeptPrefix(states, events, i - 1);
      LivesKeepInv(states, events, i - 1);
      AfterExact(states[i - 1], events[i - 1]);
    }
  }

  // ----- a life that loses a value and finds it again

  lemma LiveOn(states: seq<State>, events: seq<Event>, ev: Event) returns (longer: seq<State>, more: seq<Event>)
    requires IsLife(states, events) && Possible(states[|events|], ev)
    ensures more == events + [ev] && longer == states + [After(states[|events|], ev)] && IsLife(longer, more)
  {
    hide Possible, After;
    longer, more := states + [After(states[|events|], ev)], events + [ev];
    forall i | 0 <= i < |more| ensures Possible(longer[i], more[i]) && longer[i + 1] == After(longer[i], more[i]) {
      assert i < |events| ==> longer[i] == states[i] && longer[i + 1] == states[i + 1] && more[i] == events[i];
    }
  }

  lemma Unborn()
    ensures IsLife([INIT], [])
  {}

  lemma FirstLife(a: Entry, f: Frozen, s1: State, s2: State)
    requires f == Frozen(0, [a]) && s1 == State([], [f], [f], None, [], [], [], 1, [a], [a]) && !a.tombstone
    requires s2 == s1.(flushing := Some(f), queue := [])
    ensures Possible(INIT, Work(Write(a, true))) && After(INIT, Work(Write(a, true))) == s1
    ensures Possible(s1, Work(FlushTake)) && After(s1, Work(FlushTake)) == s2
  {
    assert Upsert([], a) == [a] && [f][1..] == [];
  }

  lemma CrashStep(a: Entry, d: Entry, x: Table, s2: State, s3: State)
    requires a == Entry([1], [], false, 1) && d == Entry([1], [], true, 1) && x == TableOf([a])
    requires s2.wal == [a] && s2.history == [a] && s3 == State([d], [], [], None, [x], [], [], 0, [d], [a])
    ensures Possible(s2, Crash([x])) && After(s2, Crash([x])) == s3
  {
    assert Wal.AllLogged([a]) == [d];
    assert [d][..0] == [] && Replay([], [d]) == Upsert(Replay([], []), d) == [d];
  }

  lemma SecondLife(d: Entry, b: Entry, g: Frozen, x: Table, y: Table,
                   s3: State, s4: State, s5: State, s6: State, s7: State)
    requires d == Entry([1], [], true, 1) && b == Entry([2], [20], false, 2)
    requires g == Frozen(0, [d, b]) && y == TableOf([d, b])
    requires s3 == State([d], [], [], None, [x], [], [], 0, [d], s3.history)
    requires |s3.history| == 1 && s3.history[0].ts == 1
    requires s4 == State([], [g], [g], None, [x], [], [], 1, [d, b], s3.history + [b])
    requires s5 == s4.(flushing := Some(g), queue := [])
    requires s6 == State([], [], [], None, [x, y], [], [], 1, [], s3.history + [b]) && s7 == s6.(jobs := [[x, y]])
    ensures Possible(s3, Work(Write(b, true))) && After(s3, Work(Write(b, true))) == s4
    ensures Possible(s4, Work(FlushTake)) && After(s4, Work(FlushTake)) == s5
    ensures Possible(s5, Work(FlushInstall)) && After(s5, Work(FlushInstall)) == s6
    ensures Possible(s6, Work(CompactTake)) && After(s6, Work(CompactTake)) == s7
  {
    hide TableOf;
    assert [d][1..] == [] && Less([1], [2]) && Upsert([], b) == [b] && [d] + [b] == [d, b];
    assert Upsert([d], b) == [d, b] && [] + [g] == [g];
    assert [g][1..] == [] && [x] + [y] == [x, y];
  }

  /** Of two records with one timestamp the merge keeps the older table's. */
  lemma ReturnStep(a: Entry, d: Entry, b: Entry, x: Table, y: Table, s7: State)
    requires a == Entry([1], [], false, 1) && d == Entry([1], [], true, 1) && b == Entry([2], [20], false, 2)
    requires x == TableOf([a]) && y == TableOf([d, b])
    requires s7 == State([], [], [], None, [x, y], [], [[x, y]], 1, [], [a, b])
    ensures Possible(s7, Work(CompactInstall(0)))
    ensures var t := After(s7, Work(CompactInstall(0))); t.history == [a, b] && Get(t, [1]) == Some(a)
  {
    hide Merge, Newest, FindL1;
    NewestOfThree(a, d, b);
    TablesOfTwo(x, y);
    MergeKeepsNewest(TableLayers([x, y]), true);
    assert Find(Merge(TableLayers([x, y]), true), [1]) == Some(a);
    assert Merge(TableLayers([x, y]), true) != [];
    LocateInstalled(s7, [x, y], [1]);
    NothingInMemory(s7, [1]);
  }

  lemma TablesOfTwo(x: Table, y: Table)
    ensures Flatten(TableLayers([x, y])) == x.entries + y.entries && Tables([x, y]) == x.entries + y.entries
  {
    assert [x] + [y] == [x, y];
    TablesConcat([x], [y]);
    OneTable(x);
    OneTable(y);
  }

  lemma NewestOfThree(a: Entry, d: Entry, b: Entry)
    requires a.key == d.key != b.key && a.ts == d.ts
    ensures Newest([a] + [d, b], a.key) == Some(a)
  {
    NewestExact([a] + [d, b], a.key, a);
  }

  lemma NothingInMemory(s: State, k: Bytes)
    requires s.memtable == [] && s.immutable == [] && s.l1 == []
    ensures FindInLayers(Memory(s), k) == None && FindL1(s.l1, k) == None
  {
    assert FrozenLayers([]) == [] && Reversed(FrozenLayers([])) == [];
    MemoryTop(s, k);
    assert Find([], k) == None;
  }

  lemma LatestOfTwo(a: Entry, b: Entry)
    requires a.key != b.key
    ensures Latest([a], a.key) == Some(a) && Latest([a, b], a.key) == Some(a)
  {
    assert [a, b][..1] == [a];
  }

  lemma GoneAfterCrash(d: Entry, s: State)
    requires s.memtable == [d] && d.tombstone
    ensures Get(s, d.key) == None
  {
    MemoryTop(s, d.key);
  }

  /** A crash catches the flush of a live empty value after its file is written: the log gives it back as
      a deletion, with the same timestamp as the record in the file. The next compaction then prefers the
      file's record, and the key that was gone since the crash is there again. */
  lemma LostValueReturns(a: Entry, b: Entry) returns (states: seq<State>, events: seq<Event>)
    requires a == Entry([1], [], false, 1) && b == Entry([2], [20], false, 2)
    ensures events == [Work(Write(a, true)), Work(FlushTake), Crash([TableOf([a])]), Work(Write(b, true)),
                       Work(FlushTake), Work(FlushInstall), Work(CompactTake), Work(CompactInstall(0))]
    ensures IsLife(states, events) && forall i :: 0 < i < |states| ==> Latest(states[i].history, [1]) == Some(a)
    ensures Get(states[3], [1]) == None && Get(states[8], [1]) == Some(a)
  {
    hide IsLife, After, Possible, Get, Latest, Enabled, Next;
    var d := Entry([1], [], true, 1);
    var f, g := Frozen(0, [a]), Frozen(0, [d, b]);
    var x, y := TableOf([a]), TableOf([d, b]);
    var s1 := State([], [f], [f], None, [], [], [], 1, [a], [a]);
    var s2 := s1.(flushing := Some(f), queue := []);
    var s3 := State([d], [], [], None, [x], [], [], 0, [d], [a]);
    var s4 := State([], [g], [g], None, [x], [], [], 1, [d, b], [a, b]);
    var s5 := s4.(flushing := Some(g), queue := []);
    var s6 := State([], [], [], None, [x, y], [], [], 1, [], [a, b]);
    var s7 := s6.(jobs := [[x, y]]);
    hide TableOf;
    Unborn();
    states, events := [INIT], [];
    FirstLife(a, f, s1, s2);
    states, events := LiveOn(states, events, Work(Write(a, true)));
    states, events := LiveOn(states, events, Work(FlushTake));
    CrashStep(a, d, x, s2, s3);
    states, events := LiveOn(states, events, Crash([x]));
    SecondLife(d, b, g, x, y, s3, s4, s5, s6, s7);
    states, events := LiveOn(states, events, Work(Write(b, true)));
    states, events := LiveOn(states, events, Work(FlushTake));
    states, events := LiveOn(states, events, Work(FlushInstall));
    states, events := LiveOn(states, events, Work(CompactTake));
    ReturnStep(a, d, b, x, y, s7);
    states, events := LiveOn(states, events, Work(CompactInstall(0)));
    LatestOfTwo(a, b);
    GoneAfterCrash(d, s3);
  }
}
