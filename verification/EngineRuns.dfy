/** Runs of the engine: those that meet the hypotheses are right throughout, and for each hypothesis a
    run from the empty engine that breaks it and reads a wrong answer. */
module EngineRuns {
  import opened Bytes
  import opened Entries
  import opened Compaction
  import opened EngineAges
  import opened EngineModel
  import opened EngineLimits

  // ----- runs that meet the hypotheses

  /** No record that the compacted tables would answer has its key in a level-1 table. */
  ghost predicate NoneInL1(s: State, inputs: seq<Table>)
  {
    forall k :: FindInLayers(Memory(s), k).None? && FindInLayers(Reversed(TableLayers(inputs)), k).Some? ==>
      FindL1(s.l1, k).None?
  }

  /** The hypotheses: keys are not empty, rotation never meets a full queue, no flush installs between
      a compaction's snapshot and its own install, and no compacted key is in level 1 already. */
  ghost predicate Safe(s: State, step: Step)
  {
    && (step.Write? ==> step.e.key != [] && (step.rotate ==> |s.queue| < QUEUE_CAPACITY))
    && (step.CompactInstall? && step.job < |s.jobs| ==> s.l0 == s.jobs[step.job] && NoneInL1(s, s.jobs[step.job]))
  }

  /** Then rotated memtables are flushed in order, and no key is empty. */
  predicate Orderly(s: State) { Pending(s) == s.immutable && forall w :: w in s.history ==> w.key != [] }

  ghost predicate IsRun(states: seq<State>, steps: seq<Step>)
  {
    IsTrace(states, steps) && forall i :: 0 <= i < |steps| ==> Safe(states[i], steps[i])
  }

  lemma SafeKeepsOrder(s: State, step: Step)
    requires Inv(s) && Orderly(s) && Enabled(s, step) && Safe(s, step)
    ensures Orderly(Next(s, step))
  {
    hide NoneInL1, Inv, Orderly, WriteTo, InstallFlush, Merge;
    match step {
      case Write(e, rotate) => WriteKeepsOrder(s, e, rotate);
      case FlushTake => TakeKeepsOrder(s);
      case FlushInstall => FlushKeepsOrder(s);
      case _ => CompactionsKeepOrder(s, step);
    }
  }

  lemma WriteKeepsOrder(s: State, e: Entry, rotate: bool)
    requires Orderly(s) && e.key != [] && (rotate ==> |s.queue| < QUEUE_CAPACITY)
    ensures Orderly(WriteTo(s, e, rotate))
  {
    hide Upsert;
    if rotate {
      var f := Frozen(s.nextId, Upsert(s.memtable, e));
      assert Pending(WriteTo(s, e, rotate)) == Pending(s) + [f];
    }
  }

  lemma TakeKeepsOrder(s: State)
    requires Orderly(s) && Enabled(s, FlushTake)
    ensures Orderly(Next(s, FlushTake))
  {
    assert Pending(Next(s, FlushTake)) == Pending(s);
  }

  lemma FlushKeepsOrder(s: State)
    requires Inv(s) && Orderly(s) && Enabled(s, FlushInstall)
    ensures Orderly(InstallFlush(s))
  {
    hide GoodMemory, GoodJob, GoodTables;
    FlushingAt(s);
    hide GoodQueue;
    assert Pending(s)[0] == s.flushing.value && Pending(s)[1..] == s.queue;
    RemoveFirst(s.immutable);
  }

  lemma CompactionsKeepOrder(s: State, step: Step)
    requires Orderly(s) && Enabled(s, step) && (step.CompactTake? || step.CompactInstall?)
    ensures Orderly(Next(s, step))
  {
    hide Merge;
  }

  lemma SafeIsHarmless(s: State, step: Step)
    requires Inv(s) && Orderly(s) && Enabled(s, step) && Safe(s, step)
    ensures Harmless(s, step)
  {
    hide NothingHidden, FlushHarmless, Merge, FindL1, Memory, GoodTables, GoodJob, GoodQueue, GoodMemory;
    match step {
      case FlushInstall =>
        assert Pending(s)[0] == s.flushing.value;
        OldestIsHarmless(s);
      case CompactInstall(j) =>
        forall k | FindInLayers(Memory(s), k).None?
          ensures KeyHarmless(s, s.jobs[j], |Merge(TableLayers(s.jobs[j]), true)| == 1, k)
        {
          if FindInLayers(Reversed(TableLayers(s.l0)), k).Some? {
            Level0Key(s, k);
          }
        }
      case _ =>
    }
  }

  lemma Level0Key(s: State, k: Bytes)
    requires Inv(s) && Orderly(s) && FindInLayers(Reversed(TableLayers(s.l0)), k).Some?
    ensures k != []
  {
    hide GoodTable, Ages, GoodQueue, GoodMemory, Reversed;
    LayersReversed(TableLayers(s.l0), k);
  }

  lemma {:induction false} RunsStayOrderly(states: seq<State>, steps: seq<Step>, i: nat)
    requires IsRun(states, steps) && i < |states|
    ensures Orderly(states[i])
    decreases i
  {
    hide Orderly, Safe, Enabled, Next, Inv;
    if i == 0 {
      InitOrder();
    } else {
      TracesKeepInv(states, steps, i - 1);
      RunsStayOrderly(states, steps, i - 1);
      SafeKeepsOrder(states[i - 1], steps[i - 1]);
    }
  }

  lemma InitOrder()
    ensures Orderly(INIT)
  {}

  /** In every interleaving of puts, deletes, rotations, flushes and compactions that meets the
      hypotheses, Get returns at every point exactly the last write of every key. */
  lemma RunsAreCorrect(states: seq<State>, steps: seq<Step>, i: nat)
    requires IsRun(states, steps) && i < |states|
    ensures Inv(states[i]) && Correct(states[i])
  {
    hide Inv, Correct, Safe, Enabled, Next, Harmless, Orderly;
    forall j | 0 <= j < |steps| ensures Harmless(states[j], steps[j]) {
      TracesKeepInv(states, steps, j);
      RunsStayOrderly(states, steps, j);
      SafeIsHarmless(states[j], steps[j]);
    }
    TracesExact(states, steps);
    TracesKeepInv(states, steps, i);
  }

  // ----- building traces

  /** A trace whose steps have all been harmless, and the state it has come to. */
  ghost predicate Reaches(states: seq<State>, steps: seq<Step>, s: State)
  {
    && IsTrace(states, steps) && states[|steps|] == s
    && forall i :: 0 <= i < |steps| ==> Harmless(states[i], steps[i])
  }

  /** The trace is right at every point but its last, where key k is answered with the write was, though
      its last write is now. */
  ghost predicate GoesWrong(states: seq<State>, steps: seq<Step>, k: Bytes, was: Option<Entry>, now: Option<Entry>)
  {
    && IsTrace(states, steps) && was != now
    && (forall i :: 0 <= i < |steps| ==> Correct(states[i]))
    && Get(states[|steps|], k) == was && Live(Latest(states[|steps|].history, k)) == now
  }

  lemma Start() returns (states: seq<State>, steps: seq<Step>)
    ensures steps == [] && Reaches(states, steps, INIT)
  {
    states, steps := [INIT], [];
  }

  lemma Extend(states: seq<State>, steps: seq<Step>, s: State, step: Step)
    returns (reached: seq<State>, taken: seq<Step>)
    requires Reaches(states, steps, s) && Enabled(s, step) && Harmless(s, step)
    ensures taken == steps + [step] && Reaches(reached, taken, Next(s, step))
  {
    hide Enabled, Harmless, Next;
    reached, taken := states + [Next(s, step)], steps + [step];
    forall i | 0 <= i < |taken|
      ensures Enabled(reached[i], taken[i]) && reached[i + 1] == Next(reached[i], taken[i]) &&
              Harmless(reached[i], taken[i])
    {
      if i < |steps| {
        assert reached[i] == states[i] && reached[i + 1] == states[i + 1] && taken[i] == steps[i];
      }
    }
  }

  /** The last step of a trace that goes wrong. */
  lemma Finish(states: seq<State>, steps: seq<Step>, s: State, step: Step, k: Bytes)
    returns (reached: seq<State>, taken: seq<Step>)
    requires Reaches(states, steps, s) && Enabled(s, step)
    requires Get(Next(s, step), k) != Live(Latest(Next(s, step).history, k))
    ensures taken == steps + [step]
    ensures GoesWrong(reached, taken, k, Get(Next(s, step), k), Live(Latest(Next(s, step).history, k)))
  {
    hide Enabled, Harmless, Next, Get, Latest, Correct;
    reached, taken := states + [Next(s, step)], steps + [step];
    forall i | 0 <= i < |taken|
      ensures Enabled(reached[i], taken[i]) && reached[i + 1] == Next(reached[i], taken[i]) && Correct(reached[i])
    {
      HarmlessPrefix(states, steps, i);
      assert reached[i] == states[i];
      if i < |steps| {
        assert reached[i + 1] == states[i + 1] && taken[i] == steps[i];
      }
    }
  }

  /** An engine with nothing in memory and no flush under way. */
  function Idle(l0: seq<Table>, l1: seq<Table>, jobs: seq<seq<Table>>, n: nat, history: seq<Entry>): State
  {
    State([], [], [], None, l0, l1, jobs, n, [], history)
  }

  function One(e: Entry): Table { TableOf([e]) }

  /** A write that fills the memtable, taken and flushed. */
  lemma WriteAndFlush(states: seq<State>, steps: seq<Step>, l0: seq<Table>, l1: seq<Table>,
                      jobs: seq<seq<Table>>, n: nat, history: seq<Entry>, e: Entry)
    returns (reached: seq<State>, taken: seq<Step>)
    requires Reaches(states, steps, Idle(l0, l1, jobs, n, history)) && forall w :: w in history ==> w.ts < e.ts
    ensures taken == steps + [Write(e, true), FlushTake, FlushInstall]
    ensures Reaches(reached, taken, Idle(l0 + [One(e)], l1, jobs, n + 1, history + [e]))
  {
    hide Reaches, FlushHarmless, InstallHarmless, TableOf;
    var f, s := Frozen(n, [e]), Idle(l0, l1, jobs, n, history);
    var a := s.(immutable := [f], queue := [f], nextId := n + 1, wal := [e], history := history + [e]);
    assert Upsert([], e) == [e];
    assert Next(s, Write(e, true)) == a;
    var b := a.(flushing := Some(f), queue := []);
    assert Next(a, FlushTake) == b;
    assert [f][1..] == [];
    assert Next(b, FlushInstall) == Idle(l0 + [One(e)], l1, jobs, n + 1, history + [e]);
    OldestIsHarmless(b);
    reached, taken := Extend(states, steps, s, Write(e, true));
    reached, taken := Extend(reached, taken, a, FlushTake);
    reached, taken := Extend(reached, taken, b, FlushInstall);
  }

  /** Two writes, each flushed, and a snapshot of the two tables. */
  function TwoSteps(a: Entry, b: Entry): seq<Step>
  {
    [Write(a, true), FlushTake, FlushInstall, Write(b, true), FlushTake, FlushInstall, CompactTake]
  }

  lemma TwoMore(states: seq<State>, steps: seq<Step>, l1: seq<Table>, n: nat, history: seq<Entry>, a: Entry, b: Entry)
    returns (reached: seq<State>, taken: seq<Step>)
    requires Reaches(states, steps, Idle([], l1, [], n, history))
    requires a.ts < b.ts && forall w :: w in history ==> w.ts < a.ts
    ensures taken == steps + TwoSteps(a, b)
    ensures Reaches(reached, taken, Idle([One(a), One(b)], l1, [[One(a), One(b)]], n + 2, history + [a, b]))
  {
    hide Reaches, One, Next, FlushHarmless, InstallHarmless;
    reached, taken := WriteAndFlush(states, steps, [], l1, [], n, history, a);
    assert [] + [One(a)] == [One(a)];
    reached, taken := WriteAndFlush(reached, taken, [One(a)], l1, [], n + 1, history + [a], b);
    assert [One(a)] + [One(b)] == [One(a), One(b)] && history + [a] + [b] == history + [a, b];
    var s := Idle([One(a), One(b)], l1, [], n + 2, history + [a, b]);
    SnapshotStep(s);
    reached, taken := Extend(reached, taken, s, CompactTake);
  }

  lemma SnapshotStep(s: State)
    requires s.jobs == [] && |s.l0| >= 2
    ensures Enabled(s, CompactTake) && Harmless(s, CompactTake) && Next(s, CompactTake) == s.(jobs := [s.l0])
  {}

  lemma TwoTables(a: Entry, b: Entry) returns (states: seq<State>, steps: seq<Step>)
    requires a.ts < b.ts
    ensures steps == TwoSteps(a, b)
    ensures Reaches(states, steps, Idle([One(a), One(b)], [], [[One(a), One(b)]], 2, [a, b]))
  {
    hide Reaches, One;
    states, steps := Start();
    assert INIT == Idle([], [], [], 0, []);
    states, steps := TwoMore(states, steps, [], 0, [], a, b);
    assert [] + TwoSteps(a, b) == TwoSteps(a, b) && [] + [a, b] == [a, b];
  }

  lemma LayersOfTwo(a: Entry, b: Entry, k: Bytes)
    ensures TableLayers([One(a), One(b)]) == [[a], [b]]
    ensures Flatten([[a], [b]]) == [a, b]
    ensures FindInLayers(Reversed([[a], [b]]), k) ==
            if b.key == k then Some(b) else if a.key == k then Some(a) else None
  {
    var layers := [[a], [b]];
    assert layers[1..] == [[b]] && [[b]][1..] == [];
    assert [b] + [] == [b];
    assert Flatten([[b]]) == [b] + Flatten<Entry>([]);
    assert Reversed([[b]]) == Reversed([]) + [[b]] == [[b]];
    assert Reversed(layers) == [[b], [a]];
    assert [[b], [a]][1..] == [[a]] && [[a]][1..] == [];
    assert Find([a], k) == (if a.key == k then Some(a) else None) &&
           Find([b], k) == (if b.key == k then Some(b) else None);
    assert FindInLayers([[a]], k) == if a.key == k then Some(a) else None;
  }

  /** The table that merging two single writes of different keys gives. */
  function Both(a: Entry, b: Entry): Table { TableOf(Merge([[a], [b]], true)) }

  lemma MergeOfTwo(a: Entry, b: Entry)
    requires a.key != b.key && !a.tombstone && !b.tombstone
    ensures GoodTable(Both(a, b)) && Both(a, b).entries == Merge([[a], [b]], true)
    ensures var m := Both(a, b).entries; Find(m, a.key) == Some(a) && Find(m, b.key) == Some(b) && |m| > 1
  {
    var layers, m := [[a], [b]], Merge([[a], [b]], true);
    MergeKeepsNewest(layers, true);
    LayersOfTwo(a, b, []);
    assert [a, b][1..] == [b] && [b][1..] == [];
    assert Newest([b], b.key) == Some(b) && Newest([b], a.key) == None;
    assert Newest([a, b], a.key) == Some(a) && Newest([a, b], b.key) == Some(b);
    hide Merge;
    assert Find(m, a.key) == Some(a) && Find(m, b.key) == Some(b);
    assert a in m && b in m && a != b;
  }

  /** With nothing in memory or on level 0, level 1 answers. */
  lemma OnlyLevel1(s: State, k: Bytes)
    requires s.memtable == [] && s.immutable == [] && s.l0 == []
    ensures Get(s, k) == Live(FindL1(s.l1, k))
  {
    assert FrozenLayers([]) == [] && Reversed(FrozenLayers([])) == [];
    hide FindL1;
    NoLevel0(s, k);
    MemoryTop(s, k);
    assert Find([], k) == None;
  }

  lemma FirstInL1(x: Table, y: Table, k: Bytes)
    requires GoodTable(x) && GoodTable(y)
    ensures FindL1([x], k) == Reached(x.entries, k)
    ensures Reached(x.entries, k).Some? ==> FindL1([x] + [y], k) == Reached(x.entries, k)
  {
    hide GoodTable, Reached;
    NothingInL1(k);
    FindL1Append([], x, k);
    FindL1Append([x], y, k);
    assert [] + [x] == [x];
    hide FindL1;
  }

  /** Installing the compaction of all of level 0 while level 1 is empty. */
  lemma FirstCompaction(states: seq<State>, steps: seq<Step>, a: Entry, b: Entry, history: seq<Entry>)
    returns (reached: seq<State>, taken: seq<Step>)
    requires Reaches(states, steps, Idle([One(a), One(b)], [], [[One(a), One(b)]], 2, history))
    requires a.key != b.key && !a.tombstone && !b.tombstone && a.key != [] && b.key != []
    ensures taken == steps + [CompactInstall(0)]
    ensures Reaches(reached, taken, Idle([], [Both(a, b)], [], 2, history))
  {
    hide Reaches, InstallHarmless;
    var s := Idle([One(a), One(b)], [], [[One(a), One(b)]], 2, history);
    InstallTwo(s, a, b);
    assert [] + [Both(a, b)] == [Both(a, b)];
    SnapshotIsLevel0(s, a, b);
    reached, taken := Extend(states, steps, s, CompactInstall(0));
  }

  lemma InstallTwo(s: State, a: Entry, b: Entry)
    requires a.key != b.key && !a.tombstone && !b.tombstone && s.jobs == [[One(a), One(b)]]
    ensures Next(s, CompactInstall(0)) == s.(l0 := [], l1 := s.l1 + [Both(a, b)], jobs := [])
  {
    hide Merge;
    MergeOfTwo(a, b);
    LayersOfTwo(a, b, []);
  }

  lemma SnapshotIsLevel0(s: State, a: Entry, b: Entry)
    requires s.l0 == [One(a), One(b)] && s.l1 == [] && a.key != [] && b.key != [] && !a.tombstone && !b.tombstone
    ensures InstallHarmless(s, s.l0)
  {
    hide Merge, Memory, One;
    forall k | FindInLayers(Memory(s), k).None?
      ensures KeyHarmless(s, s.l0, |Merge(TableLayers(s.l0), true)| == 1, k)
    {
      LayersOfTwo(a, b, k);
    }
  }

  lemma NothingInL1(k: Bytes)
    ensures FindL1([], k) == None
  {}

  // ----- a key that was compacted, and is written and compacted again

  /** Level 1 is no input of the second merge, and its older table is searched first. */
  lemma StaleRead(a: Entry, b: Entry, again: Entry, c: Entry) returns (states: seq<State>, steps: seq<Step>)
    requires a == Entry([1], [10], false, 1) && b == Entry([2], [20], false, 2)
    requires again == Entry([1], [11], false, 3) && c == Entry([3], [30], false, 4)
    ensures steps == TwoSteps(a, b) + [CompactInstall(0)] + TwoSteps(again, c) + [CompactInstall(0)]
    ensures GoesWrong(states, steps, [1], Some(a), Some(again))
  {
    hide Reaches, GoesWrong, One, Merge, Both, TwoSteps, Get;
    states, steps := TwoTables(a, b);
    states, steps := FirstCompaction(states, steps, a, b, [a, b]);
    states, steps := TwoMore(states, steps, [Both(a, b)], 2, [a, b], again, c);
    assert [a, b] + [again, c] == [a, b, again, c];
    var s := Idle([One(again), One(c)], [Both(a, b)], [[One(again), One(c)]], 4, [a, b, again, c]);
    StaleAnswer(s, a, b, again, c);
    states, steps := Finish(states, steps, s, CompactInstall(0), [1]);
  }

  lemma StaleAnswer(s: State, a: Entry, b: Entry, again: Entry, c: Entry)
    requires a.key == again.key == [1] && b.key == [2] && c.key == [3]
    requires !a.tombstone && !b.tombstone && !again.tombstone && !c.tombstone
    requires s == Idle([One(again), One(c)], [Both(a, b)], [[One(again), One(c)]], 4, [a, b, again, c])
    ensures Get(Next(s, CompactInstall(0)), [1]) == Some(a)
    ensures Live(Latest(Next(s, CompactInstall(0)).history, [1])) == Some(again)
  {
    hide One, Both, Get, FindL1, GoodTable, Merge;
    InstallTwo(s, again, c);
    hide Next;
    var t := Next(s, CompactInstall(0));
    assert t == Idle([], [Both(a, b)] + [Both(again, c)], [], 4, [a, b, again, c]);
    OnlyLevel1(t, [1]);
    MergeOfTwo(a, b);
    MergeOfTwo(again, c);
    FirstInL1(Both(a, b), Both(again, c), [1]);
    assert [a, b, again, c][..3] == [a, b, again];
  }

  // ----- a flush between a compaction's snapshot and its install

  /** The install clears level 0, the later table with it. */
  lemma LateFlushLost(a: Entry, b: Entry, c: Entry) returns (states: seq<State>, steps: seq<Step>)
    requires a == Entry([1], [10], false, 1) && b == Entry([2], [20], false, 2) && c == Entry([3], [30], false, 3)
    ensures steps == TwoSteps(a, b) + [Write(c, true), FlushTake, FlushInstall] + [CompactInstall(0)]
    ensures GoesWrong(states, steps, [3], None, Some(c))
  {
    hide Reaches, GoesWrong, One, Both, TwoSteps, Get;
    states, steps := TwoTables(a, b);
    var jobs := [[One(a), One(b)]];
    states, steps := WriteAndFlush(states, steps, [One(a), One(b)], [], jobs, 2, [a, b], c);
    var s := Idle([One(a), One(b)] + [One(c)], [], jobs, 3, [a, b] + [c]);
    LostAnswer(s, a, b, c);
    states, steps := Finish(states, steps, s, CompactInstall(0), [3]);
  }

  lemma LostAnswer(s: State, a: Entry, b: Entry, c: Entry)
    requires a.key == [1] && b.key == [2] && c.key == [3] && !a.tombstone && !b.tombstone && !c.tombstone
    requires s == Idle([One(a), One(b)] + [One(c)], [], [[One(a), One(b)]], 3, [a, b] + [c])
    ensures Get(Next(s, CompactInstall(0)), [3]) == None
    ensures Live(Latest(Next(s, CompactInstall(0)).history, [3])) == Some(c)
  {
    hide One, Both, Get, FindL1, GoodTable, Merge;
    InstallTwo(s, a, b);
    hide Next;
    var t := Next(s, CompactInstall(0));
    OnlyLevel1(t, [3]);
    MergeOfTwo(a, b);
    FirstInL1(Both(a, b), Both(a, b), [3]);
    assert [] + [Both(a, b)] == [Both(a, b)];
    OnlyTwoKeys(a, b, [3]);
  }

  lemma OnlyTwoKeys(a: Entry, b: Entry, k: Bytes)
    requires k != a.key && k != b.key
    ensures Find(Merge([[a], [b]], true), k) == None
  {
    MergeKeepsNewest([[a], [b]], true);
    LayersOfTwo(a, b, k);
    NewestIsGreatest([a, b], k);
  }

  // ----- an empty key

  /** The range kept for the merged table starts at its second key. */
  lemma EmptyKeyUnread(a: Entry, b: Entry) returns (states: seq<State>, steps: seq<Step>)
    requires a == Entry([], [10], false, 1) && b == Entry([2], [20], false, 2)
    ensures steps == TwoSteps(a, b) + [CompactInstall(0)]
    ensures GoesWrong(states, steps, [], None, Some(a))
  {
    hide Reaches, GoesWrong, One, Both, TwoSteps, Get;
    states, steps := TwoTables(a, b);
    var s := Idle([One(a), One(b)], [], [[One(a), One(b)]], 2, [a, b]);
    UnreadAnswer(s, a, b);
    states, steps := Finish(states, steps, s, CompactInstall(0), []);
  }

  lemma UnreadAnswer(s: State, a: Entry, b: Entry)
    requires a.key == [] && b.key == [2] && !a.tombstone && !b.tombstone
    requires s == Idle([One(a), One(b)], [], [[One(a), One(b)]], 2, [a, b])
    ensures Get(Next(s, CompactInstall(0)), []) == None
    ensures Live(Latest(Next(s, CompactInstall(0)).history, [])) == Some(a)
  {
    hide One, Both, Get, FindL1, GoodTable, Merge;
    InstallTwo(s, a, b);
    hide Next;
    var t := Next(s, CompactInstall(0));
    OnlyLevel1(t, []);
    MergeOfTwo(a, b);
    FirstInL1(Both(a, b), Both(a, b), []);
    assert [] + [Both(a, b)] == [Both(a, b)];
    assert [a, b][..1] == [a];
  }

  // ----- a rotation that meets a full queue

  function Filler(i: nat): Entry { Entry([2], [], false, i + 1) }

  function Fillers(n: nat): (r: seq<Entry>)
    ensures |r| == n && forall i :: 0 <= i < n ==> r[i] == Filler(i)
  {
    seq(n, i requires 0 <= i < n => Filler(i))
  }

  function Filled(n: nat): (r: seq<Frozen>)
    ensures |r| == n && forall i :: 0 <= i < n ==> r[i] == Frozen(i, [Filler(i)])
  {
    seq(n, i requires 0 <= i < n => Frozen(i, [Filler(i)]))
  }

  function Writes(n: nat): (r: seq<Step>)
    ensures |r| == n && forall i :: 0 <= i < n ==> r[i] == Write(Filler(i), true)
  {
    seq(n, i requires 0 <= i < n => Write(Filler(i), true))
  }

  /** n flushes. */
  function Drains(n: nat): seq<Step> { if n == 0 then [] else Drains(n - 1) + [FlushTake, FlushInstall] }

  /** Every write rotates, and nothing is flushed. */
  lemma {:induction false} FillQueue(n: nat) returns (states: seq<State>, steps: seq<Step>)
    requires n <= QUEUE_CAPACITY
    ensures steps == Writes(n)
    ensures Reaches(states, steps, State([], Filled(n), Filled(n), None, [], [], [], n, Fillers(n), Fillers(n)))
  {
    hide Reaches, FlushHarmless, InstallHarmless;
    if n == 0 {
      states, steps := Start();
    } else {
      states, steps := FillQueue(n - 1);
      var e, m := Filler(n - 1), n - 1;
      var s := State([], Filled(m), Filled(m), None, [], [], [], m, Fillers(m), Fillers(m));
      assert Upsert([], e) == [e];
      assert Filled(m) + [Frozen(m, [e])] == Filled(n) && Fillers(m) + [e] == Fillers(n);
      assert Writes(m) + [Write(e, true)] == Writes(n);
      states, steps := Extend(states, steps, s, Write(e, true));
    }
  }

  /** Flushing rotated memtables in order, while the queue and the list of them begin alike. */
  lemma {:induction false} Drain(states: seq<State>, steps: seq<Step>, s: State, n: nat)
    returns (reached: seq<State>, taken: seq<Step>, t: State)
    requires Reaches(states, steps, s) && s.flushing == None
    requires n <= |s.queue| && n <= |s.immutable| && s.queue[..n] == s.immutable[..n]
    requires forall i :: 0 <= i < n ==> s.queue[i].entries != []
    ensures taken == steps + Drains(n) && Reaches(reached, taken, t)
    ensures t.queue == s.queue[n..] && t.immutable == s.immutable[n..] && t.flushing == None
    ensures t.memtable == s.memtable && t.history == s.history && t.nextId == s.nextId
  {
    hide Reaches, FlushHarmless, InstallHarmless, TableOf;
    if n == 0 {
      reached, taken, t := states, steps, s;
    } else {
      reached, taken, t := Drain(states, steps, s, n - 1);
      var f := s.queue[n - 1];
      assert s.queue[..n][n - 1] == s.immutable[..n][n - 1];
      assert t.queue[0] == t.immutable[0] == f;
      var u := t.(flushing := Some(f), queue := t.queue[1..]);
      assert Next(t, FlushTake) == u;
      reached, taken := Extend(reached, taken, t, FlushTake);
      OldestIsHarmless(u);
      RemoveFirst(u.immutable);
      t := Next(u, FlushInstall);
      reached, taken := Extend(reached, taken, u, FlushInstall);
    }
  }

  /** Sixteen memtables wait. The seventeenth is rotated past the full queue, and never flushed; the
      eighteenth finds room again, and once it is flushed, the seventeenth hides it. */
  lemma SkippedMemtableHides(a: Entry, again: Entry) returns (states: seq<State>, steps: seq<Step>)
    requires a == Entry([1], [10], false, 17) && again == Entry([1], [11], false, 18)
    ensures steps == Writes(16) + [Write(a, true)] + Drains(1) + [Write(again, true)] + Drains(15) +
                     [FlushTake] + [FlushInstall]
    ensures GoesWrong(states, steps, [1], Some(a), Some(again))
  {
    hide Reaches, GoesWrong, FlushHarmless, InstallHarmless, Drains, Writes, Get, Filled, Fillers;
    states, steps := FillQueue(16);
    var s := State([], Filled(16), Filled(16), None, [], [], [], 16, Fillers(16), Fillers(16));
    var g, last := Frozen(16, [a]), Frozen(17, [again]);
    var s1 := s.(immutable := Filled(16) + [g], nextId := 17, wal := Fillers(16) + [a], history := Fillers(16) + [a]);
    assert Upsert([], a) == [a] && Upsert([], again) == [again];
    assert Next(s, Write(a, true)) == s1;
    states, steps := Extend(states, steps, s, Write(a, true));
    var s2;
    states, steps, s2 := Drain(states, steps, s1, 1);
    assert s2.immutable == Filled(16)[1..] + [g] && s2.queue == Filled(16)[1..];
    states, steps := Extend(states, steps, s2, Write(again, true));
    var s3 := Next(s2, Write(again, true));
    assert s3.immutable == Filled(16)[1..] + [g, last] && s3.queue == Filled(16)[1..] + [last];
    var s4;
    states, steps, s4 := Drain(states, steps, s3, 15);
    assert s4.immutable == [g, last] && s4.queue == [last];
    states, steps := Extend(states, steps, s4, FlushTake);
    var s5 := Next(s4, FlushTake);
    HiddenAnswer(s5, g, last, a, again);
    states, steps := Finish(states, steps, s5, FlushInstall, [1]);
  }

  lemma HiddenAnswer(s: State, g: Frozen, last: Frozen, a: Entry, again: Entry)
    requires g == Frozen(16, [a]) && last == Frozen(17, [again]) && s.immutable == [g, last] && s.flushing == Some(last)
    requires s.memtable == [] && s.history == Fillers(16) + [a] + [again]
    requires a.key == again.key == [1] && !a.tombstone && !again.tombstone
    ensures Get(Next(s, FlushInstall), [1]) == Some(a)
    ensures Live(Latest(Next(s, FlushInstall).history, [1])) == Some(again)
  {
    hide Fillers, TableOf;
    var t := Next(s, FlushInstall);
    assert [g, last][1..] == [last] && Remove([last], 17) == [last][1..] == [];
    assert t.immutable == [g];
    MemoryTop(t, [1]);
    OneFrozen(g);
    SingleLayer([a], [], [1]);
    assert FindInLayers([[a]], [1]) == Some(a) by { assert [[a]] + [] == [[a]]; }
  }
}
