/** Exactly when a step keeps every lookup right, and so exactly which traces are right throughout. */
module EngineLimits {
  import opened Bytes
  import opened Entries
  import opened Compaction
  import opened EngineAges
  import opened EngineModel

  // ----- a flush, whether or not it is the oldest one

  /** Wherever both the flushed memtable and an older one still in memory would answer a key, both
      answers are tombstones. */
  ghost predicate NothingHidden(s: State, older: seq<Frozen>, f: Frozen, newer: seq<Frozen>)
  {
    forall k ::
      var above := FindInLayers([s.memtable] + Reversed(FrozenLayers(newer)), k);
      var here, below := Find(f.entries, k), FindInLayers(Reversed(FrozenLayers(older)), k);
      above.None? && here.Some? && below.Some? ==> here.value.tombstone && below.value.tombstone
  }

  ghost predicate FlushHarmless(s: State)
    requires s.flushing.Some?
  {
    var f := s.flushing.value;
    var i := Position(s.immutable, f.id);
    i < |s.immutable| ==> NothingHidden(s, s.immutable[..i], f, s.immutable[i + 1..])
  }

  lemma {:induction false} RemoveMiddle(older: seq<Frozen>, f: Frozen, newer: seq<Frozen>)
    requires forall x :: x in older ==> x.id != f.id
    ensures Remove(older + [f] + newer, f.id) == older + newer
  {
    var all := older + [f] + newer;
    if older == [] {
      assert all[1..] == newer && older + newer == newer;
    } else {
      RemoveMiddle(older[1..], f, newer);
      assert all[1..] == older[1..] + [f] + newer;
      assert older + newer == [older[0]] + (older[1..] + newer);
    }
  }

  /** What memory answers when the rotated memtables are older, f and newer. */
  lemma MemorySplit(s: State, older: seq<Frozen>, f: Frozen, newer: seq<Frozen>, k: Bytes)
    requires s.immutable == older + [f] + newer
    ensures var above := FindInLayers([s.memtable] + Reversed(FrozenLayers(newer)), k);
      FindInLayers(Memory(s), k) ==
        if above.Some? then above
        else if Find(f.entries, k).Some? then Find(f.entries, k)
        else FindInLayers(Reversed(FrozenLayers(older)), k)
  {
    hide FindInLayers, Find, Reversed, FrozenLayers;
    FrozensConcat(older + [f], newer);
    FrozensConcat(older, [f]);
    OneFrozen(f);
    ReversedConcat(FrozenLayers(older) + [f.entries], FrozenLayers(newer));
    ReversedConcat(FrozenLayers(older), [f.entries]);
    SingleLayer(f.entries, Reversed(FrozenLayers(older)), k);
    var top, rest := [s.memtable] + Reversed(FrozenLayers(newer)), [f.entries] + Reversed(FrozenLayers(older));
    assert Memory(s) == top + rest;
    LayersConcat(top, rest, k);
  }

  lemma MemoryWithout(s: State, older: seq<Frozen>, newer: seq<Frozen>, k: Bytes)
    requires s.immutable == older + newer
    ensures var above := FindInLayers([s.memtable] + Reversed(FrozenLayers(newer)), k);
      FindInLayers(Memory(s), k) == if above.Some? then above else FindInLayers(Reversed(FrozenLayers(older)), k)
  {
    hide FindInLayers, Reversed, FrozenLayers;
    FrozensConcat(older, newer);
    ReversedConcat(FrozenLayers(older), FrozenLayers(newer));
    var top, rest := [s.memtable] + Reversed(FrozenLayers(newer)), Reversed(FrozenLayers(older));
    assert Memory(s) == top + rest;
    LayersConcat(top, rest, k);
  }

  /** A record of an older memtable is never the flushed memtable's record of the same key. */
  lemma DifferentRecords(older: seq<Frozen>, f: Frozen, newer: seq<Frozen>, k: Bytes)
    requires Ages(FrozenLayers(older + [f] + newer))
    requires Find(f.entries, k).Some? && FindInLayers(Reversed(FrozenLayers(older)), k).Some?
    ensures Find(f.entries, k) != FindInLayers(Reversed(FrozenLayers(older)), k)
  {
    hide Ages, Reversed, FindInLayers, Find, Flatten, FrozenLayers;
    FrozensConcat(older + [f], newer);
    FrozensConcat(older, [f]);
    OneFrozen(f);
    AgesConcat(FrozenLayers(older) + [f.entries], FrozenLayers(newer));
    AgesConcat(FrozenLayers(older), [f.entries]);
    LayersReversed(FrozenLayers(older), k);
  }

  /** Wherever both the flushed memtable and an older one still in memory would answer a key, they
      answer alike. */
  ghost predicate NothingChanges(s: State, older: seq<Frozen>, f: Frozen, newer: seq<Frozen>)
  {
    forall k ::
      var above := FindInLayers([s.memtable] + Reversed(FrozenLayers(newer)), k);
      var here, below := Find(f.entries, k), FindInLayers(Reversed(FrozenLayers(older)), k);
      above.None? && here.Some? && below.Some? ==> Live(here) == Live(below)
  }

  lemma FlushSplitExact(s: State, older: seq<Frozen>, f: Frozen, newer: seq<Frozen>)
    requires s.immutable == older + [f] + newer && s.flushing == Some(f) && f.entries != []
    requires forall x :: x in older ==> x.id != f.id
    requires Correct(s)
    ensures Correct(InstallFlush(s)) <==> NothingChanges(s, older, f, newer)
  {
    hide FindInLayers, Find, FindL1, Latest, Reversed, FrozenLayers, TableLayers, Memory;
    var t := InstallFlush(s);
    RemoveMiddle(older, f, newer);
    forall k
      ensures var above := FindInLayers([s.memtable] + Reversed(FrozenLayers(newer)), k);
        var here, below := Find(f.entries, k), FindInLayers(Reversed(FrozenLayers(older)), k);
        Get(t, k) == Get(s, k) <==> (above.None? && here.Some? && below.Some? ==> Live(here) == Live(below))
      ensures Get(s, k) == Live(Latest(t.history, k))
    {
      MemorySplit(s, older, f, newer, k);
      MemoryWithout(t, older, newer, k);
      TablesConcat(s.l0, [TableOf(f.entries)]);
      OneTable(TableOf(f.entries));
      ReversedConcat(TableLayers(s.l0), [f.entries]);
      SingleLayer(f.entries, Reversed(TableLayers(s.l0)), k);
    }
  }

  /** In a trace the two records differ, so they answer alike only as tombstones. */
  lemma HiddenExact(s: State, older: seq<Frozen>, f: Frozen, newer: seq<Frozen>)
    requires Ages(FrozenLayers(older + [f] + newer))
    ensures NothingChanges(s, older, f, newer) <==> NothingHidden(s, older, f, newer)
  {
    hide FindInLayers, Find, Reversed, FrozenLayers, Ages;
    forall k | Find(f.entries, k).Some? && FindInLayers(Reversed(FrozenLayers(older)), k).Some?
      ensures var here, below := Find(f.entries, k), FindInLayers(Reversed(FrozenLayers(older)), k);
        Live(here) == Live(below) <==> here.value.tombstone && below.value.tombstone
    {
      DifferentRecords(older, f, newer, k);
    }
  }

  /** Installing a flush keeps every lookup right exactly when it is harmless. */
  lemma FlushExact(s: State)
    requires Inv(s) && Correct(s) && s.flushing.Some?
    ensures Correct(InstallFlush(s)) <==> FlushHarmless(s)
  {
    hide Correct, NothingHidden, NothingChanges, Ages, GoodFrozens, GoodMemory, GoodTables;
    var f := s.flushing.value;
    FlushingAt(s);
    var i := Position(s.immutable, f.id);
    assert s.immutable == s.immutable[..i] + [f] + s.immutable[i + 1..];
    forall x | x in s.immutable[..i] ensures x.id != f.id {}
    FlushSplitExact(s, s.immutable[..i], f, s.immutable[i + 1..]);
    HiddenExact(s, s.immutable[..i], f, s.immutable[i + 1..]);
  }

  /** A flush of the oldest rotated memtable always is. */
  lemma OldestIsHarmless(s: State)
    requires s.immutable != [] && s.flushing == Some(s.immutable[0])
    ensures FlushHarmless(s)
  {
    assert s.immutable[..0] == [] && FrozenLayers([]) == [] && Reversed(FrozenLayers([])) == [];
  }

  // ----- a compaction, whenever its snapshot was taken

  /** For every key that memory does not answer: if level 0 does, then level 1 does not, and the live
      newest record of the snapshot is what level 0 answers; if neither level does, the snapshot has no
      live record of it. An empty key is read back from a table only if it stands alone there. */
  ghost predicate InstallHarmless(s: State, inputs: seq<Table>)
  {
    var merged := Merge(TableLayers(inputs), true);
    merged != [] ==> forall k :: FindInLayers(Memory(s), k).None? ==> KeyHarmless(s, inputs, |merged| == 1, k)
  }

  ghost predicate KeyHarmless(s: State, inputs: seq<Table>, alone: bool, k: Bytes)
  {
    var now, below := FindInLayers(Reversed(TableLayers(s.l0)), k), FindL1(s.l1, k);
    var early := if k != [] || alone then Live(FindInLayers(Reversed(TableLayers(inputs)), k)) else None;
    && (now.Some? ==> below.None? && Live(now) == early)
    && (now.None? && below.None? ==> early.None?)
  }

  lemma {:induction false} FindL1Member(ts: seq<Table>, k: Bytes)
    requires FindL1(ts, k).Some?
    ensures FindL1(ts, k).value in Tables(ts)
    ensures exists t :: t in ts && FindL1(ts, k).value in t.entries
    decreases |ts|
  {
    hide InRange;
    assert ts == [ts[0]] + ts[1..];
    TablesConcat([ts[0]], ts[1..]);
    OneTable(ts[0]);
    if InRange(ts[0], k) && Find(ts[0].entries, k).Some? {
      assert ts[0] in ts;
    } else {
      FindL1Member(ts[1..], k);
    }
  }

  /** Level 1 holds live records only, older than anything in level 0. */
  lemma Level1Answer(s: State, k: Bytes)
    requires Inv(s) && FindL1(s.l1, k).Some?
    ensures !FindL1(s.l1, k).value.tombstone
    ensures FindInLayers(Reversed(TableLayers(s.l0)), k).Some? ==>
              FindInLayers(Reversed(TableLayers(s.l0)), k).value.ts > FindL1(s.l1, k).value.ts
  {
    hide FindL1, FindInLayers, Reversed, GoodMemory, GoodQueue, GoodTables, GoodJob;
    FindL1Member(s.l1, k);
    LayersReversed(TableLayers(s.l0), k);
  }

  /** Installing any compaction of any snapshot keeps every lookup right exactly when it is harmless:
      overlapping ones, ones behind later flushes, and ones after a rotation that met a full queue. */
  lemma InstallExact(s: State, inputs: seq<Table>)
    requires Inv(s) && Correct(s) && GoodJob(s, inputs)
    ensures Correct(InstallCompaction(s, inputs)) <==> InstallHarmless(s, inputs)
  {
    hide FindInLayers, FindL1, Latest, Reversed, TableLayers, Memory, Merge, GoodJob, Inv;
    var t, merged := InstallCompaction(s, inputs), Merge(TableLayers(inputs), true);
    if merged != [] {
      forall k
        ensures Get(t, k) == Get(s, k) <==>
                (FindInLayers(Memory(s), k).None? ==> KeyHarmless(s, inputs, |merged| == 1, k))
        ensures Get(s, k) == Live(Latest(t.history, k))
      {
        LocateCompaction(s, inputs, k);
        if FindL1(s.l1, k).Some? {
          Level1Answer(s, k);
        }
      }
    }
  }

  /** So a compaction makes a key stale whose level 0 answer it takes down while level 1 also has one. */
  lemma RewrittenKeyGoesStale(s: State, inputs: seq<Table>, k: Bytes)
    requires Inv(s) && Correct(s) && GoodJob(s, inputs) && Merge(TableLayers(inputs), true) != []
    requires FindInLayers(Memory(s), k).None? && FindInLayers(Reversed(TableLayers(s.l0)), k).Some?
    requires FindL1(s.l1, k).Some?
    ensures !Correct(InstallCompaction(s, inputs))
  {
    hide Inv, Correct, GoodJob, FindInLayers, FindL1, Merge;
    InstallExact(s, inputs);
    assert !KeyHarmless(s, inputs, |Merge(TableLayers(inputs), true)| == 1, k);
  }

  // ----- every step, and whole traces

  ghost predicate Harmless(s: State, step: Step)
    requires Enabled(s, step)
  {
    match step
    case FlushInstall => FlushHarmless(s)
    case CompactInstall(j) => InstallHarmless(s, s.jobs[j])
    case _ => true
  }

  lemma WriteKeepsCorrect(s: State, e: Entry, rotate: bool)
    requires Ascending(s.memtable) && Correct(s)
    ensures Correct(WriteTo(s, e, rotate))
  {
    hide Locate, Upsert, Rotate, Ascending;
    forall k ensures Get(WriteTo(s, e, rotate), k) == Live(Latest(s.history + [e], k)) {
      LocateWrite(s, e, k);
      LocateRotate(WriteTo(s, e, false), k);
      assert (s.history + [e])[..|s.history|] == s.history;
    }
    RotateHistory(WriteTo(s, e, false));
  }

  lemma InvMemtable(s: State)
    requires Inv(s)
    ensures Ascending(s.memtable)
  {}

  lemma RotateHistory(s: State)
    ensures Rotate(s).history == s.history
  {}

  /** Lookups do not depend on the queue or on pending compactions. */
  lemma SameLayers(s: State, t: State)
    requires s.memtable == t.memtable && s.immutable == t.immutable && s.l0 == t.l0 && s.l1 == t.l1
    requires s.history == t.history
    ensures Correct(s) <==> Correct(t)
  {
    hide Latest, FindInLayers, FindL1;
    forall k ensures Get(s, k) == Get(t, k) {
      assert Memory(s) == Memory(t);
    }
    if Correct(s) {
      forall k ensures Get(t, k) == Live(Latest(t.history, k)) { assert Get(s, k) == Live(Latest(s.history, k)); }
    }
    if Correct(t) {
      forall k ensures Get(s, k) == Live(Latest(s.history, k)) { assert Get(t, k) == Live(Latest(t.history, k)); }
    }
  }

  /** A step keeps every lookup right exactly when it is harmless. */
  lemma NextExact(s: State, step: Step)
    requires Inv(s) && Correct(s) && Enabled(s, step)
    ensures Correct(Next(s, step)) <==> Harmless(s, step)
  {
    hide Inv, Correct, WriteTo, InstallFlush, InstallCompaction, FlushHarmless, InstallHarmless;
    match step {
      case Write(e, rotate) =>
        InvMemtable(s);
        WriteKeepsCorrect(s, e, rotate);
      case FlushTake => SameLayers(s, Next(s, step));
      case FlushInstall => FlushExact(s);
      case CompactTake => SameLayers(s, Next(s, step));
      case CompactInstall(j) =>
        JobIsGood(s, j);
        InstallExact(s, s.jobs[j]);
        SameLayers(InstallCompaction(s, s.jobs[j]), Next(s, step));
    }
  }

  /** A trace answers every key with its last write at every point exactly when each of its steps is
      harmless where it is taken. */
  lemma TracesExact(states: seq<State>, steps: seq<Step>)
    requires IsTrace(states, steps)
    ensures (forall i :: 0 <= i < |states| ==> Correct(states[i])) <==>
            (forall i :: 0 <= i < |steps| ==> Harmless(states[i], steps[i]))
  {
    hide Correct, Harmless, Enabled, Next, Inv;
    if forall i :: 0 <= i < |steps| ==> Harmless(states[i], steps[i]) {
      forall i | 0 <= i < |states| ensures Correct(states[i]) {
        HarmlessPrefix(states, steps, i);
      }
    } else {
      var i :| 0 <= i < |steps| && !Harmless(states[i], steps[i]);
      TracesKeepInv(states, steps, i);
      if Correct(states[i]) {
        NextExact(states[i], steps[i]);
        assert !Correct(states[i + 1]);
      }
    }
  }

  lemma {:induction false} HarmlessPrefix(states: seq<State>, steps: seq<Step>, i: nat)
    requires IsTrace(states, steps) && i < |states|
    requires forall j :: 0 <= j < i ==> Harmless(states[j], steps[j])
    ensures Correct(states[i])
    decreases i
  {
    hide Correct, Harmless, Enabled, Next, Inv;
    if i == 0 {
      InitCorrect();
    } else {
      HarmlessPrefix(states, steps, i - 1);
      TracesKeepInv(states, steps, i - 1);
      NextExact(states[i - 1], steps[i - 1]);
    }
  }

  lemma InitCorrect()
    ensures Correct(INIT)
  {
    forall k ensures Get(INIT, k) == None {
      MemoryTop(INIT, k);
      assert Reversed(FrozenLayers([])) == [] && Reversed(TableLayers([])) == [];
    }
  }

  // ----- key ranges

  /** A table's reported range covers all of its keys exactly when its first key is not empty, or is
      the only one. */
  lemma RangeExact(es: seq<Entry>)
    requires Ascending(es) && es != []
    ensures (forall e :: e in es ==> InRange(TableOf(es), e.key)) <==> es[0].key != [] || |es| == 1
  {
    hide Less;
    LessIsStrictTotalOrder();
    assert es[0] in es;
    if es[0].key != [] || |es| == 1 {
      forall e | e in es ensures InRange(TableOf(es), e.key) {
        var i :| 0 <= i < |es| && es[i] == e;
        assert i > 0 ==> Less(es[0].key, es[i].key);
        assert i < |es| - 1 ==> Less(es[i].key, es[|es| - 1].key);
      }
    } else {
      assert Less(es[0].key, es[1].key);
    }
  }
}
