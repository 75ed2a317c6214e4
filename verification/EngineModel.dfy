/** The storage engine of go/pkg/lsm/engine.go as a state machine over values: every lock-protected
    region is one step, and reads may come between any two steps. */
module EngineModel {
  import opened Bytes
  import opened Entries
  import opened Compaction
  import opened EngineAges
  import TableFormat
  import SSTable

  const QUEUE_CAPACITY: nat := 16

  /** A rotated memtable; the number stands for its identity as a pointer. */
  datatype Frozen = Frozen(id: nat, entries: seq<Entry>)

  /** A table, with the key range its metadata reports. */
  datatype Table = Table(entries: seq<Entry>, minKey: Bytes, maxKey: Bytes)

  function TableOf(es: seq<Entry>): Table { Table(es, SSTable.TrackedMin(es), TableFormat.LastKey(es)) }

  /** All lists are oldest first. */
  datatype State = State(
    memtable: seq<Entry>,
    immutable: seq<Frozen>,
    queue: seq<Frozen>,           // flushChan
    flushing: Option<Frozen>,     // what the flush worker is writing out
    l0: seq<Table>,
    l1: seq<Table>,
    jobs: seq<seq<Table>>,        // snapshots of compactions that have not installed yet
    nextId: nat,
    wal: seq<Entry>,              // the writes in the log file
    history: seq<Entry>)          // every write so far

  const INIT: State := State([], [], [], None, [], [], [], 0, [], [])

  datatype Step =
    | Write(e: Entry, rotate: bool)   // Put and Delete; rotate when the size limit is reached
    | FlushTake                       // the worker receives from flushChan
    | FlushInstall                    // the locked region of flushMemtable
    | CompactTake                     // the first locked region of TriggerCompaction
    | CompactInstall(job: nat)        // the second

  // ----- reading

  function FrozenLayers(fs: seq<Frozen>): (r: seq<seq<Entry>>)
    ensures |r| == |fs| && forall i :: 0 <= i < |fs| ==> r[i] == fs[i].entries
  {
    seq(|fs|, i requires 0 <= i < |fs| => fs[i].entries)
  }

  function TableLayers(ts: seq<Table>): (r: seq<seq<Entry>>)
    ensures |r| == |ts| && forall i :: 0 <= i < |ts| ==> r[i] == ts[i].entries
  {
    seq(|ts|, i requires 0 <= i < |ts| => ts[i].entries)
  }

  /** The memtables, newest first. */
  function Memory(s: State): seq<seq<Entry>> { [s.memtable] + Reversed(FrozenLayers(s.immutable)) }

  predicate InRange(t: Table, k: Bytes) { !Less(k, t.minKey) && !Less(t.maxKey, k) }

  /** Level 1 is searched oldest first, skipping tables whose range excludes the key. */
  function FindL1(ts: seq<Table>, k: Bytes): (r: Option<Entry>)
    ensures r.Some? ==> r.value.key == k
  {
    if ts == [] then None
    else if InRange(ts[0], k) && Find(ts[0].entries, k).Some? then Find(ts[0].entries, k)
    else FindL1(ts[1..], k)
  }

  /** The record that Get stops at. */
  function Locate(s: State, k: Bytes): Option<Entry>
  {
    var m := FindInLayers(Memory(s), k);
    if m.Some? then m
    else
      var c := FindInLayers(Reversed(TableLayers(s.l0)), k);
      if c.Some? then c else FindL1(s.l1, k)
  }

  /** Get: the write whose value is returned, or None. */
  function Get(s: State, k: Bytes): Option<Entry> { Live(Locate(s, k)) }

  /** Get returns exactly the last write of every key, or nothing if that was a deletion. */
  ghost predicate Correct(s: State)
  {
    forall k :: Get(s, k) == Live(Latest(s.history, k))
  }

  // ----- stepping

  function Remove(fs: seq<Frozen>, id: nat): seq<Frozen>
  {
    if fs == [] then [] else if fs[0].id == id then fs[1..] else [fs[0]] + Remove(fs[1..], id)
  }

  /** rotateMemtable: when the channel is full the send is skipped. */
  function Rotate(s: State): State
  {
    var f := Frozen(s.nextId, s.memtable);
    s.(memtable := [], immutable := s.immutable + [f], nextId := s.nextId + 1,
       queue := if |s.queue| < QUEUE_CAPACITY then s.queue + [f] else s.queue)
  }

  function WriteTo(s: State, e: Entry, rotate: bool): State
  {
    var t := s.(memtable := Upsert(s.memtable, e), wal := s.wal + [e], history := s.history + [e]);
    if rotate then Rotate(t) else t
  }

  function InstallFlush(s: State): State
    requires s.flushing.Some?
  {
    var f := s.flushing.value;
    if f.entries == [] then s.(flushing := None)
    else
      var immutable := Remove(s.immutable, f.id);
      s.(flushing := None, l0 := s.l0 + [TableOf(f.entries)], immutable := immutable,
         wal := if immutable == [] then [] else s.wal)
  }

  function InstallCompaction(s: State, inputs: seq<Table>): State
  {
    var merged := Merge(TableLayers(inputs), true);
    if merged == [] then s else s.(l1 := s.l1 + [TableOf(merged)], l0 := [])
  }

  predicate Enabled(s: State, step: Step)
  {
    match step
    case Write(e, _) => forall w :: w in s.history ==> w.ts < e.ts
    case FlushTake => s.flushing.None? && s.queue != []
    case FlushInstall => s.flushing.Some?
    case CompactTake => |s.l0| >= 2
    case CompactInstall(j) => j < |s.jobs|
  }

  function Next(s: State, step: Step): State
    requires Enabled(s, step)
  {
    match step
    case Write(e, rotate) => WriteTo(s, e, rotate)
    case FlushTake => s.(flushing := Some(s.queue[0]), queue := s.queue[1..])
    case FlushInstall => InstallFlush(s)
    case CompactTake => s.(jobs := s.jobs + [s.l0])
    case CompactInstall(j) => InstallCompaction(s, s.jobs[j]).(jobs := s.jobs[..j] + s.jobs[j + 1..])
  }

  /** The step is possible and leads from s to t. */
  ghost predicate Takes(s: State, step: Step, t: State) { Enabled(s, step) && t == Next(s, step) }

  // ----- what every step keeps

  function Tables(ts: seq<Table>): seq<Entry> { Flatten(TableLayers(ts)) }

  function Frozens(fs: seq<Frozen>): seq<Entry> { Flatten(FrozenLayers(fs)) }

  /** The pending flushes, in order. */
  function Pending(s: State): seq<Frozen>
  {
    (if s.flushing.Some? then [s.flushing.value] else []) + s.queue
  }

  /** A table written from an ascending list. */
  predicate GoodTable(t: Table) { Ascending(t.entries) && t == TableOf(t.entries) }

  /** Tables whose records are older than all that is still to be flushed, and none of which is still in
      a rotated memtable. A memtable that met a full queue may be older than they are. */
  predicate GoodTables(s: State, ts: seq<Table>)
  {
    && (forall t :: t in ts ==> GoodTable(t))
    && FromHistory(Tables(ts), s.history)
    && Older(Tables(ts), Frozens(Pending(s))) && Older(Tables(ts), s.memtable)
    && Apart(Frozens(s.immutable), Tables(ts))
  }

  /** Level 0 and every snapshot of it. */
  predicate GoodJob(s: State, inputs: seq<Table>) { GoodTables(s, inputs) && Ages(TableLayers(inputs)) }

  predicate GoodFrozens(fs: seq<Frozen>, nextId: nat)
  {
    && (forall i :: 0 <= i < |fs| ==> Ascending(fs[i].entries) && fs[i].entries != [] && fs[i].id < nextId)
    && (forall i, j :: 0 <= i < j < |fs| ==> fs[i].id < fs[j].id)
  }

  /** The rotated memtables and those of them that wait to be flushed. */
  predicate QueueForm(s: State)
  {
    && GoodFrozens(s.immutable, s.nextId) && GoodFrozens(Pending(s), s.nextId)
    && forall p :: p in Pending(s) ==> p in s.immutable
  }

  predicate GoodQueue(s: State)
  {
    QueueForm(s) && Ages(FrozenLayers(s.immutable)) && Ages(FrozenLayers(Pending(s)))
  }

  predicate GoodMemory(s: State)
  {
    && Increasing(s.history) && Ascending(s.memtable)
    && FromHistory(s.memtable, s.history) && FromHistory(Frozens(s.immutable), s.history)
    && Older(Frozens(s.immutable), s.memtable)
    && IsSuffix(s.wal, s.history)
  }

  predicate IsSuffix(a: seq<Entry>, b: seq<Entry>) { |a| <= |b| && a == b[|b| - |a|..] }

  /** What holds at every point of every trace. */
  predicate Inv(s: State)
  {
    && GoodMemory(s) && GoodQueue(s)
    && GoodJob(s, s.l0) && GoodTables(s, s.l1) && Older(Tables(s.l1), Tables(s.l0))
    && (forall e :: e in Tables(s.l1) ==> !e.tombstone)
    && (forall j :: j in s.jobs ==> GoodJob(s, j))
  }

  // ----- ages, in parts

  lemma {:induction false} AgesAgeOrdered(layers: seq<seq<Entry>>, k: Bytes)
    requires Ages(layers)
    ensures AgeOrdered(layers, k)
    decreases |layers|
  {
    if layers != [] {
      AgesAgeOrdered(layers[1..], k);
      forall i, j, a, b | 0 <= i < j < |layers| && a in layers[i] && b in layers[j] && a.key == k == b.key
        ensures a.ts < b.ts
      {
        assert layers[j] == layers[1..][j - 1];
        InFlatten(layers[1..], b);
        if i > 0 { assert layers[i] == layers[1..][i - 1]; }
      }
    }
  }

  lemma TablesConcat(a: seq<Table>, b: seq<Table>)
    ensures TableLayers(a + b) == TableLayers(a) + TableLayers(b)
    ensures Tables(a + b) == Tables(a) + Tables(b)
  {
    assert TableLayers(a + b) == TableLayers(a) + TableLayers(b);
    FlattenConcat(TableLayers(a), TableLayers(b));
  }

  lemma FrozensConcat(a: seq<Frozen>, b: seq<Frozen>)
    ensures FrozenLayers(a + b) == FrozenLayers(a) + FrozenLayers(b)
    ensures Frozens(a + b) == Frozens(a) + Frozens(b)
  {
    assert FrozenLayers(a + b) == FrozenLayers(a) + FrozenLayers(b);
    FlattenConcat(FrozenLayers(a), FrozenLayers(b));
  }

  lemma OneTable(t: Table)
    ensures TableLayers([t]) == [t.entries] && Tables([t]) == t.entries
  {
    FlattenSnoc([], t.entries);
    assert TableLayers([t]) == [t.entries] == [] + [t.entries];
  }

  lemma OneFrozen(f: Frozen)
    ensures FrozenLayers([f]) == [f.entries] && Frozens([f]) == f.entries
  {
    FlattenSnoc([], f.entries);
    assert FrozenLayers([f]) == [f.entries] == [] + [f.entries];
  }

  // ----- a new write

  lemma UpsertParts(es: seq<Entry>, e: Entry)
    ensures forall x :: x in Upsert(es, e) ==> x == e || x in es
    ensures Upsert(es, e) != []
  {
    KeysUpsert(es, e);
  }

  lemma WriteKeepsTables(s: State, e: Entry, ts: seq<Table>)
    requires GoodTables(s, ts) && forall w :: w in s.history ==> w.ts < e.ts
    ensures GoodTables(WriteTo(s, e, false), ts)
  {
    hide Ascending, Upsert, GoodTable, Flatten;
    UpsertParts(s.memtable, e);
  }

  /** A write, before any rotation. */
  lemma WriteKeepsInv(s: State, e: Entry)
    requires Inv(s) && forall w :: w in s.history ==> w.ts < e.ts
    ensures Inv(WriteTo(s, e, false))
  {
    hide Ascending, Upsert, GoodTables, Ages, GoodFrozens, Increasing, Flatten, IsSuffix;
    var t := WriteTo(s, e, false);
    UpsertParts(s.memtable, e);
    AscendingUpsert(s.memtable, e);
    IncreasingAppend(s.history, e);
    SuffixAppend(s.wal, s.history, e);
    WriteKeepsTables(s, e, s.l0);
    WriteKeepsTables(s, e, s.l1);
    forall j | j in s.jobs ensures GoodJob(t, j) {
      WriteKeepsTables(s, e, j);
    }
  }

  lemma SuffixAppend(a: seq<Entry>, b: seq<Entry>, e: Entry)
    requires IsSuffix(a, b)
    ensures IsSuffix(a + [e], b + [e])
  {}

  // ----- rotating

  lemma RotateKeepsTables(s: State, ts: seq<Table>)
    requires GoodTables(s, ts)
    ensures GoodTables(Rotate(s), ts)
  {
    hide Ascending, GoodTable, Flatten, Older;
    var f := Frozen(s.nextId, s.memtable);
    FrozensConcat(s.immutable, [f]);
    FrozensConcat(Pending(s), [f]);
    OneFrozen(f);
    OlderParts(Frozens(Pending(s)), s.memtable, Tables(ts));
    NothingOlder(Tables(ts));
    OlderIsApart(Tables(ts), s.memtable);
    assert |s.queue| < QUEUE_CAPACITY ==> Pending(Rotate(s)) == Pending(s) + [f];
  }

  lemma OlderIsApart(a: seq<Entry>, b: seq<Entry>)
    requires Older(a, b)
    ensures Apart(b, a)
  {}

  lemma RotateKeepsQueue(s: State)
    requires GoodQueue(s) && s.memtable != [] && Ascending(s.memtable) && Older(Frozens(s.immutable), s.memtable)
    ensures GoodQueue(Rotate(s))
  {
    hide Ascending, Flatten, Older, Ages;
    var f := Frozen(s.nextId, s.memtable);
    FrozensConcat(s.immutable, [f]);
    FrozensConcat(Pending(s), [f]);
    OneFrozen(f);
    AgesOne(s.memtable);
    AgesConcat(FrozenLayers(s.immutable), [s.memtable]);
    AgesConcat(FrozenLayers(Pending(s)), [s.memtable]);
    PendingInMemory(s, s.memtable);
    assert |s.queue| < QUEUE_CAPACITY ==> Pending(Rotate(s)) == Pending(s) + [f];
  }

  lemma InFrozens(fs: seq<Frozen>, e: Entry)
    ensures e in Frozens(fs) <==> exists f :: f in fs && e in f.entries
  {
    InFlatten(FrozenLayers(fs), e);
    if f :| f in fs && e in f.entries {
      var i :| 0 <= i < |fs| && fs[i] == f;
      assert e in FrozenLayers(fs)[i];
    }
  }

  lemma FrozensSubset(a: seq<Frozen>, b: seq<Frozen>)
    requires forall f :: f in a ==> f in b
    ensures forall e :: e in Frozens(a) ==> e in Frozens(b)
  {
    hide Frozens;
    forall e | e in Frozens(a) ensures e in Frozens(b) {
      InFrozens(a, e);
      InFrozens(b, e);
    }
  }

  lemma PendingInMemory(s: State, m: seq<Entry>)
    requires (forall p :: p in Pending(s) ==> p in s.immutable) && Older(Frozens(s.immutable), m)
    ensures Older(Frozens(Pending(s)), m)
  {
    hide Pending, Frozens;
    FrozensSubset(Pending(s), s.immutable);
  }

  lemma RotateKeepsInv(s: State)
    requires Inv(s) && s.memtable != []
    ensures Inv(Rotate(s))
  {
    hide Ascending, GoodTables, GoodQueue, Increasing, Flatten, Ages, Older, IsSuffix;
    var f := Frozen(s.nextId, s.memtable);
    var t := Rotate(s);
    FrozensConcat(s.immutable, [f]);
    OneFrozen(f);
    NothingOlder(Frozens(t.immutable));
    RotateKeepsQueue(s);
    RotateKeepsTables(s, s.l0);
    RotateKeepsTables(s, s.l1);
    forall j | j in s.jobs ensures GoodJob(t, j) {
      RotateKeepsTables(s, j);
    }
    assert Ascending([]) by { NothingAscends(); }
  }

  lemma NothingAscends()
    ensures Ascending([])
  {}

  // ----- flushing

  /** The first memtable with the number, or the end. */
  function Position(fs: seq<Frozen>, id: nat): (i: nat)
    ensures i <= |fs| && (i < |fs| ==> fs[i].id == id) && forall j :: 0 <= j < i ==> fs[j].id != id
    ensures i == |fs| ==> forall f :: f in fs ==> f.id != id
  {
    if fs == [] then 0 else if fs[0].id == id then 0 else 1 + Position(fs[1..], id)
  }

  lemma {:induction false} RemoveAt(fs: seq<Frozen>, id: nat)
    requires Position(fs, id) < |fs|
    ensures Remove(fs, id) == fs[..Position(fs, id)] + fs[Position(fs, id) + 1..]
  {
    var i := Position(fs, id);
    if i > 0 {
      RemoveAt(fs[1..], id);
      assert fs[..i] == [fs[0]] + fs[1..][..i - 1];
    }
  }

  /** What is being flushed stands among the rotated memtables. */
  lemma FlushingAt(s: State)
    requires QueueForm(s) && s.flushing.Some?
    ensures var f := s.flushing.value; var i := Position(s.immutable, f.id);
      i < |s.immutable| && s.immutable[i] == f && f.entries != [] && Ascending(f.entries)
  {
    hide Ascending;
    var f := s.flushing.value;
    assert Pending(s)[0] == f && f in Pending(s);
    var j :| 0 <= j < |s.immutable| && s.immutable[j] == f;
    var i := Position(s.immutable, f.id);
  }

  lemma FormShrinks(fs: seq<Frozen>, i: nat, rest: seq<Frozen>, nextId: nat)
    requires i < |fs| && GoodFrozens(fs, nextId) && GoodFrozens([fs[i]] + rest, nextId)
    requires forall p :: p in [fs[i]] + rest ==> p in fs
    ensures var left := fs[..i] + fs[i + 1..];
      GoodFrozens(left, nextId) && GoodFrozens(rest, nextId) && (forall p :: p in rest ==> p in left)
  {
    hide GoodFrozens;
    FrozensLeft(fs, i, nextId);
    FrozensLeft([fs[i]] + rest, 0, nextId);
    assert ([fs[i]] + rest)[..0] + ([fs[i]] + rest)[1..] == rest;
    forall p | p in rest ensures p in fs[..i] + fs[i + 1..] {
      assert p in [fs[i]] + rest;
    }
  }

  lemma FlushKeepsForm(s: State)
    requires QueueForm(s) && s.flushing.Some?
    ensures QueueForm(InstallFlush(s))
    ensures var i := Position(s.immutable, s.flushing.value.id);
      InstallFlush(s).immutable == s.immutable[..i] + s.immutable[i + 1..]
  {
    var f, t := s.flushing.value, InstallFlush(s);
    FlushingAt(s);
    hide GoodFrozens;
    RemoveAt(s.immutable, f.id);
    hide Remove;
    assert Pending(t) == s.queue;
    FormShrinks(s.immutable, Position(s.immutable, f.id), s.queue, s.nextId);
  }

  lemma AgesShrink(fs: seq<Frozen>, i: nat, rest: seq<Frozen>)
    requires i < |fs| && Ages(FrozenLayers(fs)) && Ages(FrozenLayers([fs[i]] + rest))
    ensures Ages(FrozenLayers(fs[..i] + fs[i + 1..])) && Ages(FrozenLayers(rest))
    ensures forall p :: p in fs[..i] + fs[i + 1..] ==> p in fs
  {
    hide Ages, FrozenLayers;
    assert fs == fs[..i] + ([fs[i]] + fs[i + 1..]);
    AgesWithout(fs[..i], fs[i], fs[i + 1..]);
    assert [] + ([fs[i]] + rest) == [fs[i]] + rest && [] + rest == rest;
    AgesWithout([], fs[i], rest);
  }

  lemma FlushKeepsQueue(s: State)
    requires GoodQueue(s) && s.flushing.Some?
    ensures GoodQueue(InstallFlush(s))
    ensures forall f :: f in InstallFlush(s).immutable ==> f in s.immutable
  {
    hide Ages, FrozenLayers, GoodFrozens;
    FlushingAt(s);
    FlushKeepsForm(s);
    FlushLeaves(s);
    hide QueueForm, InstallFlush, Pending;
    AgesShrink(s.immutable, Position(s.immutable, s.flushing.value.id), s.queue);
  }

  lemma FlushLeaves(s: State)
    requires s.flushing.Some?
    ensures Pending(InstallFlush(s)) == s.queue && Pending(s) == [s.flushing.value] + s.queue
  {}

  /** Dropping one memtable leaves exactly those with another number. */
  lemma FrozensLeft(fs: seq<Frozen>, i: nat, nextId: nat)
    requires GoodFrozens(fs, nextId) && i < |fs|
    ensures GoodFrozens(fs[..i] + fs[i + 1..], nextId)
    ensures forall p :: p in fs[..i] + fs[i + 1..] <==> p in fs && p.id != fs[i].id
  {
    hide Ascending;
    var rest := fs[..i] + fs[i + 1..];
    forall j | 0 <= j < |rest| ensures rest[j] == fs[if j < i then j else j + 1] {}
    LeftMembers(fs, i);
  }

  lemma LeftMembers(fs: seq<Frozen>, i: nat)
    requires i < |fs| && forall a, b :: 0 <= a < b < |fs| ==> fs[a].id < fs[b].id
    ensures forall p :: p in fs[..i] + fs[i + 1..] <==> p in fs && p.id != fs[i].id
  {
    var older, newer := fs[..i], fs[i + 1..];
    forall p | p in older ensures p.id < fs[i].id {
      var j :| 0 <= j < |older| && older[j] == p;
      assert fs[j] == p;
    }
    forall p | p in newer ensures p.id > fs[i].id {
      var j :| 0 <= j < |newer| && newer[j] == p;
      assert fs[i + 1 + j] == p;
    }
    assert fs == older + [fs[i]] + newer;
    forall p ensures p in older + newer <==> p in fs && p.id != fs[i].id {
      assert p in fs <==> p in older || p == fs[i] || p in newer;
    }
  }

  lemma AgesWithout(a: seq<Frozen>, f: Frozen, b: seq<Frozen>)
    requires Ages(FrozenLayers(a + ([f] + b)))
    ensures Ages(FrozenLayers(a + b))
    ensures Older(Frozens(a), f.entries) && Older(f.entries, Frozens(b))
  {
    hide Ages, Older, Flatten;
    FrozensConcat(a, [f] + b);
    FrozensConcat([f], b);
    FrozensConcat(a, b);
    OneFrozen(f);
    AgesConcat(FrozenLayers(a), [f.entries] + FrozenLayers(b));
    AgesConcat([f.entries], FrozenLayers(b));
    AgesConcat(FrozenLayers(a), FrozenLayers(b));
    OlderParts(f.entries, Frozens(b), Frozens(a));
  }

  lemma FlushKeepsTables(s: State, ts: seq<Table>)
    requires GoodTables(s, ts) && GoodQueue(s) && s.flushing.Some?
    ensures GoodTables(InstallFlush(s), ts)
  {
    hide GoodTable, Frozens, FromHistory;
    var t := InstallFlush(s);
    FlushKeepsQueue(s);
    FrozensSubset(t.immutable, s.immutable);
    FrozensSubset(Pending(t), Pending(s));
    hide Remove, GoodQueue;
  }

  /** The new table is older than what is still to be flushed, and apart from what stays in memory. */
  lemma FlushedIsGood(s: State)
    requires Inv(s) && s.flushing.Some?
    ensures GoodTables(InstallFlush(s), [TableOf(s.flushing.value.entries)])
  {
    hide GoodTables, GoodJob, Ages, Frozens, Older, FromHistory, Apart, Remove, GoodFrozens, Ascending;
    var f, t := s.flushing.value, InstallFlush(s);
    FlushingAt(s);
    FlushedIsApart(s);
    FlushedIsOlder(s);
    assert Pending(t) == s.queue;
    NewTable(t, f.entries);
  }

  lemma FlushedIsApart(s: State)
    requires GoodQueue(s) && s.flushing.Some?
    ensures var f := s.flushing.value; Apart(Frozens(Remove(s.immutable, f.id)), f.entries)
  {
    hide Ages, Frozens, Older, FrozenLayers;
    var f := s.flushing.value;
    FlushingAt(s);
    hide GoodFrozens, Pending;
    RemoveAt(s.immutable, f.id);
    var i := Position(s.immutable, f.id);
    var older, newer := s.immutable[..i], s.immutable[i + 1..];
    assert s.immutable == older + ([f] + newer);
    AgesWithout(older, f, newer);
    FrozensConcat(older, newer);
    OlderIsApart(Frozens(older), f.entries);
    OlderIsApart(f.entries, Frozens(newer));
  }

  lemma FlushedIsOlder(s: State)
    requires GoodMemory(s) && GoodQueue(s) && s.flushing.Some?
    ensures var es := s.flushing.value.entries;
      FromHistory(es, s.history) && Older(es, Frozens(s.queue)) && Older(es, s.memtable)
  {
    hide Ages, Frozens, FrozenLayers, Increasing, Ascending, GoodFrozens;
    var f := s.flushing.value;
    assert [] + ([f] + s.queue) == Pending(s) && f == Pending(s)[0];
    AgesWithout([], f, s.queue);
    assert f in s.immutable;
    InFrozensOf(s.immutable, f);
  }

  lemma InFrozensOf(fs: seq<Frozen>, f: Frozen)
    requires f in fs
    ensures forall e :: e in f.entries ==> e in Frozens(fs)
  {
    forall e | e in f.entries ensures e in Frozens(fs) {
      InFrozens(fs, e);
    }
  }

  lemma NewTable(t: State, es: seq<Entry>)
    requires Ascending(es) && FromHistory(es, t.history)
    requires Older(es, Frozens(Pending(t))) && Older(es, t.memtable) && Apart(Frozens(t.immutable), es)
    ensures GoodTables(t, [TableOf(es)])
  {
    hide Flatten, Frozens, Pending;
    OneTable(TableOf(es));
  }

  lemma TablesJoin(s: State, a: seq<Table>, b: seq<Table>)
    requires GoodTables(s, a) && GoodTables(s, b)
    ensures GoodTables(s, a + b)
  {
    hide GoodTable, Frozens, Older;
    TablesConcat(a, b);
    OlderParts(Tables(a), Tables(b), Frozens(Pending(s)));
    OlderParts(Tables(a), Tables(b), s.memtable);
  }

  lemma FlushKeepsLevels(s: State)
    requires Inv(s) && s.flushing.Some?
    ensures GoodJob(InstallFlush(s), InstallFlush(s).l0)
    ensures Older(Tables(s.l1), Tables(InstallFlush(s).l0))
  {
    hide Ages, Older, GoodTables, GoodMemory, Flatten, Frozens;
    var f, t := s.flushing.value, InstallFlush(s);
    FlushingAt(s);
    FlushedIsGood(s);
    FlushKeepsTables(s, s.l0);
    TablesJoin(t, s.l0, [TableOf(f.entries)]);
    TablesConcat(s.l0, [TableOf(f.entries)]);
    OneTable(TableOf(f.entries));
    AgesOne(f.entries);
    AgesConcat(TableLayers(s.l0), [f.entries]);
    OlderThanNext(s, s.l0);
    OlderThanNext(s, s.l1);
    OlderParts(Tables(s.l0), f.entries, Tables(s.l1));
    FlattenSnoc([], f.entries);
    assert [] + [f.entries] == [f.entries] && Flatten([f.entries]) == f.entries;
    assert Flatten(TableLayers(s.l0)) == Tables(s.l0);
  }

  lemma OlderThanNext(s: State, ts: seq<Table>)
    requires GoodTables(s, ts) && s.flushing.Some?
    ensures Older(Tables(ts), s.flushing.value.entries)
  {
    hide GoodTable, Tables, Frozens, FromHistory;
    InFrozensOf(Pending(s), s.flushing.value);
  }

  lemma FlushKeepsInv(s: State)
    requires Inv(s) && s.flushing.Some?
    ensures Inv(InstallFlush(s))
  {
    hide Ages, GoodTables, QueueForm, Flatten, Frozens, Increasing, Ascending;
    var t := InstallFlush(s);
    FlushingAt(s);
    FlushKeepsQueue(s);
    FlushKeepsLevels(s);
    FlushKeepsTables(s, s.l1);
    FrozensSubset(t.immutable, s.immutable);
    forall j | j in s.jobs ensures GoodJob(t, j) {
      FlushKeepsTables(s, j);
    }
  }

  // ----- compacting

  lemma MergedIsGood(s: State, inputs: seq<Table>)
    requires GoodTables(s, inputs)
    ensures var m := Merge(TableLayers(inputs), true);
      GoodTables(s, [TableOf(m)]) && (forall e :: e in m ==> !e.tombstone && e in Tables(inputs))
  {
    hide Merge, Ascending, GoodTable, Frozens, Pending;
    var m := Merge(TableLayers(inputs), true);
    MergeKeepsNewest(TableLayers(inputs), true);
    NewTable(s, m);
  }

  /** Only the levels and the snapshots change. */
  lemma SameMemory(s: State, t: State, ts: seq<Table>)
    requires t == s.(l0 := t.l0, l1 := t.l1, jobs := t.jobs)
    ensures GoodTables(t, ts) == GoodTables(s, ts) && GoodJob(t, ts) == GoodJob(s, ts)
    ensures GoodMemory(t) == GoodMemory(s) && GoodQueue(t) == GoodQueue(s)
  {
    hide Older, FromHistory, Apart, GoodFrozens, Ages;
    assert Pending(t) == Pending(s);
  }

  lemma InstallKeepsInv(s: State, inputs: seq<Table>)
    requires Inv(s) && GoodJob(s, inputs)
    ensures Inv(InstallCompaction(s, inputs))
  {
    hide GoodMemory, GoodQueue, GoodTables, Flatten, Ages, Merge;
    var m, t := Merge(TableLayers(inputs), true), InstallCompaction(s, inputs);
    if m != [] {
      SameMemory(s, t, s.l1);
      MergedIsGood(s, inputs);
      TablesJoin(s, s.l1, [TableOf(m)]);
      TablesConcat(s.l1, [TableOf(m)]);
      OneTable(TableOf(m));
      SameMemory(s, t, t.l1);
      SameMemory(s, t, []);
      NoTables(s);
      forall j | j in s.jobs ensures GoodJob(t, j) {
        SameMemory(s, t, j);
      }
    }
  }

  lemma NoTables(s: State)
    ensures TableLayers([]) == [] && Tables([]) == [] && GoodJob(s, [])
    ensures forall a :: Older(a, []) && Older([], a)
  {}

  // ----- every step

  lemma InitInv()
    ensures Inv(INIT)
  {
    assert TableLayers([]) == [] && FrozenLayers([]) == [];
  }

  /** The invariant survives every step, orderly or not. */
  lemma NextKeepsInv(s: State, step: Step)
    requires Inv(s) && Enabled(s, step)
    ensures Inv(Next(s, step))
  {
    hide Inv, Rotate, InstallFlush, InstallCompaction, Merge, Upsert;
    match step {
      case Write(e, rotate) =>
        WriteKeepsInv(s, e);
        UpsertParts(s.memtable, e);
        if rotate {
          RotateKeepsInv(WriteTo(s, e, false));
        }
      case FlushTake => TakeKeepsInv(s);
      case FlushInstall => FlushKeepsInv(s);
      case CompactTake => SnapshotKeepsInv(s);
      case CompactInstall(j) =>
        JobIsGood(s, j);
        InstallKeepsInv(s, s.jobs[j]);
        InstallKeepsJobs(s, s.jobs[j]);
        FewerJobs(InstallCompaction(s, s.jobs[j]), s.jobs[..j] + s.jobs[j + 1..]);
    }
  }

  lemma InstallKeepsJobs(s: State, inputs: seq<Table>)
    ensures InstallCompaction(s, inputs).jobs == s.jobs
  {
    hide Merge;
  }

  lemma TakeKeepsInv(s: State)
    requires Inv(s) && Enabled(s, FlushTake)
    ensures Inv(Next(s, FlushTake))
  {
    hide Ascending, GoodTable, Increasing, Flatten, Ages, Older, Apart, FromHistory, GoodFrozens;
    var t := Next(s, FlushTake);
    assert Pending(t) == Pending(s);
    forall j | j in s.jobs ensures GoodJob(t, j) {
      assert GoodJob(s, j);
    }
  }

  lemma SnapshotKeepsInv(s: State)
    requires Inv(s)
    ensures Inv(s.(jobs := s.jobs + [s.l0]))
  {
    hide GoodMemory, GoodQueue, GoodTables, Flatten, Ages, Older;
    var t := s.(jobs := s.jobs + [s.l0]);
    SameMemory(s, t, s.l1);
    forall j | j in t.jobs ensures GoodJob(t, j) {
      SameMemory(s, t, j);
      assert j in s.jobs ==> GoodJob(s, j);
    }
    SameMemory(s, t, s.l0);
  }

  lemma FewerJobs(s: State, jobs: seq<seq<Table>>)
    requires Inv(s) && forall j :: j in jobs ==> j in s.jobs
    ensures Inv(s.(jobs := jobs))
  {
    hide GoodMemory, GoodQueue, GoodTables, Flatten, Ages, Older;
    var t := s.(jobs := jobs);
    SameMemory(s, t, s.l1);
    SameMemory(s, t, s.l0);
    forall j | j in jobs ensures GoodJob(t, j) {
      SameMemory(s, t, j);
      assert GoodJob(s, j);
    }
  }

  lemma JobIsGood(s: State, j: nat)
    requires Inv(s) && j < |s.jobs|
    ensures GoodJob(s, s.jobs[j])
  {
    assert s.jobs[j] in s.jobs;
  }

  // ----- what lookups see of a step

  lemma MemoryTop(s: State, k: Bytes)
    ensures FindInLayers(Memory(s), k) ==
            if Find(s.memtable, k).Some? then Find(s.memtable, k)
            else FindInLayers(Reversed(FrozenLayers(s.immutable)), k)
  {
    assert Memory(s)[1..] == Reversed(FrozenLayers(s.immutable));
  }

  lemma LocateWrite(s: State, e: Entry, k: Bytes)
    requires Ascending(s.memtable)
    ensures Locate(WriteTo(s, e, false), k) == if k == e.key then Some(e) else Locate(s, k)
  {
    hide Upsert, FindInLayers, Memory;
    MemoryTop(s, k);
    MemoryTop(WriteTo(s, e, false), k);
    FindUpsert(s.memtable, e, k);
  }

  lemma LocateRotate(s: State, k: Bytes)
    ensures Locate(Rotate(s), k) == Locate(s, k)
  {
    hide FindInLayers, Memory, Find;
    var f := Frozen(s.nextId, s.memtable);
    MemoryTop(s, k);
    MemoryTop(Rotate(s), k);
    FrozensConcat(s.immutable, [f]);
    OneFrozen(f);
    ReversedConcat(FrozenLayers(s.immutable), [s.memtable]);
    SingleLayer(s.memtable, Reversed(FrozenLayers(s.immutable)), k);
    FindNone([], k);
  }

  lemma SingleLayer(x: seq<Entry>, rest: seq<seq<Entry>>, k: Bytes)
    ensures Reversed([x]) == [x]
    ensures FindInLayers([x] + rest, k) == if Find(x, k).Some? then Find(x, k) else FindInLayers(rest, k)
    ensures FindInLayers(rest + [x], k) == if FindInLayers(rest, k).Some? then FindInLayers(rest, k) else Find(x, k)
  {
    assert [x][1..] == [] && ([x] + rest)[1..] == rest;
    assert Reversed([x]) == Reversed([]) + [x];
    LayersConcat(rest, [x], k);
  }

  lemma RemoveFirst(fs: seq<Frozen>)
    requires fs != []
    ensures Remove(fs, fs[0].id) == fs[1..]
  {}

  /** Moving the oldest memtable to the newest table leaves the search order as it was. */
  lemma LocateFlush(s: State, k: Bytes)
    requires s.immutable != [] && s.flushing == Some(s.immutable[0])
    ensures Locate(InstallFlush(s), k) == Locate(s, k)
  {
    hide FindInLayers, Memory, Find, TableLayers, FrozenLayers, Reversed;
    var f, rest := s.immutable[0], s.immutable[1..];
    var t := InstallFlush(s);
    MemoryTop(s, k);
    MemoryTop(t, k);
    if f.entries != [] {
      RemoveFirst(s.immutable);
      assert s.immutable == [f] + rest;
      FrozensConcat([f], rest);
      OneFrozen(f);
      ReversedConcat([f.entries], FrozenLayers(rest));
      TablesConcat(s.l0, [TableOf(f.entries)]);
      OneTable(TableOf(f.entries));
      ReversedConcat(TableLayers(s.l0), [f.entries]);
      SingleLayer(f.entries, Reversed(FrozenLayers(rest)), k);
      SingleLayer(f.entries, Reversed(TableLayers(s.l0)), k);
    }
  }

  /** The range test of level 1 lets a record of a table through unless its key is empty and not alone. */
  lemma InRangeExact(t: Table, k: Bytes)
    requires GoodTable(t) && Find(t.entries, k).Some?
    ensures InRange(t, k) <==> k != [] || |t.entries| == 1
  {
    hide Less;
    LessIsStrictTotalOrder();
    var es, e := t.entries, Find(t.entries, k).value;
    var i :| 0 <= i < |es| && es[i] == e;
    assert i > 0 ==> Less(es[0].key, es[i].key);
    assert i < |es| - 1 ==> Less(es[i].key, es[|es| - 1].key);
    EmptyIsLeast(es[0].key);
    if |es| > 1 {
      EmptyIsLeast(es[1].key);
      assert Less(es[0].key, es[1].key);
      assert i > 1 ==> Less(es[1].key, es[i].key);
    }
  }

  /** What the range test lets through of a table's answer. */
  function Reached(es: seq<Entry>, k: Bytes): Option<Entry>
  {
    if k != [] || |es| == 1 then Find(es, k) else None
  }

  lemma {:induction false} FindL1Append(ts: seq<Table>, t: Table, k: Bytes)
    requires GoodTable(t)
    ensures FindL1(ts + [t], k) == if FindL1(ts, k).Some? then FindL1(ts, k) else Reached(t.entries, k)
  {
    hide InRange, GoodTable;
    if ts == [] {
      assert ([] + [t])[1..] == [];
      if Find(t.entries, k).Some? {
        InRangeExact(t, k);
      }
    } else {
      FindL1Append(ts[1..], t, k);
      assert (ts + [t])[1..] == ts[1..] + [t];
    }
  }

  /** After an installed compaction, what is not in memory is looked up in the old level 1 first, and
      then among the live records of the inputs with the greatest timestamps. */
  lemma LocateInstalled(s: State, inputs: seq<Table>, k: Bytes)
    requires Merge(TableLayers(inputs), true) != []
    ensures var m, merged := FindInLayers(Memory(s), k), Merge(TableLayers(inputs), true);
      Locate(InstallCompaction(s, inputs), k) ==
        if m.Some? then m
        else if FindL1(s.l1, k).Some? then FindL1(s.l1, k)
        else if k != [] || |merged| == 1 then Live(Newest(Tables(inputs), k)) else None
  {
    hide FindInLayers, Find, FindL1, Merge, Reversed, Ascending, Newest;
    var t, merged := InstallCompaction(s, inputs), Merge(TableLayers(inputs), true);
    MergeKeepsNewest(TableLayers(inputs), true);
    FindL1Append(s.l1, TableOf(merged), k);
    NoLevel0(t, k);
    assert Memory(t) == Memory(s);
  }

  /** In a trace those are the records that the inputs answer with, newest table first. */
  lemma LocateCompaction(s: State, inputs: seq<Table>, k: Bytes)
    requires GoodJob(s, inputs) && Merge(TableLayers(inputs), true) != []
    ensures var m, merged := FindInLayers(Memory(s), k), Merge(TableLayers(inputs), true);
      Locate(InstallCompaction(s, inputs), k) ==
        if m.Some? then m
        else if FindL1(s.l1, k).Some? then FindL1(s.l1, k)
        else if k != [] || |merged| == 1 then Live(FindInLayers(Reversed(TableLayers(inputs)), k)) else None
  {
    hide FindInLayers, FindL1, Merge, AgeOrdered, Ages, Reversed, Ascending, Frozens, Older, Newest;
    AgesAgeOrdered(TableLayers(inputs), k);
    InputsAscend(inputs);
    LayersPickNewest(TableLayers(inputs), k);
    LocateInstalled(s, inputs, k);
  }

  lemma InputsAscend(inputs: seq<Table>)
    requires forall t :: t in inputs ==> GoodTable(t)
    ensures forall l :: l in TableLayers(inputs) ==> Ascending(l)
  {
    forall l | l in TableLayers(inputs) ensures Ascending(l) {
      var i :| 0 <= i < |inputs| && TableLayers(inputs)[i] == l;
      assert inputs[i] in inputs;
    }
  }

  lemma NoLevel0(t: State, k: Bytes)
    ensures t.l0 == [] ==> FindInLayers(Reversed(TableLayers(t.l0)), k) == None
  {}

  // ----- traces

  /** States joined by steps that the engine can take. */
  ghost predicate IsTrace(states: seq<State>, steps: seq<Step>)
  {
    && |states| == |steps| + 1
    && states[0] == INIT
    && forall i :: 0 <= i < |steps| ==> Enabled(states[i], steps[i]) && states[i + 1] == Next(states[i], steps[i])
  }

  lemma {:induction false} TracesKeepInv(states: seq<State>, steps: seq<Step>, i: nat)
    requires IsTrace(states, steps) && i < |states|
    ensures Inv(states[i])
    decreases i
  {
    hide Inv, Enabled, Next;
    if i == 0 {
      InitInv();
    } else {
      TracesKeepInv(states, steps, i - 1);
      NextKeepsInv(states[i - 1], steps[i - 1]);
    }
  }
}
