/** The engine of go/pkg/lsm/engine.go over real parts: skip lists, table files and the log file.
    Each lock-protected region is a method, proved to take the matching step of EngineModel. */
module Engine {
  import opened Bytes
  import opened Entries
  import opened EngineModel
  import opened TableFormat
  import opened TableProofs
  import opened SSTable
  import SkipList
  import Compaction
  import Bloom
  import Wal
  import Crc32
  import Recovery

  /** An open table: its reader, and the metadata that replaced the reader's own. */
  datatype Handle = Handle(reader: Reader, meta: Metadata)

  ghost predicate HoldsWith(h: Bloom.Hashes, x: Handle, t: Table, f: Bloom.Filter)
  {
    && Fits(t.entries, f) && ClaimsAll(h, f, t.entries) && Ascending(t.entries) && Clean(t.entries)
    && x.reader == ReaderOf(t.entries, f) && x.meta.minKey == t.minKey && x.meta.maxKey == t.maxKey
  }

  /** The open file holds the table's entries. */
  ghost predicate Holds(h: Bloom.Hashes, x: Handle, t: Table)
  {
    exists f :: HoldsWith(h, x, t, f)
  }

  lemma CleanIsStored(es: seq<Entry>)
    requires Clean(es)
    ensures AllStored(es) == es
  {}

  lemma HandleAnswers(h: Bloom.Hashes, x: Handle, t: Table, key: Bytes)
    requires Holds(h, x, t)
    ensures TableFormat.Get(h, x.reader, key) == AnswerOf(Find(t.entries, key))
  {
    hide FileOf, IndexOf, Blocks, ClaimsAll, Fits, TableFormat.Get, Find, Ascending;
    var f :| HoldsWith(h, x, t, f);
    FitsValid(t.entries, f);
    GetWritten(h, t.entries, f, key);
    CleanIsStored(t.entries);
  }

  lemma HandleScans(h: Bloom.Hashes, x: Handle, t: Table)
    requires Holds(h, x, t)
    ensures ScanAll(x.reader) == Some(t.entries)
  {
    hide FileOf, IndexOf, Blocks, ClaimsAll, Fits, ScanAll, Ascending;
    var f :| HoldsWith(h, x, t, f);
    ScanWritten(t.entries, f);
    CleanIsStored(t.entries);
  }

  ghost predicate AllHold(h: Bloom.Hashes, xs: seq<Handle>, ts: seq<Table>)
  {
    |xs| == |ts| && forall i :: 0 <= i < |xs| ==> Holds(h, xs[i], ts[i])
  }

  /** The engine's fields. A rotated memtable is never written again, so it is kept as the list of its
      records, under a number that stands for its identity. */
  class Engine {
    const h: Bloom.Hashes
    const table: array<bv32>
    const memtableLimit: int
    const l0CompactionLimit: int
    const wal: Wal.WAL
    var memtable: SkipList.Memtable
    var immutable: seq<Frozen>
    var flushChan: seq<Frozen>
    var l0Tables: seq<Handle>
    var l1Tables: seq<Handle>
    var nextNumber: nat
    /** The state of EngineModel that this engine is in. */
    ghost var state: State

    ghost predicate OnDisk()
      reads this, wal, table
    {
      && Crc32.IsTable(table[..]) && wal.file == Wal.Log(state.wal)
      && AllHold(h, l0Tables, state.l0) && AllHold(h, l1Tables, state.l1)
      && Clean(state.history)
    }

    ghost predicate InMemory()
      reads this, memtable, memtable.Repr
    {
      && this !in memtable.Repr && wal !in memtable.Repr && table !in memtable.Repr
      && memtable.Valid() && memtable.Contents() == state.memtable
      && immutable == state.immutable && flushChan == state.queue && nextNumber == state.nextId
    }

    ghost predicate Valid()
      reads this, wal, table, memtable, memtable.Repr
    {
      OnDisk() && InMemory()
    }

    /** The heights of the towers in the active memtable. */
    ghost function Towers(): (r: seq<nat>)
      reads this, memtable, memtable.Repr
      requires InMemory()
      ensures |r| == |state.memtable|
    {
      memtable.TowerHeights()
    }

    /** What the active memtable counts after a write of e with a tower of this height. */
    ghost function SizeAfter(e: Entry, height: nat): int
      reads this, memtable, memtable.Repr
      requires InMemory()
    {
      SkipList.Footprint(Upsert(state.memtable, e), SkipList.HeightsAfter(state.memtable, Towers(), e.key, height))
    }

    /** The engine over a replayed memtable and the tables that were loaded. */
    constructor (h: Bloom.Hashes, table: array<bv32>, memtableLimit: int, l0CompactionLimit: int, wal: Wal.WAL,
                 memtable: SkipList.Memtable, l0Tables: seq<Handle>, ghost start: State)
      ensures this.h == h && this.wal == wal && this.table == table
      ensures this.memtableLimit == memtableLimit && this.l0CompactionLimit == l0CompactionLimit
      ensures this.memtable == memtable && this.l0Tables == l0Tables && state == start
      ensures immutable == [] && flushChan == [] && l1Tables == [] && nextNumber == 0
    {
      this.h, this.table, this.wal := h, table, wal;
      this.memtableLimit, this.l0CompactionLimit := memtableLimit, l0CompactionLimit;
      this.memtable, this.l0Tables := memtable, l0Tables;
      immutable, flushChan, l1Tables, nextNumber := [], [], [], 0;
      state := start;
    }

    /** rotateMemtable. */
    method RotateMemtable()
      requires Valid()
      modifies this`memtable, this`immutable, this`flushChan, this`nextNumber, this`state
      ensures Valid() && state == Rotate(old(state)) && fresh(memtable.Repr)
      ensures |immutable| == |old(immutable)| + 1 && old(immutable) <= immutable && Towers() == []
      ensures flushChan ==
              if |old(flushChan)| < 16 then old(flushChan) + [immutable[|old(immutable)|]] else old(flushChan)
    {
      hide SkipList.Memtable.Valid, SkipList.Memtable.Contents, SkipList.Memtable.Owned, AllHold, Clean;
      hide Crc32.IsTable, Wal.Log;
      var entries := memtable.AllEntries();
      var imm := Frozen(nextNumber, entries);
      immutable := immutable + [imm];
      memtable := new SkipList.Memtable();
      if |flushChan| < QUEUE_CAPACITY {
        flushChan := flushChan + [imm];
      }
      nextNumber := nextNumber + 1;
      state := Rotate(state);
    }

    /** Put: one frame in the log, one record in the memtable, and a rotation at the size limit. */
    method Put(key: Bytes, value: Bytes, ts: int, height: nat) returns (ghost rotated: bool)
      requires Valid() && 1 <= height <= 16
      modifies this, wal, memtable.Repr
      ensures Valid() && state == WriteTo(old(state), Entry(key, value, false, ts), rotated)
      ensures wal.file == old(wal.file) + Wal.Frame(Entry(key, value, false, ts))
      ensures rotated <==> old(SizeAfter(Entry(key, value, false, ts), height)) >= memtableLimit
      ensures Towers() == if rotated then [] else SkipList.HeightsAfter(old(state.memtable), old(Towers()), key, height)
      ensures fresh(memtable.Repr - old(memtable.Repr))
    {
      hide SkipList.Memtable.Valid, SkipList.Memtable.Contents, SkipList.Memtable.Owned, AllHold, Upsert;
      hide SkipList.Memtable.TowerHeights, SkipList.HeightsAfter, SkipList.Footprint;
      hide Clean, Wal.Log, Wal.Frame, Crc32.IsTable, Find;
      ghost var e := Entry(key, value, false, ts);
      LogAppend(state.wal, e);
      CleanAppend(state.history, e);
      wal.Write(table, key, value, false, ts);
      memtable.Put(key, value, ts, height);
      state := WriteTo(state, e, false);
      rotated := RotateIfLarge();
    }

    /** Delete: the same with a tombstone. */
    method Delete(key: Bytes, ts: int, height: nat) returns (ghost rotated: bool)
      requires Valid() && 1 <= height <= 16
      modifies this, wal, memtable.Repr
      ensures Valid() && state == WriteTo(old(state), Entry(key, [], true, ts), rotated)
      ensures wal.file == old(wal.file) + Wal.Frame(Entry(key, [], true, ts))
      ensures rotated <==> old(SizeAfter(Entry(key, [], true, ts), height)) >= memtableLimit
      ensures Towers() == if rotated then [] else SkipList.HeightsAfter(old(state.memtable), old(Towers()), key, height)
      ensures fresh(memtable.Repr - old(memtable.Repr))
    {
      hide SkipList.Memtable.Valid, SkipList.Memtable.Contents, SkipList.Memtable.Owned, AllHold, Upsert;
      hide SkipList.Memtable.TowerHeights, SkipList.HeightsAfter, SkipList.Footprint;
      hide Clean, Wal.Log, Wal.Frame, Crc32.IsTable, Find;
      ghost var e := Entry(key, [], true, ts);
      LogAppend(state.wal, e);
      CleanAppend(state.history, e);
      wal.Write(table, key, [], true, ts);
      memtable.Delete(key, ts, height);
      state := WriteTo(state, e, false);
      rotated := RotateIfLarge();
    }

    method RotateIfLarge() returns (ghost rotated: bool)
      requires Valid()
      modifies this`memtable, this`immutable, this`flushChan, this`nextNumber, this`state
      ensures Valid() && state == if rotated then Rotate(old(state)) else old(state)
      ensures rotated <==> SkipList.Footprint(old(state.memtable), old(Towers())) >= memtableLimit
      ensures Towers() == if rotated then [] else old(Towers())
      ensures memtable == old(memtable) || fresh(memtable.Repr)
    {
      var size := memtable.Size();
      rotated := size >= memtableLimit;
      if size >= memtableLimit {
        RotateMemtable();
      }
    }

    /** Get: memtable, rotated memtables, level 0 newest first, level 1 oldest first. What it returns is
        what the model's lookup says, and no read fails. */
    method Get(key: Bytes) returns (value: Bytes, found: bool)
      requires Valid()
      ensures found <==> EngineModel.Get(state, key).Some?
      ensures found ==> value == EngineModel.Get(state, key).value.value
    {
      hide SkipList.Memtable.Valid, SkipList.Memtable.Contents, SkipList.Memtable.Owned, AllHold, Find, FindL1;
      hide Memory, InRange, TableFormat.Get, FindInLayers;
      MemoryTop(state, key);
      var val, tombstone, hit := memtable.Get(key);
      if hit {
        return if tombstone then [] else val, !tombstone;
      }
      var answer := SearchFrozen(immutable, key);
      if answer.None? {
        var fromL0 := SearchL0(l0Tables, state.l0, key);
        answer := fromL0;
        if answer.None? {
          answer := SearchL1(l1Tables, state.l1, key);
        }
      }
      if answer.Some? && !answer.value.tombstone {
        return answer.value.value, true;
      }
      return [], false;
    }

    method SearchFrozen(fs: seq<Frozen>, key: Bytes) returns (r: Option<Entry>)
      ensures r == FindInLayers(Reversed(FrozenLayers(fs)), key)
    {
      hide Find;
      assert fs[..|fs|] == fs;
      for i := |fs| downto 0
        invariant FindInLayers(Reversed(FrozenLayers(fs)), key) == FindInLayers(Reversed(FrozenLayers(fs[..i])), key)
      {
        LastFrozen(fs, i, key);
        r := Find(fs[i].entries, key);
        if r.Some? {
          return;
        }
      }
      r := None;
    }

    method SearchL0(xs: seq<Handle>, ghost ts: seq<Table>, key: Bytes) returns (r: Option<Entry>)
      requires AllHold(h, xs, ts)
      ensures r == FindInLayers(Reversed(TableLayers(ts)), key)
    {
      hide Find, TableFormat.Get, Holds;
      assert ts[..|xs|] == ts;
      for i := |xs| downto 0
        invariant FindInLayers(Reversed(TableLayers(ts)), key) == FindInLayers(Reversed(TableLayers(ts[..i])), key)
      {
        LastTable(ts, i, key);
        HandleAnswers(h, xs[i], ts[i], key);
        var a := PointGet(h, xs[i].reader, key);
        if a.Hit? {
          return Some(a.entry);
        }
      }
      r := None;
    }

    method SearchL1(xs: seq<Handle>, ghost ts: seq<Table>, key: Bytes) returns (r: Option<Entry>)
      requires AllHold(h, xs, ts)
      ensures r == FindL1(ts, key)
    {
      hide Find, TableFormat.Get, Less;
      for i := 0 to |xs|
        invariant FindL1(ts, key) == FindL1(ts[i..], key)
      {
        assert ts[i..][1..] == ts[i + 1..];
        HandleRange(h, xs[i], ts[i]);
        if Less(key, xs[i].meta.minKey) || Less(xs[i].meta.maxKey, key) {
          continue;
        }
        HandleAnswers(h, xs[i], ts[i], key);
        var a := PointGet(h, xs[i].reader, key);
        if a.Hit? {
          return Some(a.entry);
        }
      }
      r := None;
    }

    /** The worker receives a memtable from the channel. */
    method TakeFlush() returns (imm: Frozen)
      requires Valid() && state.flushing.None? && |flushChan| > 0
      modifies this`flushChan, this`state
      ensures Valid() && Takes(old(state), FlushTake, state) && state.flushing == Some(imm)
      ensures old(flushChan) == [imm] + flushChan
    {
      hide SkipList.Memtable.Valid, SkipList.Memtable.Contents, SkipList.Memtable.Owned, Clean;
      hide AllHold, Wal.Log, Crc32.IsTable;
      imm := flushChan[0];
      flushChan := flushChan[1..];
      state := Next(state, FlushTake);
    }

    /** The unlocked part of a flush: write the file and open it. */
    method BuildTable(entries: seq<Entry>, numBits: nat, numHash: nat) returns (x: Option<Handle>, file: Bytes)
      requires Ascending(entries) && 64 <= numBits <= U32 - 8 && 1 <= numHash < U32
      ensures entries == [] ==> x == None
      ensures entries != [] ==> exists f: Bloom.Filter :: f.Valid() && file == FileOf(entries, f)
      ensures entries != [] && AllStorable(entries) && Clean(entries) && |file| < U64 / 2 ==>
                x.Some? && Holds(h, x.value, TableOf(entries))
    {
      hide FileOf, IndexOf, Blocks, ClaimsAll, Ascending, AllStorable, Open, ReaderOf;
      x, file := None, [];
      if |entries| == 0 {
        return;
      }
      var meta;
      ghost var bloom;
      file, meta, bloom := Compaction.WriteTable(h, entries, numBits, numHash);
      var reader, own := OpenTable(file);
      if reader.None? {
        if AllStorable(entries) && |file| < U64 / 2 {
          OpenWritten(entries, bloom);
        }
        return;
      }
      x := Some(Handle(reader.value, meta));
      if AllStorable(entries) && Clean(entries) && |file| < U64 / 2 {
        OpenWritten(entries, bloom);
        assert HoldsWith(h, x.value, TableOf(entries), bloom);
      }
    }

    /** The locked part: the table joins level 0, the memtable leaves the list, and the log is reset
        when no rotated memtable is left. A compaction starts once level 0 has reached its limit. */
    method InstallFlush(imm: Frozen, x: Handle) returns (shouldCompact: bool)
      requires Valid() && state.flushing == Some(imm) && imm.entries != [] && Holds(h, x, TableOf(imm.entries))
      modifies this`l0Tables, this`immutable, this`state, wal
      ensures Valid() && Takes(old(state), FlushInstall, state)
      ensures l0Tables == old(l0Tables) + [x] && immutable == Remove(old(immutable), imm.id)
      ensures wal.file == if immutable == [] then [] else old(wal.file)
      ensures shouldCompact <==> |old(l0Tables)| + 1 >= l0CompactionLimit
    {
      hide SkipList.Memtable.Valid, SkipList.Memtable.Contents, SkipList.Memtable.Owned, Clean, AllHold, Holds, TableOf;
      hide Crc32.IsTable, Wal.Log;
      AllHoldAppend(h, l0Tables, state.l0, x, TableOf(imm.entries));
      l0Tables := l0Tables + [x];
      immutable := RemoveFrozen(immutable, imm.id);
      EmptyLog();
      if |immutable| == 0 {
        wal.Reset();
      }
      shouldCompact := |l0Tables| >= l0CompactionLimit;
      state := Next(state, FlushInstall);
    }

    method RemoveFrozen(fs: seq<Frozen>, id: nat) returns (r: seq<Frozen>)
      ensures r == Remove(fs, id)
    {
      for i := 0 to |fs|
        invariant Remove(fs, id) == fs[..i] + Remove(fs[i..], id)
      {
        assert fs[i..][1..] == fs[i + 1..];
        if fs[i].id == id {
          return fs[..i] + fs[i + 1..];
        }
      }
      return fs;
    }

    /** The locked start of a compaction. */
    method SnapshotL0() returns (tables: seq<Handle>)
      requires Valid()
      modifies this`state
      ensures Valid()
      ensures |l0Tables| < 2 ==> tables == [] && state == old(state)
      ensures |l0Tables| >= 2 ==> tables == l0Tables && Takes(old(state), CompactTake, state)
    {
      if |l0Tables| < 2 {
        return [];
      }
      tables := l0Tables;
      state := Next(state, CompactTake);
    }

    /** The unlocked merge: gather, sort, deduplicate, write, reopen. */
    method MergeTables(tables: seq<Handle>, ghost inputs: seq<Table>, numBits: nat, numHash: nat)
      returns (x: Option<Handle>, file: Bytes)
      requires AllHold(h, tables, inputs) && 64 <= numBits <= U32 - 8 && 1 <= numHash < U32
      ensures var merged := Compaction.Merge(TableLayers(inputs), true);
        && (merged == [] ==> x == None)
        && (merged != [] ==> exists f: Bloom.Filter :: f.Valid() && file == FileOf(merged, f))
        && (|file| < U64 / 2 ==> Delivers(x, inputs))
    {
      hide Holds, FileOf, IndexOf, Blocks, ClaimsAll, Open, ReaderOf, Compaction.Merge;
      x, file := None, [];
      var readers := seq(|tables|, i requires 0 <= i < |tables| => tables[i].reader);
      GatherHandles(tables, inputs, |tables|);
      assert readers[..|tables|] == readers && inputs[..|tables|] == inputs;
      MergedIsStorable(tables, inputs);
      ghost var merged := Compaction.Merge(TableLayers(inputs), true);
      var r;
      ghost var bloom;
      r, bloom := Compaction.MergeSSTables(h, readers, true, numBits, numHash);
      if !r.Written? {
        return;
      }
      file := r.file;
      var reader, own := OpenTable(file);
      if |file| < U64 / 2 {
        OpenWritten(merged, bloom);
      }
      if reader.None? {
        return;
      }
      x := Some(Handle(reader.value, r.meta));
      if |file| < U64 / 2 {
        HoldsMerged(x.value, merged, bloom);
      }
    }

    lemma HoldsMerged(x: Handle, merged: seq<Entry>, bloom: Bloom.Filter)
      requires HoldsWith(h, x, TableOf(merged), bloom)
      ensures Holds(h, x, TableOf(merged))
    {}

    lemma GatherHandles(tables: seq<Handle>, inputs: seq<Table>, n: nat)
      requires AllHold(h, tables, inputs) && n <= |tables|
      ensures var readers := seq(|tables|, i requires 0 <= i < |tables| => tables[i].reader);
        Compaction.Gather(readers[..n]) == Some(TableLayers(inputs[..n]))
      decreases n
    {
      hide Holds, ScanAll;
      var readers := seq(|tables|, i requires 0 <= i < |tables| => tables[i].reader);
      if n > 0 {
        GatherHandles(tables, inputs, n - 1);
        HandleScans(h, tables[n - 1], inputs[n - 1]);
        assert readers[..n][..n - 1] == readers[..n - 1];
        assert TableLayers(inputs[..n]) == TableLayers(inputs[..n - 1]) + [inputs[n - 1].entries];
      }
    }

    /** What survives a merge of good tables can be stored again. */
    lemma MergedIsStorable(tables: seq<Handle>, inputs: seq<Table>)
      requires AllHold(h, tables, inputs)
      ensures var merged := Compaction.Merge(TableLayers(inputs), true);
        AllStorable(merged) && Clean(merged) && Ascending(merged)
    {
      hide Storable, Compaction.Merge, Ascending, FileOf, ReaderOf, ClaimsAll;
      Compaction.MergeKeepsNewest(TableLayers(inputs), true);
      forall e | e in Compaction.Merge(TableLayers(inputs), true) ensures Storable(e) {
        Compaction.InFlatten(TableLayers(inputs), e);
        var i :| 0 <= i < |inputs| && e in TableLayers(inputs)[i];
        assert Holds(h, tables[i], inputs[i]);
      }
    }

    /** x is the table of the merged entries, if there are any. */
    ghost predicate Delivers(x: Option<Handle>, inputs: seq<Table>)
    {
      var merged := Compaction.Merge(TableLayers(inputs), true);
      if merged == [] then x == None else x.Some? && Holds(h, x.value, TableOf(merged))
    }

    /** The locked end of a compaction; with nothing merged it changes nothing. */
    method InstallCompaction(x: Option<Handle>, ghost job: nat)
      requires Valid() && job < |state.jobs| && Delivers(x, state.jobs[job])
      modifies this`l0Tables, this`l1Tables, this`state
      ensures Valid() && Takes(old(state), CompactInstall(job), state)
      ensures l0Tables == if x.Some? then [] else old(l0Tables)
      ensures l1Tables == if x.Some? then old(l1Tables) + [x.value] else old(l1Tables)
    {
      hide SkipList.Memtable.Valid, SkipList.Memtable.Contents, SkipList.Memtable.Owned, Clean, AllHold, Holds, TableOf;
      hide Compaction.Merge, Wal.Log, Crc32.IsTable;
      if x.Some? {
        AllHoldAppend(h, l1Tables, state.l1, x.value, TableOf(Compaction.Merge(TableLayers(state.jobs[job]), true)));
        AllHoldNone(h);
        l1Tables := l1Tables + [x.value];
        l0Tables := [];
      }
      state := Next(state, CompactInstall(job));
    }
  }

  lemma AllHoldAppend(h: Bloom.Hashes, xs: seq<Handle>, ts: seq<Table>, x: Handle, t: Table)
    requires AllHold(h, xs, ts) && Holds(h, x, t)
    ensures AllHold(h, xs + [x], ts + [t])
  {
    hide Holds;
  }

  lemma AllHoldNone(h: Bloom.Hashes)
    ensures AllHold(h, [], [])
  {}

  lemma EmptyLog()
    ensures Wal.Log([]) == []
  {}

  lemma HandleRange(h: Bloom.Hashes, x: Handle, t: Table)
    requires Holds(h, x, t)
    ensures x.meta.minKey == t.minKey && x.meta.maxKey == t.maxKey
  {
    hide Fits, ClaimsAll, ReaderOf, Ascending, Clean;
  }

  lemma LastFrozen(fs: seq<Frozen>, i: nat, key: Bytes)
    requires i < |fs|
    ensures FindInLayers(Reversed(FrozenLayers(fs[..i + 1])), key) ==
            if Find(fs[i].entries, key).Some? then Find(fs[i].entries, key)
            else FindInLayers(Reversed(FrozenLayers(fs[..i])), key)
  {
    hide Find, FindInLayers, FrozenLayers, Reversed;
    assert fs[..i + 1] == fs[..i] + [fs[i]];
    FrozensConcat(fs[..i], [fs[i]]);
    OneFrozen(fs[i]);
    ReversedConcat(FrozenLayers(fs[..i]), [fs[i].entries]);
    SingleLayer(fs[i].entries, Reversed(FrozenLayers(fs[..i])), key);
  }

  lemma LastTable(ts: seq<Table>, i: nat, key: Bytes)
    requires i < |ts|
    ensures FindInLayers(Reversed(TableLayers(ts[..i + 1])), key) ==
            if Find(ts[i].entries, key).Some? then Find(ts[i].entries, key)
            else FindInLayers(Reversed(TableLayers(ts[..i])), key)
  {
    hide Find, FindInLayers, TableLayers, Reversed;
    assert ts[..i + 1] == ts[..i] + [ts[i]];
    TablesConcat(ts[..i], [ts[i]]);
    OneTable(ts[i]);
    ReversedConcat(TableLayers(ts[..i]), [ts[i].entries]);
    SingleLayer(ts[i].entries, Reversed(TableLayers(ts[..i])), key);
  }

  lemma CleanAppend(ws: seq<Entry>, e: Entry)
    requires Clean(ws) && (e.tombstone ==> e.value == [])
    ensures Clean(ws + [e])
  {}

  lemma LogAppend(ws: seq<Entry>, e: Entry)
    ensures Wal.Log(ws + [e]) == Wal.Log(ws) + Wal.Frame(e)
  {
    hide Wal.Frame;
    Wal.LogConcat(ws, [e]);
    assert Wal.Log([e]) == Wal.Frame(e) + Wal.Log([]) == Wal.Frame(e);
  }

  // ----- OpenEngine

  /** What a table file loads as: nothing if it does not open, and otherwise the table it was written
      from, with the range that a fresh reader reports. */
  ghost predicate LoadsAs(h: Bloom.Hashes, file: Bytes, t: Option<Table>)
  {
    if t.None? then Open(file) == None
    else exists f :: FileHolds(h, file, t.value, f)
  }

  ghost predicate FileHolds(h: Bloom.Hashes, file: Bytes, t: Table, f: Bloom.Filter)
  {
    && Fits(t.entries, f) && ClaimsAll(h, f, t.entries) && Ascending(t.entries) && Clean(t.entries)
    && file == FileOf(t.entries, f) && t.minKey == [] && t.maxKey == LastKey(t.entries)
  }

  /** The readers of the files that open, in order, with the metadata that they report themselves. */
  function OpenedFiles(files: seq<Bytes>): seq<Handle>
  {
    if files == [] then []
    else
      var r := Open(files[|files| - 1]);
      OpenedFiles(files[..|files| - 1]) + (if r.Some? then [Handle(r.value, OwnMeta(r.value))] else [])
  }

  /** loadExistingSSTables: every file that opens joins level 0, in the order given. */
  method LoadTables(files: seq<Bytes>) returns (xs: seq<Handle>)
    ensures xs == OpenedFiles(files)
  {
    hide Open, OwnMeta;
    xs := [];
    for i := 0 to |files|
      invariant xs == OpenedFiles(files[..i])
    {
      var reader, meta := OpenTable(files[i]);
      assert files[..i + 1][..i] == files[..i];
      if reader.None? {
        continue;
      }
      xs := xs + [Handle(reader.value, meta)];
    }
    assert files[..|files|] == files;
  }

  /** The tables of the files that open, in order. */
  function Loaded(ts: seq<Option<Table>>): seq<Table>
  {
    if ts == [] then []
    else Loaded(ts[..|ts| - 1]) + (if ts[|ts| - 1].Some? then [ts[|ts| - 1].value] else [])
  }

  ghost predicate AllLoad(h: Bloom.Hashes, files: seq<Bytes>, ts: seq<Option<Table>>)
  {
    |files| == |ts| && forall i :: 0 <= i < |files| ==> LoadsAs(h, files[i], ts[i])
  }

  /** Files that the engine has written load as the tables they were written from. */
  lemma {:induction false} OpenedHold(h: Bloom.Hashes, files: seq<Bytes>, ts: seq<Option<Table>>)
    requires AllLoad(h, files, ts)
    ensures AllHold(h, OpenedFiles(files), Loaded(ts))
    decreases |files|
  {
    hide LoadsAs, Holds, Open, AllHold, OwnMeta;
    if files == [] {
      AllHoldNone(h);
    } else {
      var n := |files| - 1;
      OpenedHold(h, files[..n], ts[..n]);
      LoadsOrNot(h, files[n], ts[n]);
      if ts[n].Some? {
        var x := Handle(Open(files[n]).value, OwnMeta(Open(files[n]).value));
        LoadedHolds(h, files[n], ts[n].value, x);
        AllHoldAppend(h, OpenedFiles(files[..n]), Loaded(ts[..n]), x, ts[n].value);
      } else {
        assert OpenedFiles(files[..n]) + [] == OpenedFiles(files[..n]) && Loaded(ts[..n]) + [] == Loaded(ts[..n]);
      }
    }
  }

  lemma LoadedHolds(h: Bloom.Hashes, file: Bytes, t: Table, x: Handle)
    requires LoadsAs(h, file, Some(t)) && Open(file) == Some(x.reader) && x.meta == OwnMeta(x.reader)
    ensures Holds(h, x, t)
  {
    hide FileOf, Fits, ClaimsAll, Ascending, ReaderOf, Open, OwnMeta;
    var f :| FileHolds(h, file, t, f);
    OpenWritten(t.entries, f);
    OwnMaxKey(t.entries, f);
    OwnMin(x.reader);
    assert HoldsWith(h, x, t, f);
  }

  lemma OwnMin(r: Reader)
    ensures OwnMeta(r).minKey == []
  {}

  lemma LoadsOrNot(h: Bloom.Hashes, file: Bytes, t: Option<Table>)
    requires LoadsAs(h, file, t)
    ensures Open(file).Some? <==> t.Some?
  {
    hide FileOf, Fits, ClaimsAll, Ascending, ReaderOf, Open;
    if t.Some? {
      var f :| FileHolds(h, file, t.value, f);
      OpenWritten(t.value.entries, f);
    }
  }

  /** A table as a fresh reader of its file reports it. */
  function AsLoaded(ts: seq<Table>): (r: seq<Option<Table>>)
    ensures |r| == |ts| && forall i :: 0 <= i < |ts| ==> r[i] == Some(Table(ts[i].entries, [], LastKey(ts[i].entries)))
  {
    seq(|ts|, i requires 0 <= i < |ts| => Some(Table(ts[i].entries, [], LastKey(ts[i].entries))))
  }

  lemma {:induction false} LoadedLayers(ts: seq<Table>)
    ensures TableLayers(Loaded(AsLoaded(ts))) == TableLayers(ts)
  {
    hide TableLayers;
    if ts != [] {
      var n := |ts| - 1;
      LoadedLayers(ts[..n]);
      assert AsLoaded(ts)[..n] == AsLoaded(ts[..n]) && ts == ts[..n] + [ts[n]];
      var last := AsLoaded(ts)[n].value;
      TablesConcat(Loaded(AsLoaded(ts[..n])), [last]);
      TablesConcat(ts[..n], [ts[n]]);
      OneTable(last);
      OneTable(ts[n]);
    }
  }

  /** So OpenEngine over the files that these tables were written to comes to a state that answers as the
      one that Recovery reopens from the tables themselves, whose ranges were those of their writers. */
  lemma FilesReopen(h: Bloom.Hashes, files: seq<Bytes>, ts: seq<Table>, records: seq<Entry>, k: Bytes)
    requires |files| == |ts| && forall i :: 0 <= i < |files| ==> LoadsAs(h, files[i], AsLoaded(ts)[i])
    ensures AllLoad(h, files, AsLoaded(ts))
    ensures Locate(Recovery.Reopened(records, Loaded(AsLoaded(ts))), k) == Locate(Recovery.Reopened(records, ts), k)
  {
    hide Locate, LoadsAs;
    LoadedLayers(ts);
    Recovery.OnlyEntriesCount(records, Loaded(AsLoaded(ts)), ts, k);
  }

  /** OpenEngine: recover the log, replay it into a memtable, and load the table files. There is no engine
      exactly when recovery fails. If the log ends with a whole frame and the files that open are the
      engine's own, it is ready for the steps of the machine from the state it reopened in. */
  method OpenEngine(h: Bloom.Hashes, table: array<bv32>, memtableLimit: int, l0CompactionLimit: int, wal: Wal.WAL,
                    files: seq<Bytes>, ghost ts: seq<Option<Table>>, heights: seq<nat>) returns (e: Engine?)
    requires Crc32.IsTable(table[..])
    requires var r := Wal.RecoverFile(wal.file); r.Recovered? ==> |heights| == |r.entries|
    requires forall i :: 0 <= i < |heights| ==> 1 <= heights[i] <= 16
    ensures e == null <==> !Wal.RecoverFile(wal.file).Recovered?
    ensures e != null ==>
              && fresh(e) && e.wal == wal && e.table == table && e.h == h
              && e.memtableLimit == (if memtableLimit > 0 then memtableLimit else 16_777_216)
              && e.l0CompactionLimit == (if l0CompactionLimit > 0 then l0CompactionLimit else 4)
              && e.l0Tables == OpenedFiles(files) && e.l1Tables == [] && e.immutable == [] && e.flushChan == []
              && e.memtable.Valid() && e.memtable.Contents() == Replay([], Wal.RecoverFile(wal.file).entries)
              && e.state == Recovery.Reopened(Wal.RecoverFile(wal.file).entries, Loaded(ts))
              && (AllLoad(h, files, ts) && wal.file == Wal.Log(e.state.wal) ==> e.Valid())
  {
    hide Wal.RecoverFile, Wal.Log, SkipList.Memtable.Contents, SkipList.Memtable.Shaped, SkipList.Memtable.Linked;
    hide SkipList.Memtable.Counted, AllLoad, AllHold, OpenedFiles, Crc32.IsTable, Clean, Replay, FrozenLayers;
    var r := wal.Recover(table);
    if !r.Recovered? {
      return null;
    }
    RecoveredIsClean(wal.file);
    var m := Recovery.ReplayLog(r.entries, heights);
    var xs := LoadTables(files);
    AllHoldNone(h);
    if AllLoad(h, files, ts) {
      OpenedHold(h, files, ts);
    }
    var size := if memtableLimit <= 0 then 16 * 1024 * 1024 else memtableLimit;
    var limit := if l0CompactionLimit <= 0 then 4 else l0CompactionLimit;
    e := new Engine(h, table, size, limit, wal, m, xs, Recovery.Reopened(r.entries, Loaded(ts)));
  }

  /** What recovery reads back without a value is a deletion. */
  lemma {:induction false} RecoveredIsClean(file: Bytes)
    requires Wal.RecoverFile(file).Recovered?
    ensures Clean(Wal.RecoverFile(file).entries)
    decreases |file|
  {
    hide Wal.FirstTurn, Wal.RecoverFile;
    Wal.Unfold(file);
    var t := Wal.FirstTurn(file);
    TurnIsClean(file);
    if t.Take? {
      RecoveredIsClean(file[t.length..]);
    }
  }

  lemma TurnIsClean(file: Bytes)
    ensures var t := Wal.FirstTurn(file);
      if t.Take? then t.entry.tombstone ==> t.entry.value == []
      else t.result.Recovered? ==> t.result.entries == []
  {
    hide Wal.Sum;
  }

  /** A log of whole frames is the log of what it recovers to, empty live values turned into deletions. */
  lemma {:induction false} LogOfLogged(ws: seq<Entry>)
    ensures Wal.Log(Wal.AllLogged(ws)) == Wal.Log(ws)
  {
    hide Wal.Frame;
    if ws != [] {
      LogOfLogged(ws[1..]);
      assert Wal.AllLogged(ws)[1..] == Wal.AllLogged(ws[1..]);
      SameFrame(ws[0]);
    }
  }

  lemma SameFrame(e: Entry)
    ensures Wal.Frame(Wal.Logged(e)) == Wal.Frame(e)
  {
    assert Wal.Payload(Wal.Logged(e)) == Wal.Payload(e);
    hide Wal.Payload, Wal.Sum;
  }

  /** So after a crash at a frame's end the reopened engine is ready, and its answers are those that
      Recovery compares with the answers before. */
  lemma WholeLogReopens(ws: seq<Entry>)
    requires Wal.AllLoggable(ws)
    ensures Wal.RecoverFile(Wal.Log(ws)) == Wal.Recovered(Wal.AllLogged(ws))
    ensures Wal.Log(Wal.RecoverFile(Wal.Log(ws)).entries) == Wal.Log(ws)
  {
    hide Wal.RecoverFile, Wal.Log, Wal.AllLoggable;
    Wal.RecoverLog(ws, []);
    Wal.RecoverEmpty();
    assert Wal.Log(ws) + [] == Wal.Log(ws) && Wal.AllLogged(ws) + [] == Wal.AllLogged(ws);
    LogOfLogged(ws);
  }
}
