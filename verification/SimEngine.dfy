/** The class SimulatedLsmEngine of src/engine/storageEngine.ts, proved against SimStore. */
module SimEngine {
  import opened Bytes
  import opened Entries
  import opened SimStore
  import Compaction
  import Crc32
  import Wal

  const NUM_BITS: nat := 64
  const NUM_HASH: nat := 4
  const BLOCK_ENTRIES: nat := 3
  const MAX_FRAMES: nat := 50

  datatype Block = Block(blockIndex: nat, offset: nat, length: nat, lastKey: Bytes, entries: seq<Entry>)

  datatype TableView = TableView(id: nat, level: nat, minKey: Bytes, maxKey: Bytes, entryCount: nat, fileBytes: nat,
                                 bits: seq<bool>, blocks: seq<Block>)

  datatype Frame = Frame(offset: nat, crc32: bv32, record: Entry)

  // ----- tables

  /** The two hash functions, whatever they are. */
  datatype Hashes = Hashes(fnv: Bytes -> nat, murmur: Bytes -> nat)

  function BitOf(h: Hashes, key: Bytes, i: nat): (r: nat)
    ensures r < NUM_BITS
  {
    (h.fnv(key) % NUM_BITS + i * (h.murmur(key) % NUM_BITS)) % NUM_BITS
  }

  predicate Covers(h: Hashes, bits: seq<bool>, key: Bytes, n: nat)
    requires |bits| == NUM_BITS
  {
    forall i: nat :: i < n ==> bits[BitOf(h, key, i)]
  }

  /** The first n bits of a key. */
  function KeyBits(h: Hashes, key: Bytes, n: nat): set<nat>
  {
    if n == 0 then {} else KeyBits(h, key, n - 1) + {BitOf(h, key, n - 1)}
  }

  /** The bits of all keys. */
  function AllBits(h: Hashes, es: seq<Entry>): set<nat>
  {
    if es == [] then {} else AllBits(h, es[..|es| - 1]) + KeyBits(h, es[|es| - 1].key, NUM_HASH)
  }

  /** Exactly these bits are set. */
  predicate Marks(bits: seq<bool>, chosen: set<nat>)
  {
    forall b: nat :: b < |bits| ==> (bits[b] <==> b in chosen)
  }

  lemma {:induction false} MarksCover(h: Hashes, bits: seq<bool>, key: Bytes, n: nat, chosen: set<nat>)
    requires |bits| == NUM_BITS && Marks(bits, chosen) && KeyBits(h, key, n) <= chosen
    ensures Covers(h, bits, key, n)
  {
    if n > 0 {
      MarksCover(h, bits, key, n - 1, chosen);
      assert BitOf(h, key, n - 1) in KeyBits(h, key, n);
    }
  }

  lemma {:induction false} BitsOfAll(h: Hashes, es: seq<Entry>, e: Entry)
    requires e in es
    ensures KeyBits(h, e.key, NUM_HASH) <= AllBits(h, es)
  {
    hide KeyBits;
    if e != es[|es| - 1] {
      BitsOfAll(h, es[..|es| - 1], e);
    }
  }

  function BlockLists(blocks: seq<Block>): (r: seq<seq<Entry>>)
    ensures |r| == |blocks| && forall i :: 0 <= i < |blocks| ==> r[i] == blocks[i].entries
  {
    seq(|blocks|, i requires 0 <= i < |blocks| => blocks[i].entries)
  }

  function EntriesOf(v: TableView): seq<Entry> { Flatten(BlockLists(v.blocks)) }

  /** The length a block reports: key, value and 15 bytes of header per entry. */
  function BlockLength(es: seq<Entry>): nat
  {
    if es == [] then 0 else BlockLength(es[..|es| - 1]) + |es[|es| - 1].key| + |es[|es| - 1].value| + 15
  }

  /** Blocks are numbered, lie one behind the other from offset zero, hold three entries each but the
      last, and report their last key. */
  predicate BlocksTile(blocks: seq<Block>)
  {
    forall i :: 0 <= i < |blocks| ==>
      && blocks[i].blockIndex == i
      && 0 < |blocks[i].entries| <= BLOCK_ENTRIES
      && (i < |blocks| - 1 ==> |blocks[i].entries| == BLOCK_ENTRIES)
      && blocks[i].length == BlockLength(blocks[i].entries)
      && blocks[i].lastKey == blocks[i].entries[|blocks[i].entries| - 1].key
      && blocks[i].offset == (if i == 0 then 0 else blocks[i - 1].offset + blocks[i - 1].length)
  }

  function DataEnd(blocks: seq<Block>): nat
  {
    if blocks == [] then 0 else blocks[|blocks| - 1].offset + blocks[|blocks| - 1].length
  }

  predicate GoodView(h: Hashes, v: TableView)
  {
    var es := EntriesOf(v);
    && |v.bits| == NUM_BITS && Marks(v.bits, AllBits(h, es))
    && (forall e :: e in es ==> Covers(h, v.bits, e.key, NUM_HASH))
    && BlocksTile(v.blocks) && Ascending(es) && es != []
    && v.minKey == es[0].key && v.maxKey == es[|es| - 1].key
    && v.entryCount == |es| && v.fileBytes == DataEnd(v.blocks) + 64 + 40
  }

  function ViewLayers(vs: seq<TableView>): (r: seq<seq<Entry>>)
    ensures |r| == |vs| && forall i :: 0 <= i < |vs| ==> r[i] == EntriesOf(vs[i])
  {
    seq(|vs|, i requires 0 <= i < |vs| => EntriesOf(vs[i]))
  }

  lemma BlockAppend(blocks: seq<Block>, b: Block)
    ensures Flatten(BlockLists(blocks + [b])) == Flatten(BlockLists(blocks)) + b.entries
  {
    assert BlockLists(blocks + [b]) == BlockLists(blocks) + [b.entries];
    FlattenSnoc(BlockLists(blocks), b.entries);
  }

  lemma LayersAppend(vs: seq<TableView>, v: TableView)
    ensures ViewLayers(vs + [v]) == ViewLayers(vs) + [EntriesOf(v)]
    ensures ViewLayers([v] + vs) == [EntriesOf(v)] + ViewLayers(vs)
  {}

  /** A key outside a table's range, or denied by its filter, is not in the table. */
  lemma SkippedTable(h: Hashes, v: TableView, key: Bytes)
    requires GoodView(h, v)
    requires Less(key, v.minKey) || Less(v.maxKey, key) || !Covers(h, v.bits, key, NUM_HASH)
    ensures Find(EntriesOf(v), key) == None
  {
    hide Less, Covers;
    LessIsStrictTotalOrder();
    var es := EntriesOf(v);
    forall e | e in es ensures e.key != key {
      var i :| 0 <= i < |es| && es[i] == e;
      assert i > 0 ==> Less(es[0].key, es[i].key);
      assert i < |es| - 1 ==> Less(es[i].key, es[|es| - 1].key);
    }
    FindNone(es, key);
  }

  // ----- frames

  /** The frames shown are the latest ones, newest first, lying back to back up to the end. */
  predicate FramesChain(frames: seq<Frame>, end: nat)
  {
    |frames| <= MAX_FRAMES && forall i :: 0 <= i < |frames| ==> Chained(frames, end, i)
  }

  predicate Chained(frames: seq<Frame>, end: nat, i: nat)
    requires i < |frames|
  {
    && frames[i].offset + |Wal.Frame(frames[i].record)| == (if i == 0 then end else frames[i - 1].offset)
    && frames[i].crc32 == Crc32.Checksum(Wal.Payload(frames[i].record))
  }

  /** unshift, and pop beyond fifty. */
  function Pushed(frames: seq<Frame>, f: Frame): seq<Frame>
  {
    var all := [f] + frames;
    if |all| > MAX_FRAMES then all[..|all| - 1] else all
  }

  /** The frame of a record at the current end of the log. */
  function FrameAt(offset: nat, e: Entry): Frame { Frame(offset, Crc32.Checksum(Wal.Payload(e)), e) }

  lemma FramesPush(frames: seq<Frame>, end: nat, e: Entry)
    requires FramesChain(frames, end)
    ensures FramesChain(Pushed(frames, FrameAt(end, e)), end + |Wal.Frame(e)|)
  {
    hide Wal.Frame, Wal.Payload, Crc32.Checksum, Pushed;
    var all, next := Pushed(frames, FrameAt(end, e)), end + |Wal.Frame(e)|;
    PushedAt(frames, FrameAt(end, e));
    forall i | 0 <= i < |all| ensures Chained(all, next, i) {
      if i == 1 {
        assert Chained(frames, end, 0);
      } else if i > 1 {
        assert Chained(frames, end, i - 1);
      }
    }
  }

  lemma PushedAt(frames: seq<Frame>, f: Frame)
    requires |frames| <= MAX_FRAMES
    ensures var all := Pushed(frames, f);
      && |all| == (if |frames| == MAX_FRAMES then MAX_FRAMES else |frames| + 1)
      && all[0] == f && forall i :: 0 < i < |all| ==> all[i] == frames[i - 1]
  {}

  lemma TileAppend(blocks: seq<Block>, b: Block)
    requires BlocksTile(blocks) && forall j :: 0 <= j < |blocks| ==> |blocks[j].entries| == BLOCK_ENTRIES
    requires b.blockIndex == |blocks| && 0 < |b.entries| <= BLOCK_ENTRIES && b.length == BlockLength(b.entries)
    requires b.lastKey == b.entries[|b.entries| - 1].key && b.offset == DataEnd(blocks)
    ensures BlocksTile(blocks + [b]) && DataEnd(blocks + [b]) == b.offset + b.length
  {
    hide BlockLength;
  }

  /** Puts of the given records. */
  function PutOps(es: seq<Entry>): (r: seq<Op>)
    ensures |r| == |es| && forall i :: 0 <= i < |es| ==> r[i] == Op.Put(es[i].key, es[i].value, es[i].ts)
  {
    seq(|es|, i requires 0 <= i < |es| => Op.Put(es[i].key, es[i].value, es[i].ts))
  }

  lemma PutOpsStep(es: seq<Entry>, i: nat)
    requires i < |es| && !es[i].tombstone
    ensures SimStore.Run(PutOps(es[..i + 1])).0 == SimStore.Write(SimStore.Run(PutOps(es[..i])).0, es[i])
  {
    hide SimStore.Run, SimStore.Write;
    var ops := PutOps(es[..i + 1]);
    assert ops[..i] == PutOps(es[..i]) && ops[..i + 1] == ops;
    SimStore.RunStep(ops, i);
    assert es[i] == Entry(es[i].key, es[i].value, false, es[i].ts);
  }

  class SimulatedLsmEngine {
    const h: Hashes
    const table: array<bv32>
    var memtable: seq<Entry>
    var l0Tables: seq<TableView>
    var l1Tables: seq<TableView>
    var walFrames: seq<Frame>
    var nextSSTableId: nat
    var currentOffset: nat

    function View(): Store
      reads this
    {
      Store(memtable, ViewLayers(l0Tables), ViewLayers(l1Tables))
    }

    ghost predicate GoodTables()
      reads this
    {
      && nextSSTableId >= 1
      && (forall v :: v in l0Tables ==> GoodView(h, v) && v.level == 0 && 1 <= v.id < nextSSTableId)
      && (forall v :: v in l1Tables ==> GoodView(h, v) && v.level == 1 && 1 <= v.id < nextSSTableId)
    }

    ghost predicate Valid()
      reads this, table
    {
      Crc32.IsTable(table[..]) && GoodTables() && FramesChain(walFrames, currentOffset) && DistinctKeys(memtable)
    }

    /** The engine after a put of each initial record, in order. */
    constructor (h: Hashes, table: array<bv32>, initialData: seq<Entry>)
      requires Crc32.IsTable(table[..]) && forall e :: e in initialData ==> !e.tombstone
      ensures Valid() && View() == SimStore.Run(PutOps(initialData)).0 && this.h == h && this.table == table
    {
      this.h, this.table := h, table;
      memtable, l0Tables, l1Tables, walFrames := [], [], [], [];
      nextSSTableId, currentOffset := 1, 0;
      new;
      hide Valid, SimStore.Write, SimStore.Run;
      NothingYet();
      for i := 0 to |initialData|
        invariant Valid() && View() == SimStore.Run(PutOps(initialData[..i])).0
      {
        var e := initialData[i];
        PutOpsStep(initialData, i);
        Put(e.key, e.value, e.ts);
      }
      assert initialData[..|initialData|] == initialData;
    }

    lemma NothingYet()
      requires memtable == [] && l0Tables == [] && l1Tables == [] && walFrames == [] && nextSSTableId == 1
      requires Crc32.IsTable(table[..])
      ensures Valid() && View() == SimStore.Run(PutOps([])).0
    {
      hide Crc32.IsTable;
    }

    /** put: a frame, a memtable entry, and the cascade. */
    method Put(key: Bytes, value: Bytes, ts: int)
      requires Valid()
      modifies this
      ensures Valid() && View() == SimStore.Write(old(View()), Entry(key, value, false, ts))
      ensures walFrames == Pushed(old(walFrames), FrameAt(old(currentOffset), Entry(key, value, false, ts)))
    {
      hide Crc32.IsTable, FramesChain, GoodView, SimStore.Flush, SetKey, Pushed, DistinctKeys;
      AppendFrame(Entry(key, value, false, ts));
      SetKeyDistinct(memtable, Entry(key, value, false, ts));
      memtable := SetKey(memtable, Entry(key, value, false, ts));
      if |memtable| >= MEMTABLE_LIMIT {
        RotateAndFlush();
      }
    }

    /** delete: the same with a tombstone. */
    method Delete(key: Bytes, ts: int)
      requires Valid()
      modifies this
      ensures Valid() && View() == SimStore.Write(old(View()), Entry(key, [], true, ts))
      ensures walFrames == Pushed(old(walFrames), FrameAt(old(currentOffset), Entry(key, [], true, ts)))
    {
      hide Crc32.IsTable, FramesChain, GoodView, SimStore.Flush, SetKey, Pushed, DistinctKeys;
      AppendFrame(Entry(key, [], true, ts));
      SetKeyDistinct(memtable, Entry(key, [], true, ts));
      memtable := SetKey(memtable, Entry(key, [], true, ts));
      if |memtable| >= MEMTABLE_LIMIT {
        RotateAndFlush();
      }
    }

    method AppendFrame(e: Entry)
      requires Valid()
      modifies this`walFrames, this`currentOffset
      ensures Valid()
      ensures walFrames == Pushed(old(walFrames), FrameAt(old(currentOffset), e))
      ensures currentOffset == old(currentOffset) + |Wal.Frame(e)|
    {
      hide Crc32.IsTable, GoodView, Crc32.Checksum, DistinctKeys, FramesChain;
      var payload := Wal.Payload(e);
      var checksum := Crc32.Crc32Ieee(table, payload);
      var frame := Frame(currentOffset, checksum, e);
      FramesPush(walFrames, currentOffset, e);
      walFrames := [frame] + walFrames;
      if |walFrames| > MAX_FRAMES {
        walFrames := walFrames[..|walFrames| - 1];
      }
      currentOffset := currentOffset + |Wal.Frame(e)|;
    }

    /** get: memtable, level 0 newest first, level 1 in order. */
    method Get(key: Bytes) returns (value: Bytes, found: bool)
      requires Valid()
      ensures found <==> SimStore.Get(View(), key).Some?
      ensures found ==> value == SimStore.Get(View(), key).value.value
    {
      hide GoodView, FramesChain, FindInLayers, Crc32.IsTable, DistinctKeys;
      var answer := Find(memtable, key);
      if answer.None? {
        answer := SearchTables(l0Tables, key, false);
        if answer.None? {
          answer := SearchTables(l1Tables, key, true);
        }
      }
      if answer.Some? && !answer.value.tombstone {
        return answer.value.value, true;
      }
      return [], false;
    }

    /** The table loops of get; only level 1 tests the key range first. */
    method SearchTables(vs: seq<TableView>, key: Bytes, ranged: bool) returns (r: Option<Entry>)
      requires forall v :: v in vs ==> GoodView(h, v)
      ensures r == FindInLayers(ViewLayers(vs), key)
    {
      hide GoodView, Find, Less, Covers;
      for i := 0 to |vs|
        invariant FindInLayers(ViewLayers(vs), key) == FindInLayers(ViewLayers(vs[i..]), key)
      {
        assert ViewLayers(vs[i..])[0] == EntriesOf(vs[i]) && ViewLayers(vs[i..])[1..] == ViewLayers(vs[i + 1..]);
        assert vs[i] in vs;
        if ranged && (Less(key, vs[i].minKey) || Less(vs[i].maxKey, key)) {
          SkippedTable(h, vs[i], key);
          continue;
        }
        BitsOf(vs[i]);
        var mayContain := CheckBloomFilter(vs[i].bits, key);
        if !mayContain {
          SkippedTable(h, vs[i], key);
          continue;
        }
        r := SearchBlocks(vs[i].blocks, key);
        if r.Some? {
          return;
        }
      }
      r := None;
    }

    lemma BitsOf(v: TableView)
      requires GoodView(h, v)
      ensures |v.bits| == NUM_BITS
    {}

    method CheckBloomFilter(bits: seq<bool>, key: Bytes) returns (r: bool)
      requires |bits| == NUM_BITS
      ensures r == Covers(h, bits, key, NUM_HASH)
    {
      for i := 0 to NUM_HASH
        invariant Covers(h, bits, key, i)
      {
        if !bits[BitOf(h, key, i)] {
          return false;
        }
      }
      return true;
    }

    method SearchBlocks(blocks: seq<Block>, key: Bytes) returns (r: Option<Entry>)
      ensures r == Find(Flatten(BlockLists(blocks)), key)
    {
      hide Find;
      for i := 0 to |blocks|
        invariant Find(Flatten(BlockLists(blocks)), key) == Find(Flatten(BlockLists(blocks[i..])), key)
      {
        assert BlockLists(blocks[i..])[0] == blocks[i].entries &&
               BlockLists(blocks[i..])[1..] == BlockLists(blocks[i + 1..]);
        FindConcat(blocks[i].entries, Flatten(BlockLists(blocks[i + 1..])), key);
        r := Find(blocks[i].entries, key);
        if r.Some? {
          return;
        }
      }
      FindNone([], key);
      r := None;
    }

    /** rotateAndFlush. */
    method RotateAndFlush()
      requires Valid()
      modifies this`memtable, this`l0Tables, this`l1Tables, this`nextSSTableId
      ensures Valid() && View() == SimStore.Flush(old(View()))
    {
      hide GoodView, FramesChain, Crc32.IsTable, Compaction.StableSort, DistinctKeys;
      if |memtable| == 0 {
        return;
      }
      SortedDistinct(memtable);
      var entries := Compaction.SliceStable(memtable);
      memtable := [];
      NoKeys();
      var table := CreateSSTable(entries, 0);
      LayersAppend(l0Tables, table);
      l0Tables := [table] + l0Tables;
      if |l0Tables| >= L0_LIMIT {
        TriggerCompaction();
      }
    }

    lemma NoKeys()
      ensures DistinctKeys([])
    {}

    /** triggerCompaction. */
    method TriggerCompaction()
      requires Valid()
      modifies this`l0Tables, this`l1Tables, this`nextSSTableId
      ensures Valid() && View() == SimStore.Compact(old(View()))
    {
      hide GoodView, FramesChain, Crc32.IsTable, Compaction.StableSort, DistinctKeys, FirstLive;
      if |l0Tables| < 2 {
        return;
      }
      var tablesToMerge := l0Tables;
      l0Tables := [];
      var merged := MergeTables(tablesToMerge);
      if |merged| > 0 {
        var l1Table := CreateSSTable(merged, 1);
        LayersAppend(l1Tables, l1Table);
        l1Tables := l1Tables + [l1Table];
      }
    }

    /** Gather, sort, and drop what is superseded or deleted. */
    method MergeTables(vs: seq<TableView>) returns (merged: seq<Entry>)
      ensures merged == SimStore.Merged(ViewLayers(vs)) && Ascending(merged)
    {
      hide Compaction.StableSort, FirstLive, Ascending, FindInLayers, Find;
      var allEntries := GatherEntries(vs);
      var sorted := Compaction.SliceStable(allEntries);
      merged := DropSeen(sorted);
      MergedExact(ViewLayers(vs), []);
    }

    method GatherEntries(vs: seq<TableView>) returns (all: seq<Entry>)
      ensures all == Flatten(ViewLayers(vs))
    {
      all := [];
      for i := 0 to |vs|
        invariant all == Flatten(ViewLayers(vs[..i]))
      {
        assert vs[..i + 1] == vs[..i] + [vs[i]];
        LayersAppend(vs[..i], vs[i]);
        FlattenSnoc(ViewLayers(vs[..i]), EntriesOf(vs[i]));
        all := all + EntriesOf(vs[i]);
      }
      assert vs[..|vs|] == vs;
    }

    /** One turn of the loop: what is kept of a record, and what is seen after it. */
    lemma FirstLiveStep(merged: seq<Entry>, s: seq<Entry>, i: nat, seen: set<Bytes>)
      requires i < |s|
      ensures var known := s[i].key in seen;
        merged + FirstLive(s[i..], seen) ==
        (if known || s[i].tombstone then merged else merged + [s[i]]) +
        FirstLive(s[i + 1..], if known then seen else seen + {s[i].key})
    {
      SplitAt(s, i);
      var rest := FirstLive(s[i + 1..], seen + {s[i].key});
      assert merged + ([s[i]] + rest) == merged + [s[i]] + rest;
      assert [] + rest == rest;
    }

    lemma FirstLiveEnds(s: seq<Entry>, seen: set<Bytes>)
      ensures s[0..] == s && FirstLive(s[|s|..], seen) == []
    {}

    method DropSeen(s: seq<Entry>) returns (merged: seq<Entry>)
      ensures merged == FirstLive(s, {})
    {
      hide FirstLive;
      merged := [];
      var seen: set<Bytes> := {};
      FirstLiveEnds(s, seen);
      for i := 0 to |s|
        invariant FirstLive(s, {}) == merged + FirstLive(s[i..], seen)
      {
        FirstLiveStep(merged, s, i, seen);
        if s[i].key in seen {
          continue;
        }
        seen := seen + {s[i].key};
        if s[i].tombstone {
          continue;
        }
        merged := merged + [s[i]];
      }
      FirstLiveEnds(s, seen);
    }

    /** createSSTable: filter bits, then blocks of three. */
    method CreateSSTable(entries: seq<Entry>, level: nat) returns (v: TableView)
      requires entries != [] && Ascending(entries)
      modifies this`nextSSTableId
      ensures GoodView(h, v) && EntriesOf(v) == entries
      ensures v.id == old(nextSSTableId) && v.level == level && nextSSTableId == old(nextSSTableId) + 1
    {
      hide Ascending, Covers, Marks, AllBits;
      var id := nextSSTableId;
      nextSSTableId := nextSSTableId + 1;
      var bits := SetBits(entries);
      var blocks := CutBlocks(entries);
      v := TableView(id, level, entries[0].key, entries[|entries| - 1].key, |entries|, DataEnd(blocks) + 64 + 40,
                     bits, blocks);
    }

    method SetBits(entries: seq<Entry>) returns (bits: seq<bool>)
      ensures |bits| == NUM_BITS && Marks(bits, AllBits(h, entries))
      ensures forall e :: e in entries ==> Covers(h, bits, e.key, NUM_HASH)
    {
      hide BitOf, Covers;
      bits := seq(NUM_BITS, _ => false);
      for j := 0 to |entries|
        invariant |bits| == NUM_BITS && Marks(bits, AllBits(h, entries[..j]))
      {
        assert entries[..j + 1][..j] == entries[..j];
        for i := 0 to NUM_HASH
          invariant |bits| == NUM_BITS && Marks(bits, AllBits(h, entries[..j]) + KeyBits(h, entries[j].key, i))
        {
          bits := bits[BitOf(h, entries[j].key, i) := true];
        }
      }
      assert entries[..|entries|] == entries;
      forall e | e in entries ensures Covers(h, bits, e.key, NUM_HASH) {
        BitsOfAll(h, entries, e);
        MarksCover(h, bits, e.key, NUM_HASH, AllBits(h, entries));
      }
    }

    method CutBlocks(entries: seq<Entry>) returns (blocks: seq<Block>)
      ensures BlocksTile(blocks) && Flatten(BlockLists(blocks)) == entries
    {
      hide BlockLength, BlocksTile, Flatten, BlockLists, DataEnd;
      NoBlocks();
      blocks := [];
      var i, offset := 0, 0;
      while i < |entries|
        invariant 0 <= i <= |entries|
        invariant Flatten(BlockLists(blocks)) == entries[..i]
        invariant BlocksTile(blocks) && offset == DataEnd(blocks)
        invariant i < |entries| ==> forall j :: 0 <= j < |blocks| ==> |blocks[j].entries| == BLOCK_ENTRIES
        decreases |entries| - i
      {
        var end := if i + BLOCK_ENTRIES <= |entries| then i + BLOCK_ENTRIES else |entries|;
        var chunk := entries[i..end];
        var length := MeasureBlock(chunk);
        var b := Block(|blocks|, offset, length, chunk[|chunk| - 1].key, chunk);
        BlockAppend(blocks, b);
        TileAppend(blocks, b);
        blocks := blocks + [b];
        offset := offset + length;
        TakeMore(entries, i, end);
        i := end;
      }
    }

    lemma NoBlocks()
      ensures BlocksTile([]) && DataEnd([]) == 0 && Flatten(BlockLists([])) == []
    {}

    method MeasureBlock(chunk: seq<Entry>) returns (length: nat)
      ensures length == BlockLength(chunk)
    {
      length := 0;
      for i := 0 to |chunk|
        invariant length == BlockLength(chunk[..i])
      {
        assert chunk[..i + 1][..i] == chunk[..i];
        length := length + |chunk[i].key| + |chunk[i].value| + 15;
      }
      assert chunk[..|chunk|] == chunk;
    }
  }
}
