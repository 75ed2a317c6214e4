/** The SSTable writer and the read loops of go/pkg/lsm/sstable.go, proved against the layout in
    TableFormat. A reader never changes once opened, so it is a value. */
module SSTable {
  import opened Bytes
  import opened Entries
  import opened TableFormat
  import opened TableProofs
  import Bloom

  /** What Finish reports about the table. */
  datatype Metadata = Metadata(minKey: Bytes, maxKey: Bytes, entryNum: nat, fileBytes: nat)

  /** The tracked minimum starts as "", which also reads as "not set yet", so an empty first key is
      forgotten as soon as a second key arrives. */
  function TrackedMin(es: seq<Entry>): Bytes
  {
    if es == [] then []
    else if es[0].key == [] && |es| > 1 then es[1].key
    else es[0].key
  }

  /** The tracked minimum is the least key exactly when the first key is non-empty or alone. */
  lemma TrackedMinExact(es: seq<Entry>)
    requires Ascending(es) && es != []
    ensures TrackedMin(es) == es[0].key <==> es[0].key != [] || |es| == 1
  {
    hide Less;
    LessIsStrictTotalOrder();
  }

  class SSTableWriter {
    var file: Bytes
    var currBlock: Bytes
    var indexEntries: seq<IndexEntry>
    const bloom: Bloom.BloomFilter
    var minKey: Bytes
    var maxKey: Bytes
    var entryCount: nat
    var offset: nat
    /** The entries added so far. */
    ghost var entries: seq<Entry>

    ghost predicate Valid()
      reads this, bloom, bloom.bits
    {
      && bloom.Valid() && bloom.added == Keys(entries)
      && Ascending(entries)
      && file == EncodeBlock(Flatten(Chunked(entries).full))
      && currBlock == EncodeBlock(Chunked(entries).open)
      && indexEntries == IndexOf(Chunked(entries).full)
      && minKey == TrackedMin(entries) && maxKey == LastKey(entries)
      && entryCount == |entries| && offset == |file|
    }

    constructor (bloom: Bloom.BloomFilter)
      requires bloom.Valid() && bloom.added == {}
      ensures Valid() && entries == [] && this.bloom == bloom
    {
      this.bloom := bloom;
      file, currBlock, indexEntries := [], [], [];
      minKey, maxKey, entryCount, offset := [], [], 0, 0;
      entries := [];
    }

    /** Add: keys must come in strictly ascending order. */
    method Add(key: Bytes, value: Bytes, tombstone: bool, ts: int)
      requires Valid() && (entries != [] ==> Less(LastKey(entries), key))
      modifies this, bloom, bloom.bits
      ensures Valid() && entries == old(entries) + [Entry(key, value, tombstone, ts)]
      ensures bloom.numBits == old(bloom.numBits) && bloom.bits == old(bloom.bits)
    {
      hide Chunked, EncodeBlock, IndexOf, Flatten, Less, TrackedMin, LastKey, Ascending;
      ghost var e := Entry(key, value, tombstone, ts);
      AddedKeys(entries, e);
      TrackedAppend(entries, e);
      NoteKey(key);
      AppendEntry(key, value, tombstone, ts);
      entries := entries + [e];
    }

    /** The summary part of Add: extremes, filter, count. */
    method NoteKey(key: Bytes)
      requires bloom.Valid()
      modifies this`minKey, this`maxKey, this`entryCount, bloom, bloom.bits
      ensures bloom.Valid() && bloom.added == old(bloom.added) + {key}
      ensures bloom.numBits == old(bloom.numBits) && bloom.bits == old(bloom.bits)
      ensures minKey == if old(minKey) == [] || Less(key, old(minKey)) then key else old(minKey)
      ensures maxKey == if Less(old(maxKey), key) then key else old(maxKey)
      ensures entryCount == old(entryCount) + 1
    {
      if minKey == [] || Less(key, minKey) {
        minKey := key;
      }
      if Less(maxKey, key) {
        maxKey := key;
      }
      bloom.Add(key);
      entryCount := entryCount + 1;
    }

    /** The encoding part of Add: the record goes to the open block, which may then be flushed. */
    method AppendEntry(key: Bytes, value: Bytes, tombstone: bool, ts: int)
      requires file == EncodeBlock(Flatten(Chunked(entries).full)) && offset == |file|
      requires currBlock == EncodeBlock(Chunked(entries).open) && indexEntries == IndexOf(Chunked(entries).full)
      modifies this`file, this`currBlock, this`indexEntries, this`offset
      ensures var c := Chunked(entries + [Entry(key, value, tombstone, ts)]);
        && file == EncodeBlock(Flatten(c.full)) && offset == |file|
        && currBlock == EncodeBlock(c.open) && indexEntries == IndexOf(c.full)
    {
      hide Chunked, EncodeBlock, EncodeEntry, IndexOf, Flatten, LastKey;
      ghost var e, c := Entry(key, value, tombstone, ts), Chunked(entries);
      var vBytes := if tombstone then [] else value;
      var flags: byte := if tombstone then 1 else 0;
      var entryBuf := Le(|key|, 2) + Le(|vBytes|, 4) + [flags] + Le(ToU64(ts), 8) + (key + vBytes);
      EntryBytes(e);
      AppendedBlock(c.open, e);
      currBlock := currBlock + entryBuf;
      assert (entries + [e])[..|entries|] == entries;
      ChunkStep(entries + [e]);
      if |currBlock| >= BLOCK_SIZE {
        FlushedBlock(c.full, c.open + [e]);
        EmptyBlock();
        FlushBlock(key);
      }
    }

    /** flushBlock appends the open block to the file and an entry to the index. */
    method FlushBlock(lastKey: Bytes)
      modifies this`file, this`currBlock, this`indexEntries, this`offset
      ensures currBlock == []
      ensures file == old(file) + old(currBlock)
      ensures old(currBlock) == [] ==> indexEntries == old(indexEntries) && offset == old(offset)
      ensures old(currBlock) != [] ==>
                && indexEntries == old(indexEntries) + [IndexEntry(lastKey, old(offset), |old(currBlock)|)]
                && offset == old(offset) + |old(currBlock)|
    {
      if |currBlock| == 0 {
        return;
      }
      file := file + currBlock;
      indexEntries := indexEntries + [IndexEntry(lastKey, offset, |currBlock|)];
      offset := offset + |currBlock|;
      currBlock := [];
    }

    /** Finish flushes what is left in the open block. */
    method FlushLast()
      requires Valid()
      modifies this`file, this`currBlock, this`indexEntries, this`offset
      ensures file == EncodeBlock(entries) && indexEntries == IndexOf(Blocks(entries)) && offset == |file|
    {
      hide Chunked, EncodeBlock, IndexOf, Flatten, ClaimsAll, Ascending, TrackedMin;
      ghost var c := Chunked(entries);
      ChunksFlatten(entries);
      EmptyBlock();
      if |currBlock| > 0 {
        FlushedBlock(c.full, c.open);
        LastOfOpen(c.full, c.open);
        FlushBlock(maxKey);
      } else {
        EncodeBlockSome(c.open);
        assert Flatten(c.full) == entries;
      }
    }

    /** Finish writes exactly the file of the added entries. */
    method Finish() returns (meta: Metadata)
      requires Valid()
      modifies this`file, this`currBlock, this`indexEntries, this`offset
      ensures file == FileOf(entries, bloom.Fields())
      ensures bloom.Fields().Valid() && ClaimsAll(bloom.h, bloom.Fields(), entries)
      ensures meta == Metadata(TrackedMin(entries), LastKey(entries), |entries|, |file|)
    {
      hide Chunked, EncodeBlock, IndexOf, Flatten, Bloom.Encode, EncodeIndex, Footer, Blocks;
      FlushLast();
      var filterBytes := Bloom.Encode(bloom.Fields());
      var filterOffset := offset;
      file := file + filterBytes;
      offset := offset + |filterBytes|;
      var indexBuf := IndexBytes();
      var indexOffset := offset;
      file := file + indexBuf + Footer(filterOffset, |filterBytes|, indexOffset, |indexBuf|);
      offset := offset + |indexBuf| + FOOTER_SIZE;
      return Metadata(minKey, maxKey, entryCount, offset);
    }

    method IndexBytes() returns (indexBuf: Bytes)
      ensures indexBuf == EncodeIndex(indexEntries)
    {
      hide EncodeIndex;
      EmptyBlock();
      indexBuf := [];
      for i := 0 to |indexEntries|
        invariant indexBuf == EncodeIndex(indexEntries[..i])
      {
        var ie := indexEntries[i];
        assert indexEntries[..i + 1][..i] == indexEntries[..i];
        AppendedIndexEntry(indexEntries[..i + 1]);
        indexBuf := indexBuf + (Le(|ie.lastKey|, 2) + Le(ie.offset, 8) + Le(ie.length, 8) + ie.lastKey);
      }
      assert indexEntries[..|indexEntries|] == indexEntries;
    }
  }

  lemma EntryBytes(e: Entry)
    ensures EncodeEntry(e) == Le(|e.key|, 2) + Le(|StoredValue(e)|, 4) + [if e.tombstone then 1 else 0]
                              + Le(ToU64(e.ts), 8) + (e.key + StoredValue(e))
  {}

  lemma EmptyBlock()
    ensures EncodeBlock([]) == [] && EncodeIndex([]) == []
  {}

  lemma AppendedIndexEntry(ix: seq<IndexEntry>)
    requires ix != []
    ensures EncodeIndex(ix) == EncodeIndex(ix[..|ix| - 1]) + EncodeIndexEntry(ix[|ix| - 1])
  {
    hide EncodeIndexEntry;
  }

  lemma AppendedBlock(open: seq<Entry>, e: Entry)
    ensures EncodeBlock(open + [e]) == EncodeBlock(open) + EncodeEntry(e)
    ensures LastKey(open + [e]) == e.key
  {
    hide EncodeEntry;
    EncodeBlockConcat(open, [e]);
    EncodeBlockOne(e);
  }

  /** Adding an entry moves the tracked extremes as the two comparisons do, and keeps the order. */
  lemma TrackedAppend(es: seq<Entry>, e: Entry)
    requires Ascending(es) && (es != [] ==> Less(LastKey(es), e.key))
    ensures Ascending(es + [e])
    ensures var m := TrackedMin(es);
      TrackedMin(es + [e]) == if m == [] || Less(e.key, m) then e.key else m
    ensures LastKey(es + [e]) == if Less(LastKey(es), e.key) then e.key else LastKey(es)
    ensures LastKey(es + [e]) == e.key
  {
    hide Less;
    LessIsStrictTotalOrder();
    EmptyIsLeast(e.key);
    var r := es + [e];
    forall i, j | 0 <= i < j < |r| ensures Less(r[i].key, r[j].key) {
      if j == |es| && i < |es| - 1 {
        assert Less(es[i].key, es[|es| - 1].key);
      }
    }
    if es != [] {
      assert forall i :: 0 <= i < |es| ==> Less(r[i].key, r[|es|].key);
      if |es| > 1 {
        EmptyIsLeast(es[0].key);
        EmptyIsLeast(es[1].key);
      }
    }
  }

  lemma AddedKeys(es: seq<Entry>, e: Entry)
    ensures Keys(es + [e]) == Keys(es) + {e.key}
  {
    forall x | x in es + [e] ensures x in es || x == e {}
    assert e in es + [e];
    forall x | x in es ensures x in es + [e] {}
  }

  /** Flushing an open block extends the file and the index by that block. */
  lemma FlushedBlock(full: seq<seq<Entry>>, open: seq<Entry>)
    ensures EncodeBlock(Flatten(full + [open])) == EncodeBlock(Flatten(full)) + EncodeBlock(open)
    ensures IndexOf(full + [open]) ==
            IndexOf(full) + [IndexEntry(LastKey(open), |EncodeBlock(Flatten(full))|, |EncodeBlock(open)|)]
  {
    hide EncodeBlock, Flatten, LastKey;
    FlattenSnoc(full, open);
    EncodeBlockConcat(Flatten(full), open);
    assert (full + [open])[..|full|] == full;
  }

  lemma LastOfOpen(full: seq<seq<Entry>>, open: seq<Entry>)
    ensures open != [] ==> LastKey(Flatten(full) + open) == LastKey(open)
    ensures Flatten(full + [open]) == Flatten(full) + open
  {
    FlattenSnoc(full, open);
  }

  // ----- reading

  /** The index parse loop of OpenSSTableReader. */
  method ParseIndex(data: Bytes) returns (index: seq<IndexEntry>)
    ensures index == DecodeIndex(data)
  {
    hide FromLe;
    index := [];
    var rdr := data;
    while |rdr| > 0
      invariant DecodeIndex(data) == index + DecodeIndex(rdr)
      decreases |rdr|
    {
      if |rdr| < INDEX_HEADER {
        break;
      }
      var kLen := FromLe(rdr[0..2]);
      if |rdr| - INDEX_HEADER < kLen {
        break;
      }
      var entry := IndexEntry(rdr[INDEX_HEADER..INDEX_HEADER + kLen], FromLe(rdr[2..10]), FromLe(rdr[10..18]));
      index := index + [entry];
      rdr := rdr[INDEX_HEADER + kLen..];
    }
    assert DecodeIndex(rdr) == [];
  }

  /** The metadata that a reader starts with: no least key, and the last key of the index. */
  function OwnMeta(r: Reader): Metadata
  {
    Metadata([], if r.index == [] then [] else r.index[|r.index| - 1].lastKey, 0, |r.file|)
  }

  /** The last key a reader finds in a written file is that of its entries. */
  lemma OwnMaxKey(es: seq<Entry>, f: Bloom.Filter)
    ensures OwnMeta(ReaderOf(es, f)).maxKey == LastKey(es)
  {
    hide Blocks, IndexOf, FileOf, EncodeBlock, LastKey;
    var bs := Blocks(es);
    BlocksTile(es);
    assert LastKey([]) == [] by { NoLastKey(); }
    if bs == [] {
      assert es == [];
    } else {
      IndexAt(bs, |bs| - 1);
      assert bs[|bs| - 1] in bs && bs[..|bs|] == bs;
      LastOfFlatten(bs, |bs|);
    }
  }

  lemma NoLastKey()
    ensures LastKey([]) == []
  {}

  /** OpenSSTableReader. */
  method OpenTable(file: Bytes) returns (r: Option<Reader>, meta: Metadata)
    ensures r == Open(file)
    ensures r.Some? ==> meta == OwnMeta(r.value)
  {
    hide FromLe, ReadAt, Bloom.Decode, DecodeIndex;
    r, meta := None, Metadata([], [], 0, 0);
    if |file| < FOOTER_SIZE {
      return;
    }
    var footerBuf := file[|file| - FOOTER_SIZE..];
    if FromLe(footerBuf[32..40]) != MAGIC {
      return;
    }
    var filterBytes := ReadAt(file, FromLe(footerBuf[0..8]), FromLe(footerBuf[8..16]));
    if filterBytes.None? {
      return;
    }
    var bloom := Bloom.Decode(filterBytes.value);
    if bloom.None? {
      return;
    }
    var indexBytes := ReadAt(file, FromLe(footerBuf[16..24]), FromLe(footerBuf[24..32]));
    if indexBytes.None? {
      return;
    }
    var index := ParseIndex(indexBytes.value);
    var maxKey: Bytes := [];
    if |index| > 0 {
      maxKey := index[|index| - 1].lastKey;
    }
    return Some(Reader(file, bloom.value, index)), Metadata([], maxKey, 0, |file|);
  }

  /** sort.Search's loop. */
  method SearchIndex(index: seq<IndexEntry>, key: Bytes) returns (i: nat)
    ensures i == Search(index, key, 0, |index|) <= |index|
  {
    hide Less;
    i := 0;
    var j := |index|;
    while i < j
      invariant i <= j <= |index|
      invariant Search(index, key, i, j) == Search(index, key, 0, |index|)
    {
      var mid := (i + j) / 2;
      if Less(index[mid].lastKey, key) {
        i := mid + 1;
      } else {
        j := mid;
      }
    }
  }

  /** Get: filter, index search, block read, block scan. */
  method PointGet(h: Bloom.Hashes, r: Reader, key: Bytes) returns (a: Answer)
    ensures a == Get(h, r, key)
  {
    hide Less, DecodeEntry, Search, ReadAt, Bloom.Ask;
    var verdict := Bloom.AskFilter(h, r.bloom, key);
    if verdict.Panic? {
      return Panicked;
    }
    if verdict.No? {
      return Miss;
    }
    var idx := SearchIndex(r.index, key);
    if idx >= |r.index| {
      return Miss;
    }
    var blockBuf := ReadAt(r.file, r.index[idx].offset, r.index[idx].length);
    if blockBuf.None? {
      return Failed;
    }
    var rdr := blockBuf.value;
    while |rdr| > 0
      invariant ScanBlock(blockBuf.value, key) == ScanBlock(rdr, key)
      decreases |rdr|
    {
      var d := DecodeEntry(rdr);
      if d.None? {
        return Miss;
      }
      var (e, n) := d.value;
      if e.key == key {
        return Hit(e);
      }
      if Less(key, e.key) {
        return Miss;
      }
      rdr := rdr[n..];
    }
    NothingDecodes();
    return Miss;
  }

  lemma NothingDecodes()
    ensures DecodeEntry([]) == None
  {}

  /** ScanAll: every block of the index, every record of each block. */
  method ScanTable(r: Reader) returns (result: Option<seq<Entry>>)
    ensures result == ScanAll(r)
  {
    hide DecodeEntry, ReadAt;
    NothingDecodes();
    var entries: seq<Entry> := [];
    for i := 0 to |r.index|
      invariant ScanBlocks(r.file, r.index[..i]) == Some(entries)
    {
      var ie := r.index[i];
      assert r.index[..i + 1][..i] == r.index[..i];
      var blockBuf := ReadAt(r.file, ie.offset, ie.length);
      if blockBuf.None? {
        ScanFails(r.file, r.index, i + 1);
        return None;
      }
      var rdr := blockBuf.value;
      ghost var before := entries;
      while |rdr| > 0
        invariant before + DecodeBlock(blockBuf.value) == entries + DecodeBlock(rdr)
        decreases |rdr|
      {
        var d := DecodeEntry(rdr);
        if d.None? {
          break;
        }
        entries := entries + [d.value.0];
        rdr := rdr[d.value.1..];
      }
      assert DecodeBlock(rdr) == [];
      assert entries == before + DecodeBlock(blockBuf.value);
      assert r.index[..i + 1][i] == ie;
    }
    assert r.index[..|r.index|] == r.index;
    return Some(entries);
  }

  /** Once one block fails to read, the whole scan has failed. */
  lemma {:induction false} ScanFails(file: Bytes, index: seq<IndexEntry>, n: nat)
    requires n <= |index| && ScanBlocks(file, index[..n]).None?
    ensures ScanBlocks(file, index).None?
    decreases |index| - n
  {
    if n == |index| {
      assert index[..n] == index;
    } else {
      assert index[..n + 1][..n] == index[..n];
      ScanFails(file, index, n + 1);
    }
  }
}
