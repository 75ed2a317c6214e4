/** The byte layout of an SSTable file (go/pkg/lsm/sstable.go): data blocks, filter block, index
    block, footer; how a file is written, and how any file is read. */
module TableFormat {
  import opened Bytes
  import opened Entries
  import Bloom

  const BLOCK_SIZE: nat := 4096
  const FOOTER_SIZE: nat := 40
  const MAGIC: nat := 0x494E_464F_4352_4154
  const ENTRY_HEADER: nat := 15
  const INDEX_HEADER: nat := 18

  datatype IndexEntry = IndexEntry(lastKey: Bytes, offset: nat, length: nat)

  // ----- writing

  /** [KeyLen 2][ValLen 4][Flags 1][Timestamp 8] */
  function EntryHeader(e: Entry): (r: Bytes)
    ensures |r| == ENTRY_HEADER
  {
    Le(|e.key|, 2) + Le(|StoredValue(e)|, 4) + [if e.tombstone then 1 else 0] + Le(ToU64(e.ts), 8)
  }

  function EncodeEntry(e: Entry): Bytes { EntryHeader(e) + (e.key + StoredValue(e)) }

  function EncodeBlock(es: seq<Entry>): Bytes
  {
    if es == [] then [] else EncodeBlock(es[..|es| - 1]) + EncodeEntry(es[|es| - 1])
  }

  /** How a sequence of Add calls splits the entries: flushed blocks, and the one still open. */
  datatype Chunks = Chunks(full: seq<seq<Entry>>, open: seq<Entry>)

  function Chunked(es: seq<Entry>): Chunks
  {
    if es == [] then Chunks([], [])
    else
      var c := Chunked(es[..|es| - 1]);
      var open := c.open + [es[|es| - 1]];
      if |EncodeBlock(open)| >= BLOCK_SIZE then Chunks(c.full + [open], []) else Chunks(c.full, open)
  }

  /** The blocks of the finished file. */
  function Blocks(es: seq<Entry>): seq<seq<Entry>>
  {
    var c := Chunked(es);
    if c.open == [] then c.full else c.full + [c.open]
  }

  function LastKey(es: seq<Entry>): Bytes { if es == [] then [] else es[|es| - 1].key }

  function IndexOf(blocks: seq<seq<Entry>>): (r: seq<IndexEntry>)
    ensures |r| == |blocks|
  {
    if blocks == [] then []
    else
      var front, last := blocks[..|blocks| - 1], blocks[|blocks| - 1];
      IndexOf(front) + [IndexEntry(LastKey(last), |EncodeBlock(Flatten(front))|, |EncodeBlock(last)|)]
  }

  function EncodeIndexEntry(x: IndexEntry): Bytes
  {
    Le(|x.lastKey|, 2) + Le(x.offset, 8) + Le(x.length, 8) + x.lastKey
  }

  function EncodeIndex(ix: seq<IndexEntry>): Bytes
  {
    if ix == [] then [] else EncodeIndex(ix[..|ix| - 1]) + EncodeIndexEntry(ix[|ix| - 1])
  }

  function Footer(filterOffset: nat, filterLength: nat, indexOffset: nat, indexLength: nat): (r: Bytes)
    ensures |r| == FOOTER_SIZE
  {
    Le(filterOffset, 8) + Le(filterLength, 8) + Le(indexOffset, 8) + Le(indexLength, 8) + Le(MAGIC, 8)
  }

  /** The whole file. */
  function FileOf(es: seq<Entry>, f: Bloom.Filter): Bytes
  {
    var data, filter, index := EncodeBlock(es), Bloom.Encode(f), EncodeIndex(IndexOf(Blocks(es)));
    data + filter + index + Footer(|data|, |filter|, |data| + |filter|, |index|)
  }

  // ----- reading

  datatype Reader = Reader(file: Bytes, bloom: Bloom.Filter, index: seq<IndexEntry>)

  /** os.File.ReadAt of exactly n bytes: the offset is cast to int64 first. */
  function ReadAt(file: Bytes, offset: nat, n: nat): (r: Option<Bytes>)
    ensures r.Some? ==> |r.value| == n
  {
    if offset >= U64 / 2 then None
    else if n == 0 then Some([])
    else if offset + n <= |file| then Some(file[offset..offset + n])
    else None
  }

  function DecodeIndex(data: Bytes): seq<IndexEntry>
    decreases |data|
  {
    if |data| < INDEX_HEADER then []
    else
      var n := FromLe(data[0..2]);
      if |data| - INDEX_HEADER < n then []
      else [IndexEntry(data[INDEX_HEADER..INDEX_HEADER + n], FromLe(data[2..10]), FromLe(data[10..18]))]
           + DecodeIndex(data[INDEX_HEADER + n..])
  }

  /** OpenSSTableReader; None stands for each of its errors. */
  function Open(file: Bytes): Option<Reader>
  {
    if |file| < FOOTER_SIZE then None
    else
      var footer := file[|file| - FOOTER_SIZE..];
      if FromLe(footer[32..40]) != MAGIC then None
      else
        var filter := ReadAt(file, FromLe(footer[0..8]), FromLe(footer[8..16]));
        if filter.None? || Bloom.Decode(filter.value).None? then None
        else
          var index := ReadAt(file, FromLe(footer[16..24]), FromLe(footer[24..32]));
          if index.None? then None
          else Some(Reader(file, Bloom.Decode(filter.value).value, DecodeIndex(index.value)))
  }

  /** One record at the front of a block: the record and its length, or None at a short read. */
  function DecodeEntry(data: Bytes): (r: Option<(Entry, nat)>)
    ensures r.Some? ==> 0 < r.value.1 <= |data|
  {
    if |data| < ENTRY_HEADER then None
    else
      var k, v := FromLe(data[0..2]), FromLe(data[2..6]);
      if |data| - ENTRY_HEADER < k + v then None
      else
        var tombstone := data[6] == 1;
        var value := if !tombstone && v > 0 then data[ENTRY_HEADER + k..ENTRY_HEADER + k + v] else [];
        Some((Entry(data[ENTRY_HEADER..ENTRY_HEADER + k], value, tombstone, ToI64(FromLe(data[7..15]))),
              ENTRY_HEADER + k + v))
  }

  function DecodeBlock(data: Bytes): seq<Entry>
    decreases |data|
  {
    var d := DecodeEntry(data);
    if d.None? then [] else [d.value.0] + DecodeBlock(data[d.value.1..])
  }

  /** The block scan of Get, which stops at the key or at the first greater key. */
  function ScanBlock(data: Bytes, key: Bytes): Option<Entry>
    decreases |data|
  {
    var d := DecodeEntry(data);
    if d.None? then None
    else
      var (e, n) := d.value;
      if e.key == key then Some(e)
      else if Less(key, e.key) then None
      else ScanBlock(data[n..], key)
  }

  /** sort.Search over the index: bisect for the first block whose last key is not below the key. */
  function Search(index: seq<IndexEntry>, key: Bytes, lo: nat, hi: nat): (r: nat)
    requires lo <= hi <= |index|
    ensures lo <= r <= hi
    decreases hi - lo
  {
    if lo == hi then lo
    else
      var mid := (lo + hi) / 2;
      if Less(index[mid].lastKey, key) then Search(index, key, mid + 1, hi) else Search(index, key, lo, mid)
  }

  /** What a table answers: a record (perhaps a tombstone), nothing, or a read error. */
  datatype Answer = Hit(entry: Entry) | Miss | Failed | Panicked

  function AnswerOf(r: Option<Entry>): Answer { if r.Some? then Hit(r.value) else Miss }

  function Get(h: Bloom.Hashes, r: Reader, key: Bytes): Answer
  {
    match Bloom.Ask(h, r.bloom, key)
    case Panic => Panicked
    case No => Miss
    case Yes =>
      var i := Search(r.index, key, 0, |r.index|);
      if i == |r.index| then Miss
      else
        var block := ReadAt(r.file, r.index[i].offset, r.index[i].length);
        if block.None? then Failed else AnswerOf(ScanBlock(block.value, key))
  }

  function ScanBlocks(file: Bytes, index: seq<IndexEntry>): Option<seq<Entry>>
  {
    if index == [] then Some([])
    else
      var front := ScanBlocks(file, index[..|index| - 1]);
      var x := index[|index| - 1];
      var block := ReadAt(file, x.offset, x.length);
      if front.None? || block.None? then None else Some(front.value + DecodeBlock(block.value))
  }

  function ScanAll(r: Reader): Option<seq<Entry>> { ScanBlocks(r.file, r.index) }

  // ----- one record

  /** The limits under which a record's length fields mean what they say. */
  predicate Storable(e: Entry)
  {
    |e.key| < U16 && |StoredValue(e)| < U32 && IsInt64(e.ts)
  }

  predicate AllStorable(es: seq<Entry>) { forall e :: e in es ==> Storable(e) }

  function Stored(e: Entry): Entry { Entry(e.key, StoredValue(e), e.tombstone, e.ts) }

  function AllStored(es: seq<Entry>): (r: seq<Entry>)
    ensures |r| == |es| && forall i :: 0 <= i < |es| ==> r[i] == Stored(es[i])
  {
    seq(|es|, i requires 0 <= i < |es| => Stored(es[i]))
  }

  lemma EntryLayout(e: Entry, rest: Bytes)
    requires Storable(e)
    ensures var d := EncodeEntry(e) + rest; var n := |EncodeEntry(e)|;
      && n == ENTRY_HEADER + |e.key| + |StoredValue(e)|
      && FromLe(d[0..2]) == |e.key| && FromLe(d[2..6]) == |StoredValue(e)|
      && (d[6] == 1 <==> e.tombstone) && d[7..15] == Le(ToU64(e.ts), 8)
      && d[ENTRY_HEADER..ENTRY_HEADER + |e.key|] == e.key && d[ENTRY_HEADER + |e.key|..n] == StoredValue(e)
      && d[n..] == rest
  {
    hide Le, FromLe;
    var d := EncodeEntry(e) + rest;
    var k, v, ts := Le(|e.key|, 2), Le(|StoredValue(e)|, 4), Le(ToU64(e.ts), 8);
    var flag: Bytes := [if e.tombstone then 1 else 0];
    assert d == k + v + flag + ts + e.key + StoredValue(e) + rest;
    assert d[0..2] == k && d[2..6] == v && d[6] == flag[0] && d[7..15] == ts;
    Le2(|e.key|);
    Le4(|StoredValue(e)|);
  }

  lemma DecodeEncodeEntry(e: Entry, rest: Bytes)
    requires Storable(e)
    ensures DecodeEntry(EncodeEntry(e) + rest) == Some((Stored(e), |EncodeEntry(e)|))
    ensures (EncodeEntry(e) + rest)[|EncodeEntry(e)|..] == rest
  {
    hide Le, FromLe, EncodeEntry, ToU64, ToI64, IsInt64;
    EntryLayout(e, rest);
    TimestampRoundTrip(e.ts);
  }

  lemma {:induction false} EncodeBlockConcat(a: seq<Entry>, b: seq<Entry>)
    ensures EncodeBlock(a + b) == EncodeBlock(a) + EncodeBlock(b)
    decreases |b|
  {
    hide EncodeEntry;
    if b == [] {
      assert a + b == a;
    } else {
      var front, last := b[..|b| - 1], b[|b| - 1];
      EncodeBlockConcat(a, front);
      JoinFront(a, b);
      assert EncodeBlock(a + b) == EncodeBlock(a + front) + EncodeEntry(last);
      PlusAssociates(EncodeBlock(a), EncodeBlock(front), EncodeEntry(last));
    }
  }

  lemma JoinFront<T>(a: seq<T>, b: seq<T>)
    requires b != []
    ensures (a + b)[..|a + b| - 1] == a + b[..|b| - 1] && (a + b)[|a + b| - 1] == b[|b| - 1]
  {}

  lemma EncodeBlockOne(e: Entry)
    ensures EncodeBlock([e]) == EncodeEntry(e)
  {
    hide EncodeEntry;
    assert [e][..0] == [];
  }

  lemma EncodeBlockFirst(es: seq<Entry>)
    requires es != []
    ensures EncodeBlock(es) == EncodeEntry(es[0]) + EncodeBlock(es[1..])
  {
    hide EncodeEntry, EncodeBlock;
    assert es == [es[0]] + es[1..];
    EncodeBlockConcat([es[0]], es[1..]);
    EncodeBlockOne(es[0]);
  }

  lemma EncodeBlockSome(es: seq<Entry>)
    ensures |EncodeBlock(es)| >= ENTRY_HEADER * (if es == [] then 0 else 1)
  {
    hide EncodeBlock;
    if es != [] {
      EncodeBlockFirst(es);
    }
  }

  /** A block decodes to the entries written to it. */
  lemma {:induction false} DecodeEncodeBlock(es: seq<Entry>)
    requires AllStorable(es)
    ensures DecodeBlock(EncodeBlock(es)) == AllStored(es)
    decreases |es|
  {
    hide EncodeEntry, EncodeBlock, Stored, Storable, DecodeEntry;
    if es == [] {
      DecodeNothing();
    } else {
      EncodeBlockFirst(es);
      DecodeEncodeEntry(es[0], EncodeBlock(es[1..]));
      DecodeEncodeBlock(es[1..]);
      assert AllStored(es) == [Stored(es[0])] + AllStored(es[1..]);
    }
  }

  lemma DecodeNothing()
    ensures DecodeEntry([]) == None && EncodeBlock([]) == []
  {}

  /** The early exit loses nothing in an ascending block. */
  lemma {:induction false} ScanEncodedBlock(es: seq<Entry>, key: Bytes)
    requires AllStorable(es) && Ascending(es)
    ensures ScanBlock(EncodeBlock(es), key) == Find(AllStored(es), key)
    decreases |es|
  {
    hide EncodeEntry, EncodeBlock, Storable, DecodeEntry, Less;
    if es == [] {
      DecodeNothing();
      assert AllStored(es) == [];
    } else {
      EncodeBlockFirst(es);
      DecodeEncodeEntry(es[0], EncodeBlock(es[1..]));
      ScanEncodedBlock(es[1..], key);
      assert AllStored(es) == [Stored(es[0])] + AllStored(es[1..]);
      if es[0].key != key && Less(key, es[0].key) {
        LessIsStrictTotalOrder();
        FindNone(AllStored(es), key);
      }
    }
  }

  lemma {:induction false} FindStored(es: seq<Entry>, key: Bytes)
    ensures Find(AllStored(es), key) == if Find(es, key).Some? then Some(Stored(Find(es, key).value)) else None
    decreases |es|
  {
    if es == [] {
      assert AllStored(es) == [];
    } else {
      FindStored(es[1..], key);
      assert AllStored(es)[1..] == AllStored(es[1..]);
    }
  }

  // ----- blocks tile the data region

  lemma ChunkStep(es: seq<Entry>)
    requires es != []
    ensures var c := Chunked(es[..|es| - 1]); var open := c.open + [es[|es| - 1]];
      Chunked(es) == if |EncodeBlock(open)| >= BLOCK_SIZE then Chunks(c.full + [open], []) else Chunks(c.full, open)
  {
    hide EncodeBlock;
  }

  lemma {:induction false} ChunksFlatten(es: seq<Entry>)
    ensures Flatten(Chunked(es).full) + Chunked(es).open == es
    decreases |es|
  {
    hide Flatten, EncodeBlock;
    if es == [] {
      NoChunks();
    } else {
      var front, last := es[..|es| - 1], es[|es| - 1];
      ChunksFlatten(front);
      ChunkStep(es);
      hide Chunked;
      JoinChunks(Chunked(front), front, last);
      assert front + [last] == es;
    }
  }

  lemma NoChunks()
    ensures Flatten(Chunked([]).full) + Chunked([]).open == []
  {}

  /** One more entry, whether or not it closes the block. */
  lemma JoinChunks(c: Chunks, front: seq<Entry>, last: Entry)
    requires Flatten(c.full) + c.open == front
    ensures Flatten(c.full + [c.open + [last]]) + [] == front + [last]
    ensures Flatten(c.full) + (c.open + [last]) == front + [last]
  {
    hide Flatten;
    FlattenSnoc(c.full, c.open + [last]);
  }

  lemma {:induction false} ChunksSizes(es: seq<Entry>)
    ensures |EncodeBlock(Chunked(es).open)| < 4096
    ensures forall b :: b in Chunked(es).full ==> b != [] && |EncodeBlock(b)| >= 4096
    decreases |es|
  {
    hide EncodeBlock;
    DecodeNothing();
    if es != [] {
      ChunksSizes(es[..|es| - 1]);
      ChunkStep(es);
      hide Chunked;
    }
  }

  /** The blocks are non-empty, hold the entries in order, and all but the last reach 4096 bytes. */
  lemma BlocksTile(es: seq<Entry>)
    ensures Flatten(Blocks(es)) == es
    ensures forall b :: b in Blocks(es) ==> b != []
    ensures forall i :: 0 <= i < |Blocks(es)| - 1 ==> |EncodeBlock(Blocks(es)[i])| >= 4096
  {
    hide EncodeBlock;
    ChunksFlatten(es);
    ChunksSizes(es);
    var c := Chunked(es);
    if c.open != [] {
      FlattenSnoc(c.full, c.open);
    }
  }

  /** Without its last record no block reaches 4096 bytes. */
  predicate ClosedInTime(b: seq<Entry>) { b != [] ==> |EncodeBlock(b[..|b| - 1])| < 4096 }

  lemma {:induction false} ChunksClose(es: seq<Entry>)
    ensures ClosedInTime(Chunked(es).open) && forall b :: b in Chunked(es).full ==> ClosedInTime(b)
    decreases |es|
  {
    hide EncodeBlock, ClosedInTime;
    if es == [] {
      assert ClosedInTime([]) by { NothingToClose(); }
    } else {
      var front, last := es[..|es| - 1], es[|es| - 1];
      ChunksClose(front);
      ChunksSizes(front);
      ChunkStep(es);
      hide Chunked;
      OneMore(Chunked(front).open, last);
    }
  }

  lemma NothingToClose()
    ensures ClosedInTime([])
  {}

  lemma OneMore(open: seq<Entry>, e: Entry)
    requires |EncodeBlock(open)| < 4096
    ensures ClosedInTime(open + [e]) && ClosedInTime([])
  {
    hide EncodeBlock;
    assert (open + [e])[..|open|] == open;
  }

  /** A block is closed with the first record that takes it to 4096 bytes. */
  lemma BlocksCloseInTime(es: seq<Entry>)
    ensures forall b :: b in Blocks(es) ==> ClosedInTime(b)
  {
    ChunksClose(es);
    hide Chunked, ClosedInTime;
  }

  lemma {:induction false} IndexAt(blocks: seq<seq<Entry>>, i: nat)
    requires i < |blocks|
    ensures IndexOf(blocks)[i] ==
            IndexEntry(LastKey(blocks[i]), |EncodeBlock(Flatten(blocks[..i]))|, |EncodeBlock(blocks[i])|)
  {
    hide EncodeBlock, LastKey;
    var front := blocks[..|blocks| - 1];
    if i < |blocks| - 1 {
      IndexAt(front, i);
      assert front[..i] == blocks[..i];
    }
  }

  lemma SplitBlocks(blocks: seq<seq<Entry>>, i: nat)
    requires i < |blocks|
    ensures Flatten(blocks) == Flatten(blocks[..i]) + blocks[i] + Flatten(blocks[i + 1..])
  {
    hide Flatten;
    SplitAt(blocks, i);
    FlattenConcat(blocks[..i], blocks[i..]);
    FlattenFirst(blocks[i..]);
  }

  /** Each index entry names exactly its block's bytes. */
  lemma BlockBytes(es: seq<Entry>, tail: Bytes, i: nat)
    requires i < |Blocks(es)|
    ensures var x := IndexOf(Blocks(es))[i]; var file := EncodeBlock(es) + tail;
      && 0 < x.length && x.offset + x.length <= |EncodeBlock(es)|
      && file[x.offset..x.offset + x.length] == EncodeBlock(Blocks(es)[i])
  {
    hide EncodeBlock, Blocks, IndexOf, Flatten;
    var bs := Blocks(es);
    var pre, b, post := Flatten(bs[..i]), bs[i], Flatten(bs[i + 1..]);
    BlocksTile(es);
    assert b in bs;
    IndexAt(bs, i);
    SplitBlocks(bs, i);
    EncodeBlockConcat(pre + b, post);
    EncodeBlockConcat(pre, b);
    EncodeBlockSome(b);
    assert EncodeBlock(es) + tail == EncodeBlock(pre) + EncodeBlock(b) + (EncodeBlock(post) + tail);
  }

  /** The blocks tile the data region: each starts where the previous one ended, the first at zero,
      and the last ends with the data. */
  lemma BlocksAreContiguous(es: seq<Entry>, i: nat)
    requires i <= |Blocks(es)|
    ensures var ix := IndexOf(Blocks(es));
      (if i < |ix| then ix[i].offset else |EncodeBlock(es)|) ==
      (if i == 0 then 0 else ix[i - 1].offset + ix[i - 1].length)
  {
    hide EncodeBlock, Blocks, IndexOf;
    var bs := Blocks(es);
    DecodeNothing();
    BlocksTile(es);
    assert bs[..|bs|] == bs;
    if i < |bs| {
      IndexAt(bs, i);
    }
    if i > 0 {
      IndexAt(bs, i - 1);
      assert bs[..i] == bs[..i - 1] + [bs[i - 1]];
      FlattenSnoc(bs[..i - 1], bs[i - 1]);
      EncodeBlockConcat(Flatten(bs[..i - 1]), bs[i - 1]);
    }
  }

  // ----- the index block

  predicate Indexable(x: IndexEntry) { |x.lastKey| < U16 && x.offset < U64 && x.length < U64 }

  lemma {:induction false} EncodeIndexConcat(a: seq<IndexEntry>, b: seq<IndexEntry>)
    ensures EncodeIndex(a + b) == EncodeIndex(a) + EncodeIndex(b)
    decreases |b|
  {
    if b == [] {
      assert a + b == a;
    } else {
      var front := b[..|b| - 1];
      EncodeIndexConcat(a, front);
      IndexSnoc(b);
      JoinFront(a, b);
      IndexSnoc(a + b);
      hide EncodeIndexEntry, EncodeIndex;
      PlusAssociates(EncodeIndex(a), EncodeIndex(front), EncodeIndexEntry(b[|b| - 1]));
    }
  }

  lemma IndexSnoc(ix: seq<IndexEntry>)
    requires ix != []
    ensures EncodeIndex(ix) == EncodeIndex(ix[..|ix| - 1]) + EncodeIndexEntry(ix[|ix| - 1])
  {}

  lemma IndexEntryLayout(x: IndexEntry, rest: Bytes)
    requires Indexable(x)
    ensures var d := EncodeIndexEntry(x) + rest; var n := |EncodeIndexEntry(x)|;
      && n == INDEX_HEADER + |x.lastKey|
      && FromLe(d[0..2]) == |x.lastKey| && FromLe(d[2..10]) == x.offset && FromLe(d[10..18]) == x.length
      && d[INDEX_HEADER..n] == x.lastKey && d[n..] == rest
  {
    hide Le, FromLe;
    var d := EncodeIndexEntry(x) + rest;
    var k, o, l := Le(|x.lastKey|, 2), Le(x.offset, 8), Le(x.length, 8);
    assert d == k + o + l + x.lastKey + rest;
    assert d[0..2] == k && d[2..10] == o && d[10..18] == l;
    Le2(|x.lastKey|);
    Le8(x.offset);
    Le8(x.length);
  }

  lemma {:induction false} DecodeEncodeIndex(ix: seq<IndexEntry>)
    requires forall x :: x in ix ==> Indexable(x)
    ensures DecodeIndex(EncodeIndex(ix)) == ix
    decreases |ix|
  {
    hide EncodeIndexEntry, FromLe;
    if ix == [] {
    } else {
      var x, rest := ix[0], EncodeIndex(ix[1..]);
      assert ix == [x] + ix[1..];
      EncodeIndexConcat([x], ix[1..]);
      assert [x][..0] == [];
      assert EncodeIndex([x]) == EncodeIndexEntry(x);
      IndexEntryLayout(x, rest);
      DecodeEncodeIndex(ix[1..]);
    }
  }
}
