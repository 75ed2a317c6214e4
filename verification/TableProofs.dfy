/** What a reopened SSTable file answers: exactly what the entries written to it say. */
module TableProofs {
  import opened Bytes
  import opened Entries
  import opened TableFormat
  import Bloom

  // ----- ascending lists, split

  lemma AscendingSplit(a: seq<Entry>, b: seq<Entry>)
    requires Ascending(a + b)
    ensures Ascending(a) && Ascending(b)
    ensures forall x, y :: x in a && y in b ==> Less(x.key, y.key)
  {
    hide Less;
    var s := a + b;
    forall i, j | 0 <= i < j < |a| ensures Less(a[i].key, a[j].key) { assert s[i] == a[i] && s[j] == a[j]; }
    forall i, j | 0 <= i < j < |b| ensures Less(b[i].key, b[j].key) {
      assert s[|a| + i] == b[i] && s[|a| + j] == b[j];
    }
    forall x, y | x in a && y in b ensures Less(x.key, y.key) {
      var i, j :| 0 <= i < |a| && a[i] == x && 0 <= j < |b| && b[j] == y;
      assert s[i] == x && s[|a| + j] == y;
    }
  }

  /** A key above the last one is not in the list. */
  lemma NotAbove(es: seq<Entry>, key: Bytes)
    requires Ascending(es) && (es != [] ==> Less(LastKey(es), key))
    ensures Find(es, key) == None
  {
    hide Less;
    LessIsStrictTotalOrder();
    forall e | e in es ensures e.key != key {
      var i :| 0 <= i < |es| && es[i] == e;
      assert i == |es| - 1 || Less(es[i].key, es[|es| - 1].key);
    }
    FindNone(es, key);
  }

  lemma LastOfFlatten(bs: seq<seq<Entry>>, i: nat)
    requires 0 < i <= |bs| && bs[i - 1] != []
    ensures Flatten(bs[..i]) == Flatten(bs[..i - 1]) + bs[i - 1]
    ensures Flatten(bs[..i]) != [] && LastKey(Flatten(bs[..i])) == LastKey(bs[i - 1])
  {
    assert bs[..i] == bs[..i - 1] + [bs[i - 1]];
    FlattenSnoc(bs[..i - 1], bs[i - 1]);
  }

  // ----- the index

  predicate IndexAscending(ix: seq<IndexEntry>)
  {
    forall i, j :: 0 <= i < j < |ix| ==> Less(ix[i].lastKey, ix[j].lastKey)
  }

  /** Bisection finds the first block whose last key is not below the key. */
  lemma {:induction false} SearchFinds(ix: seq<IndexEntry>, key: Bytes, lo: nat, hi: nat)
    requires lo <= hi <= |ix| && IndexAscending(ix)
    requires forall i :: 0 <= i < lo ==> Less(ix[i].lastKey, key)
    requires forall i :: hi <= i < |ix| ==> !Less(ix[i].lastKey, key)
    ensures var r := Search(ix, key, lo, hi);
      && (forall i :: 0 <= i < r ==> Less(ix[i].lastKey, key))
      && (forall i :: r <= i < |ix| ==> !Less(ix[i].lastKey, key))
    decreases hi - lo
  {
    hide Less;
    if lo < hi {
      LessIsStrictTotalOrder();
      var mid := (lo + hi) / 2;
      if Less(ix[mid].lastKey, key) {
        SearchFinds(ix, key, mid + 1, hi);
      } else {
        SearchFinds(ix, key, lo, mid);
      }
    }
  }

  lemma IndexOfAscending(es: seq<Entry>)
    requires Ascending(es)
    ensures IndexAscending(IndexOf(Blocks(es)))
  {
    hide Less, Blocks, IndexOf, EncodeBlock;
    var bs := Blocks(es);
    BlocksTile(es);
    forall i, j | 0 <= i < j < |bs| ensures Less(IndexOf(bs)[i].lastKey, IndexOf(bs)[j].lastKey) {
      IndexAt(bs, i);
      IndexAt(bs, j);
      assert bs[j] in bs && bs[i] in bs;
      LastOfFlatten(bs, i + 1);
      SplitBlocks(bs, j);
      FlattenConcat(bs[..i + 1], bs[i + 1..j]);
      assert bs[..j] == bs[..i + 1] + bs[i + 1..j];
      var head := Flatten(bs[..i + 1]);
      var pre := Flatten(bs[..j]);
      assert es == pre + bs[j] + Flatten(bs[j + 1..]);
      AscendingSplit(pre + bs[j], Flatten(bs[j + 1..]));
      AscendingSplit(pre, bs[j]);
      assert pre == head + Flatten(bs[i + 1..j]);
      assert head[|head| - 1] in pre;
    }
  }

  lemma IndexFits(es: seq<Entry>)
    requires AllStorable(es) && |EncodeBlock(es)| < U64
    ensures forall x :: x in IndexOf(Blocks(es)) ==> Indexable(x)
  {
    hide Blocks, IndexOf, EncodeBlock;
    var bs := Blocks(es);
    BlocksTile(es);
    forall i | 0 <= i < |bs| ensures Indexable(IndexOf(bs)[i]) {
      IndexAt(bs, i);
      BlockBytes(es, [], i);
      SplitBlocks(bs, i);
      assert bs[i] in bs;
      var b := bs[i];
      assert b[|b| - 1] in Flatten(bs);
    }
  }

  // ----- opening

  lemma FooterLayout(a: nat, b: nat, c: nat, d: nat)
    requires a < U64 && b < U64 && c < U64 && d < U64
    ensures var f := Footer(a, b, c, d);
      FromLe(f[0..8]) == a && FromLe(f[8..16]) == b && FromLe(f[16..24]) == c && FromLe(f[24..32]) == d
      && FromLe(f[32..40]) == MAGIC
  {
    hide Le, FromLe;
    var f := Footer(a, b, c, d);
    assert f[0..8] == Le(a, 8) && f[8..16] == Le(b, 8) && f[16..24] == Le(c, 8) && f[24..32] == Le(d, 8);
    assert f[32..40] == Le(MAGIC, 8);
    Le8(a); Le8(b); Le8(c); Le8(d); Le8(MAGIC);
  }

  function ReaderOf(es: seq<Entry>, f: Bloom.Filter): Reader
  {
    Reader(FileOf(es, f), f, IndexOf(Blocks(es)))
  }

  /** Files stay below the range where int64(offset) is negative. */
  predicate Fits(es: seq<Entry>, f: Bloom.Filter)
  {
    AllStorable(es) && f.Valid() && |FileOf(es, f)| < U64 / 2
  }

  /** Opening a written file restores the filter and the index. */
  lemma OpenWritten(es: seq<Entry>, f: Bloom.Filter)
    requires Fits(es, f)
    ensures Open(FileOf(es, f)) == Some(ReaderOf(es, f))
  {
    hide EncodeBlock, Blocks, IndexOf, EncodeIndex, DecodeIndex, Footer, FromLe, Bloom.Encode, Bloom.Decode;
    var data, filter, index := EncodeBlock(es), Bloom.Encode(f), EncodeIndex(IndexOf(Blocks(es)));
    var footer := Footer(|data|, |filter|, |data| + |filter|, |index|);
    var file := FileOf(es, f);
    assert file == data + filter + index + footer;
    FooterLayout(|data|, |filter|, |data| + |filter|, |index|);
    assert file[|file| - FOOTER_SIZE..] == footer;
    assert file[|data|..|data| + |filter|] == filter;
    assert file[|data| + |filter|..|data| + |filter| + |index|] == index;
    assert ReadAt(file, |data|, |filter|) == Some(filter);
    assert ReadAt(file, |data| + |filter|, |index|) == Some(index);
    Bloom.DecodeEncode(f);
    IndexFits(es);
    DecodeEncodeIndex(IndexOf(Blocks(es)));
  }

  lemma ReadBlock(es: seq<Entry>, f: Bloom.Filter, i: nat)
    requires Fits(es, f) && i < |Blocks(es)|
    ensures var x := IndexOf(Blocks(es))[i];
      ReadAt(FileOf(es, f), x.offset, x.length) == Some(EncodeBlock(Blocks(es)[i]))
  {
    hide EncodeBlock, Blocks, IndexOf, EncodeIndex, Footer, Bloom.Encode;
    var data, filter, index := EncodeBlock(es), Bloom.Encode(f), EncodeIndex(IndexOf(Blocks(es)));
    var footer := Footer(|data|, |filter|, |data| + |filter|, |index|);
    assert FileOf(es, f) == data + (filter + index + footer);
    BlockBytes(es, filter + index + footer, i);
  }

  lemma {:induction false} ScanPrefix(es: seq<Entry>, f: Bloom.Filter, n: nat)
    requires Fits(es, f) && n <= |Blocks(es)|
    ensures ScanBlocks(FileOf(es, f), IndexOf(Blocks(es))[..n]) == Some(AllStored(Flatten(Blocks(es)[..n])))
    decreases n
  {
    hide EncodeBlock, Blocks, IndexOf, FileOf, DecodeBlock, ReadAt, Fits;
    var bs, ix := Blocks(es), IndexOf(Blocks(es));
    if n == 0 {
      assert ix[..0] == [] && bs[..0] == [] && AllStored([]) == [];
    } else {
      ScanPrefix(es, f, n - 1);
      ReadBlock(es, f, n - 1);
      BlocksTile(es);
      assert bs[n - 1] in bs;
      LastOfFlatten(bs, n);
      assert ix[..n][..n - 1] == ix[..n - 1];
      StorableBlock(es, f, n - 1);
      DecodeEncodeBlock(bs[n - 1]);
      AllStoredConcat(Flatten(bs[..n - 1]), bs[n - 1]);
    }
  }

  lemma StorableBlock(es: seq<Entry>, f: Bloom.Filter, i: nat)
    requires Fits(es, f) && i < |Blocks(es)|
    ensures AllStorable(Blocks(es)[i])
  {
    hide Blocks, Storable, EncodeBlock;
    BlocksTile(es);
    SplitBlocks(Blocks(es), i);
  }

  lemma AllStoredConcat(a: seq<Entry>, b: seq<Entry>)
    ensures AllStored(a + b) == AllStored(a) + AllStored(b)
  {}

  /** Reading the whole file back returns every entry, in order; tombstones carry no value. */
  lemma ScanWritten(es: seq<Entry>, f: Bloom.Filter)
    requires Fits(es, f)
    ensures ScanAll(ReaderOf(es, f)) == Some(AllStored(es))
  {
    hide Blocks, IndexOf, FileOf, Fits, AllStored, ScanBlocks;
    ScanPrefix(es, f, |Blocks(es)|);
    BlocksTile(es);
    assert Blocks(es)[..|Blocks(es)|] == Blocks(es);
    assert IndexOf(Blocks(es))[..|Blocks(es)|] == IndexOf(Blocks(es));
  }

  // ----- point lookup

  /** The filter denies none of the entries' keys. */
  predicate ClaimsAll(h: Bloom.Hashes, f: Bloom.Filter, es: seq<Entry>)
    requires f.Valid()
  {
    forall e :: e in es ==> Bloom.Claims(h, f, e.key)
  }

  /** If the key is in the table at all, it is in the block that the index search picks. */
  lemma FindInBlock(es: seq<Entry>, key: Bytes)
    requires Ascending(es)
    ensures var ix := IndexOf(Blocks(es)); var r := Search(ix, key, 0, |ix|);
      Find(es, key) == if r < |ix| then Find(Blocks(es)[r], key) else None
    ensures forall i :: 0 <= i < |Blocks(es)| ==> Ascending(Blocks(es)[i])
  {
    hide Less, Blocks, IndexOf, EncodeBlock, Search, Find, Ascending, LastKey;
    var bs, ix := Blocks(es), IndexOf(Blocks(es));
    BlocksTile(es);
    IndexOfAscending(es);
    SearchFinds(ix, key, 0, |ix|);
    var r := Search(ix, key, 0, |ix|);
    if r > 0 {
      IndexAt(bs, r - 1);
      assert bs[r - 1] in bs;
      LastOfFlatten(bs, r);
    } else {
      assert bs[..0] == [];
    }
    if r == |ix| {
      assert bs[..r] == bs;
      NotAbove(es, key);
    } else {
      var pre, b, post := Flatten(bs[..r]), bs[r], Flatten(bs[r + 1..]);
      SplitBlocks(bs, r);
      assert es == pre + b + post;
      IndexAt(bs, r);
      assert b in bs;
      AscendingSplit(pre + b, post);
      AscendingSplit(pre, b);
      NotAbove(pre, key);
      FindConcat(pre + b, post, key);
      FindConcat(pre, b, key);
      NotBelow(b, post, key);
    }
    forall i | 0 <= i < |bs| ensures Ascending(bs[i]) {
      SplitBlocks(bs, i);
      AscendingSplit(Flatten(bs[..i]) + bs[i], Flatten(bs[i + 1..]));
      AscendingSplit(Flatten(bs[..i]), bs[i]);
    }
  }

  /** A key not above b's last one is in nothing that follows b. */
  lemma NotBelow(b: seq<Entry>, post: seq<Entry>, key: Bytes)
    requires b != [] && !Less(LastKey(b), key)
    requires forall x, y :: x in b && y in post ==> Less(x.key, y.key)
    ensures Find(post, key) == None
  {
    hide Less;
    LessIsStrictTotalOrder();
    assert b[|b| - 1] in b;
    FindNone(post, key);
  }

  /** Point lookup through filter, index, bisection and early-exit scan equals linear search over
      the entries, for every key. */
  lemma GetWritten(h: Bloom.Hashes, es: seq<Entry>, f: Bloom.Filter, key: Bytes)
    requires Fits(es, f) && Ascending(es) && ClaimsAll(h, f, es)
    ensures Get(h, ReaderOf(es, f), key) == AnswerOf(Find(AllStored(es), key))
  {
    hide Less, Blocks, IndexOf, EncodeBlock, Search, FileOf, Fits;
    hide Bloom.Claims, Bloom.Ask, ScanBlock, ReadAt, Ascending, Find;
    assert f.Valid() && f.numBits <= 8 * |f.bits| by { FitsValid(es, f); }
    Bloom.AskSound(h, f, key);
    FindStored(es, key);
    if !Bloom.Claims(h, f, key) {
      FindNone(es, key);
    } else {
      var bs, ix := Blocks(es), IndexOf(Blocks(es));
      FindInBlock(es, key);
      var r := Search(ix, key, 0, |ix|);
      if r < |ix| {
        ReadBlock(es, f, r);
        StorableBlock(es, f, r);
        ScanEncodedBlock(bs[r], key);
        FindStored(bs[r], key);
      }
    }
  }

  lemma FitsValid(es: seq<Entry>, f: Bloom.Filter)
    requires Fits(es, f)
    ensures f.Valid() && f.numBits <= 8 * |f.bits|
  {
    hide FileOf, IndexOf, Blocks;
  }

  // ----- exactly when a record survives its encoding

  /** A record is read back as stored exactly when its key is shorter than 2^16 bytes and its value
      shorter than 2^32: the length fields hold no more. */
  lemma EntrySurvivesExactly(e: Entry)
    requires IsInt64(e.ts)
    ensures (exists n :: DecodeEntry(EncodeEntry(e)) == Some((Stored(e), n))) <==> Storable(e)
  {
    hide IsInt64;
    if Storable(e) {
      DecodeEncodeEntry(e, []);
      assert EncodeEntry(e) + [] == EncodeEntry(e);
    } else {
      var d := EncodeEntry(e);
      Pow256Values();
      FromLeBound(d[0..2]);
      if |d| >= ENTRY_HEADER {
        FromLeBound(d[2..6]);
      }
    }
  }
}
