/** The bytes of a table file (go/pkg/lsm/sstable.go, go/pkg/lsm/bloom.go), position by position and without
    the names of the fields: what another program needs to read one. */
module FileLayout {
  import opened Bytes
  import opened Entries
  import opened TableFormat
  import opened TableProofs
  import Bloom

  // ----- the filter

  /** The i-th value of the double hash, by steps: the first hash, then the second added each time, in 64 bits. */
  function Stepped(h: Bloom.Hashes, key: Bytes, i: nat): nat
  {
    if i == 0 then h.h1(key) % 0x1_0000_0000_0000_0000
    else (Stepped(h, key, i - 1) + h.h2(key)) % 0x1_0000_0000_0000_0000
  }

  lemma {:induction false} SteppedIs(h: Bloom.Hashes, key: Bytes, i: nat)
    ensures Stepped(h, key, i) == (h.h1(key) + i * h.h2(key)) % 0x1_0000_0000_0000_0000
  {
    if i > 0 {
      SteppedIs(h, key, i - 1);
      var before := h.h1(key) + (i - 1) * h.h2(key);
      AddInside(before, h.h2(key), 0x1_0000_0000_0000_0000);
      assert before + h.h2(key) == h.h1(key) + i * h.h2(key);
    }
  }

  lemma AddInside(a: nat, b: nat, n: nat)
    requires n > 0
    ensures (a % n + b) % n == (a + b) % n
  {
    var q, r := a / n, a % n;
    assert a + b == q * n + (r + b);
    ModPlus(r + b, q, n);
  }

  lemma ModPlus(a: nat, q: nat, n: nat)
    requires n > 0
    ensures (q * n + a) % n == a % n
  {
    var u, v := a / n, a % n;
    assert q * n + a == (q + u) * n + v;
    QuotientIs(q * n + a, n, q + u, v);
  }

  /** The bit of a key is its hash value modulo the number of bits; bits lie in the bytes lowest first. */
  lemma BitPlace(h: Bloom.Hashes, key: Bytes, i: nat, numBits: nat, bits: seq<bv8>)
    requires 0 < numBits <= 8 * |bits|
    ensures var b := Stepped(h, key, i) % numBits;
      Bloom.BitIndex(h, key, i, numBits) == b
      && (Bloom.IsSet(bits, b) <==> (bits[b / 8] >> (b % 8)) & 1 == 1)
  {
    SteppedIs(h, key, i);
    var b := Stepped(h, key, i) % numBits;
    LowestFirst(bits[b / 8], b % 8);
  }

  lemma LowestFirst(x: bv8, offset: nat)
    requires offset < 8
    ensures Bloom.TestBit(x, offset) <==> (x >> offset) & 1 == 1
  {
    assert offset == 0 || offset == 1 || offset == 2 || offset == 3 || offset == 4 || offset == 5 || offset == 6 ||
           offset == 7;
  }

  /** The filter block: three 32-bit counts, then the bytes of the bits. Fewer than twelve bytes are no filter. */
  lemma FilterBytes(f: Bloom.Filter, data: Bytes)
    requires f.Valid()
    ensures var d := Bloom.Encode(f);
      && |d| == 12 + |f.bits|
      && FromLe(d[0..4]) == f.numBits && FromLe(d[4..8]) == f.numHash && FromLe(d[8..12]) == f.keyCount
      && forall i :: 0 <= i < |f.bits| ==> d[12 + i] == f.bits[i] as byte
    ensures Bloom.Decode(data).None? <==> |data| < 12
  {
    hide Le, FromLe;
    Le4(f.numBits);
    Le4(f.numHash);
    Le4(f.keyCount);
    var d := Bloom.Encode(f);
    assert d[0..4] == Le(f.numBits, 4) && d[4..8] == Le(f.numHash, 4) && d[8..12] == Le(f.keyCount, 4);
    assert d[12..] == Bloom.Bits(f.bits);
  }

  /** The j-th bit of the key lies behind the bytes, or is clear. */
  predicate Beyond(h: Bloom.Hashes, f: Bloom.Filter, key: Bytes, j: nat)
    requires f.numBits > 0
  {
    Stepped(h, key, j) % f.numBits / 8 >= |f.bits|
  }

  predicate Clear(h: Bloom.Hashes, f: Bloom.Filter, key: Bytes, j: nat)
    requires f.numBits > 0
  {
    var b := Stepped(h, key, j) % f.numBits;
    b / 8 < |f.bits| && (f.bits[b / 8] >> (b % 8)) & 1 == 0
  }

  predicate Passes(h: Bloom.Hashes, f: Bloom.Filter, key: Bytes, j: nat)
    requires f.numBits > 0
  {
    !Beyond(h, f, key, j) && !Clear(h, f, key, j)
  }

  /** Whatever a decoded filter holds, the first of the key's bits that is clear or lies behind the bytes
      decides: no, or a panic. With none of them the answer is yes, and so it is without any bits at all. */
  lemma AskExact(h: Bloom.Hashes, f: Bloom.Filter, key: Bytes) returns (stop: nat)
    ensures f.numBits == 0 || f.bits == [] ==> Bloom.Ask(h, f, key).Yes?
    ensures f.numBits > 0 && f.bits != [] ==>
              && stop <= f.numHash && (forall j: nat :: j < stop ==> Passes(h, f, key, j))
              && (stop < f.numHash ==> !Passes(h, f, key, stop))
              && Bloom.Ask(h, f, key) ==
                 if stop == f.numHash then Bloom.Yes else if Beyond(h, f, key, stop) then Bloom.Panic else Bloom.No
  {
    hide Passes, Beyond;
    stop := 0;
    if f.numBits > 0 && f.bits != [] {
      stop := ProbeStops(h, f, key, 0);
    }
  }

  lemma {:induction false} ProbeStops(h: Bloom.Hashes, f: Bloom.Filter, key: Bytes, n: nat) returns (stop: nat)
    requires f.numBits > 0 && n <= f.numHash
    ensures n <= stop <= f.numHash && (forall j: nat :: n <= j < stop ==> Passes(h, f, key, j))
    ensures stop < f.numHash ==> !Passes(h, f, key, stop)
    ensures Bloom.Probe(h, f, key, n) ==
            if stop == f.numHash then Bloom.Yes else if Beyond(h, f, key, stop) then Bloom.Panic else Bloom.No
    decreases f.numHash - n
  {
    ProbeOne(h, f, key, n);
    hide Beyond, Passes, Bloom.Probe;
    stop := n;
    if n < f.numHash && Passes(h, f, key, n) {
      stop := ProbeStops(h, f, key, n + 1);
    }
  }

  lemma ProbeOne(h: Bloom.Hashes, f: Bloom.Filter, key: Bytes, n: nat)
    requires f.numBits > 0
    ensures Bloom.Probe(h, f, key, n) ==
            if n >= f.numHash then Bloom.Yes
            else if Passes(h, f, key, n) then Bloom.Probe(h, f, key, n + 1)
            else if Beyond(h, f, key, n) then Bloom.Panic else Bloom.No
  {
    var b := Bloom.BitIndex(h, key, n, f.numBits);
    assert b == Stepped(h, key, n) % f.numBits by { SteppedIs(h, key, n); }
    hide Stepped, Bloom.BitIndex;
    if b / 8 < |f.bits| {
      var x := f.bits[b / 8];
      LowestFirst(x, b % 8);
      OneBit(x >> (b % 8));
      assert Bloom.IsSet(f.bits, b) <==> !Clear(h, f, key, n);
      hide Bloom.IsSet, Bloom.TestBit;
    }
  }

  lemma OneBit(x: bv8)
    ensures x & 1 == 0 || x & 1 == 1
  {}

  // ----- one record

  /** A record byte by byte; lengths beyond their fields are written modulo 2^16 and 2^32. */
  lemma EntryBytes(e: Entry)
    requires IsInt64(e.ts)
    ensures var d, v := EncodeEntry(e), if e.tombstone then [] else e.value;
      && |d| == 15 + |e.key| + |v|
      && FromLe(d[0..2]) == |e.key| % 0x1_0000 && FromLe(d[2..6]) == |v| % 0x1_0000_0000
      && d[6] == (if e.tombstone then 1 else 0)
      && FromLe(d[7..15]) == (if e.ts >= 0 then e.ts else 0x1_0000_0000_0000_0000 + e.ts)
      && d[15..15 + |e.key|] == e.key && d[15 + |e.key|..] == v
  {
    EntryParts(e, StoredValue(e));
    TimestampBytes(e.ts);
    FlagByte(e);
    hide Le, FromLe, EncodeEntry, ToU64;
  }

  lemma EntryParts(e: Entry, v: Bytes)
    requires v == StoredValue(e)
    ensures var d := EncodeEntry(e);
      && |d| == 15 + |e.key| + |v|
      && FromLe(d[0..2]) == |e.key| % 0x1_0000 && FromLe(d[2..6]) == |v| % 0x1_0000_0000
      && d[7..15] == Le(ToU64(e.ts), 8) && d[15..15 + |e.key|] == e.key && d[15 + |e.key|..] == v
  {
    hide Le, FromLe, ToU64;
    Pow256Values();
    LeTruncates(|e.key|, 2);
    LeTruncates(|v|, 4);
    hide Pow256;
    Parts(Le(|e.key|, 2), Le(|v|, 4), [if e.tombstone then 1 else 0], Le(ToU64(e.ts), 8), e.key, v);
  }

  lemma Parts(k: Bytes, v: Bytes, flag: Bytes, stamp: Bytes, key: Bytes, value: Bytes)
    requires |k| == 2 && |v| == 4 && |flag| == 1 && |stamp| == 8
    ensures var d := k + v + flag + stamp + (key + value);
      && |d| == 15 + |key| + |value| && d[0..2] == k && d[2..6] == v && d[7..15] == stamp
      && d[15..15 + |key|] == key && d[15 + |key|..] == value
  {}

  /** One record read from any bytes: fifteen of them are needed for the header, then what its lengths say. A
      flag of one is a deletion, any other flag is not; a deletion's value is passed over. */
  lemma RecordRead(d: Bytes)
    ensures |d| < 15 ==> DecodeEntry(d) == None
    ensures |d| >= 15 ==>
              var k, v, stamp := FromLe(d[0..2]), FromLe(d[2..6]), FromLe(d[7..15]);
              DecodeEntry(d) ==
              if |d| < 15 + k + v then None
              else Some((Entry(d[15..15 + k], if d[6] == 1 then [] else d[15 + k..15 + k + v], d[6] == 1,
                               if stamp < 0x8000_0000_0000_0000 then stamp else stamp - 0x1_0000_0000_0000_0000),
                         15 + k + v))
  {
    hide FromLe;
    if |d| >= 15 {
      var k := FromLe(d[0..2]);
      assert |d| >= 15 + k ==> d[15 + k..15 + k] == [];
    }
  }

  lemma FlagByte(e: Entry)
    ensures |EncodeEntry(e)| >= 15 && EncodeEntry(e)[6] == if e.tombstone then 1 else 0
  {
    hide Le;
  }

  /** Point lookup invents nothing, whatever the file: a record it finds carries the key, and a scan of the
      file finds it too. */
  lemma HitIsScanned(h: Bloom.Hashes, r: Reader, key: Bytes)
    requires Get(h, r, key).Hit?
    ensures var e := Get(h, r, key).entry;
      e.key == key && (ScanAll(r).Some? ==> e in ScanAll(r).value)
  {
    hide Search, ScanBlock, DecodeBlock, ReadAt, Bloom.Ask, ScanBlocks;
    var i := Search(r.index, key, 0, |r.index|);
    var block := ReadAt(r.file, r.index[i].offset, r.index[i].length);
    var at := ScanStops(block.value, key);
    if ScanBlocks(r.file, r.index).Some? {
      BlockInScan(r.file, r.index, i);
    }
  }

  /** A lookup panics only over a filter that has too few bytes, and fails only for a block that does not lie
      in the file. */
  lemma LookupFails(h: Bloom.Hashes, r: Reader, key: Bytes)
    ensures Get(h, r, key).Panicked? ==> r.bloom.numBits > 8 * |r.bloom.bits|
    ensures Get(h, r, key).Failed? ==> exists x :: x in r.index && !Inside(r.file, x.offset, x.length)
  {
    hide Search, ScanBlock, Bloom.Ask, Bloom.Claims;
    if r.bloom.numBits <= 8 * |r.bloom.bits| {
      Bloom.AskSound(h, r.bloom, key);
    }
    var i := Search(r.index, key, 0, |r.index|);
    if i < |r.index| && Get(h, r, key).Failed? {
      assert r.index[i] in r.index && !Inside(r.file, r.index[i].offset, r.index[i].length);
    }
  }

  /** The scan of any block stops at the first of its records whose key is not below the one looked for, and
      answers with that record if it has the key. */
  lemma {:induction false} ScanStops(data: Bytes, key: Bytes) returns (i: nat)
    ensures var es := DecodeBlock(data);
      && i <= |es| && (forall j :: 0 <= j < i ==> Less(es[j].key, key))
      && (i < |es| ==> !Less(es[i].key, key))
      && ScanBlock(data, key) == if i < |es| && es[i].key == key then Some(es[i]) else None
    decreases |data|
  {
    hide DecodeEntry, Less;
    LessIsStrictTotalOrder();
    var d := DecodeEntry(data);
    i := 0;
    if d.Some? && d.value.0.key != key && !Less(key, d.value.0.key) {
      i := ScanStops(data[d.value.1..], key);
      i := i + 1;
    }
  }

  /** Bisection of any index, sorted or not, ends between a last key below the one looked for and one that is
      not below it. */
  lemma {:induction false} SearchEnds(index: seq<IndexEntry>, key: Bytes, lo: nat, hi: nat)
    requires lo <= hi <= |index|
    requires lo > 0 ==> Less(index[lo - 1].lastKey, key)
    requires hi < |index| ==> !Less(index[hi].lastKey, key)
    ensures var r := Search(index, key, lo, hi);
      && (r > 0 ==> Less(index[r - 1].lastKey, key))
      && (r < |index| ==> !Less(index[r].lastKey, key))
    decreases hi - lo
  {
    hide Less, Search;
    var mid := SearchTurn(index, key, lo, hi);
    if lo < hi {
      if Less(index[mid].lastKey, key) {
        SearchEnds(index, key, mid + 1, hi);
      } else {
        SearchEnds(index, key, lo, mid);
      }
    }
  }

  lemma SearchTurn(index: seq<IndexEntry>, key: Bytes, lo: nat, hi: nat) returns (mid: nat)
    requires lo <= hi <= |index|
    ensures lo == hi ==> Search(index, key, lo, hi) == lo
    ensures lo < hi ==>
              && lo <= mid < hi
              && Search(index, key, lo, hi) ==
                 if Less(index[mid].lastKey, key) then Search(index, key, mid + 1, hi) else Search(index, key, lo, mid)
  {
    hide Less;
    mid := (lo + hi) / 2;
  }

  lemma {:induction false} BlockInScan(file: Bytes, index: seq<IndexEntry>, i: nat)
    requires i < |index| && ScanBlocks(file, index).Some?
    ensures var block := ReadAt(file, index[i].offset, index[i].length);
      block.Some? && forall e :: e in DecodeBlock(block.value) ==> e in ScanBlocks(file, index).value
    decreases |index|
  {
    hide DecodeBlock, ReadAt;
    if i < |index| - 1 {
      BlockInScan(file, index[..|index| - 1], i);
    }
  }

  // ----- the index and the footer

  lemma IndexEntryBytes(x: IndexEntry)
    requires |x.lastKey| < 0x1_0000 && x.offset < 0x1_0000_0000_0000_0000 && x.length < 0x1_0000_0000_0000_0000
    ensures var d := EncodeIndexEntry(x);
      && |d| == 18 + |x.lastKey|
      && FromLe(d[0..2]) == |x.lastKey| && FromLe(d[2..10]) == x.offset && FromLe(d[10..18]) == x.length
      && d[18..] == x.lastKey
  {
    hide Le, FromLe;
    IndexEntryLayout(x, []);
    assert EncodeIndexEntry(x) + [] == EncodeIndexEntry(x);
  }

  /** Too few bytes for an index entry with its key. */
  predicate NoEntry(data: Bytes) { |data| < 18 || |data| < 18 + FromLe(data[0..2]) }

  /** Whatever bytes stand for an index, its entries are the whole ones at the front: written again they are
      those bytes, and what is left is too short for another. */
  lemma {:induction false} IndexParse(data: Bytes) returns (n: nat)
    ensures n <= |data| && data[..n] == EncodeIndex(DecodeIndex(data)) && NoEntry(data[n..])
    decreases |data|
  {
    hide EncodeIndex, DecodeIndex, FromLe;
    n := 0;
    if NoEntry(data) {
      NothingParsed(data);
    } else {
      var first := 18 + FromLe(data[0..2]);
      FirstParsed(data, first - 18);
      hide NoEntry;
      var m := IndexParse(data[first..]);
      ParsedOn(data, first, m);
      return first + m;
    }
  }

  lemma NothingParsed(data: Bytes)
    requires NoEntry(data)
    ensures EncodeIndex(DecodeIndex(data)) == [] == data[..0] && data[0..] == data
  {
    hide FromLe;
  }

  lemma ParsedOn(data: Bytes, first: nat, m: nat)
    requires first <= |data| && m <= |data[first..]|
    requires EncodeIndex(DecodeIndex(data)) == data[..first] + EncodeIndex(DecodeIndex(data[first..]))
    requires data[first..][..m] == EncodeIndex(DecodeIndex(data[first..])) && NoEntry(data[first..][m..])
    ensures data[..first + m] == EncodeIndex(DecodeIndex(data)) && NoEntry(data[first + m..])
  {
    hide EncodeIndex, DecodeIndex, NoEntry;
    FrontSlices(data, first, m);
  }

  lemma FrontSlices(data: Bytes, k: nat, m: nat)
    requires k + m <= |data|
    ensures data[..k + m] == data[..k] + data[k..][..m] && data[k + m..] == data[k..][m..]
  {}

  lemma FirstParsed(data: Bytes, k: nat)
    requires |data| >= 18 && k == FromLe(data[0..2]) && |data| >= 18 + k
    ensures EncodeIndex(DecodeIndex(data)) == data[..18 + k] + EncodeIndex(DecodeIndex(data[18 + k..]))
  {
    var x := IndexEntry(data[18..18 + k], FromLe(data[2..10]), FromLe(data[10..18]));
    OneIndexEntry(data, k, x);
    FrontEntry(x, DecodeIndex(data[18 + k..]));
    hide EncodeIndexEntry, EncodeIndex, FromLe;
  }

  lemma OneIndexEntry(data: Bytes, k: nat, x: IndexEntry)
    requires |data| >= 18 && k == FromLe(data[0..2]) && |data| >= 18 + k
    requires x == IndexEntry(data[18..18 + k], FromLe(data[2..10]), FromLe(data[10..18]))
    ensures EncodeIndexEntry(x) == data[..18 + k]
  {
    hide Le, FromLe;
    LeOfBytes(data[0..2]);
    LeOfBytes(data[2..10]);
    LeOfBytes(data[10..18]);
    assert data[..18 + k] == data[0..2] + data[2..10] + data[10..18] + data[18..18 + k];
  }

  lemma {:induction false} LeOfBytes(b: Bytes)
    ensures Le(FromLe(b), |b|) == b
  {
    if b != [] {
      LeOfBytes(b[1..]);
      LowByte(b[0] as nat, FromLe(b[1..]));
      hide FromLe;
      assert b == [b[0]] + b[1..];
    }
  }

  lemma LowByte(low: nat, high: nat)
    requires low < 256
    ensures (low + 256 * high) % 256 == low && (low + 256 * high) / 256 == high
  {}

  lemma FrontEntry(x: IndexEntry, rest: seq<IndexEntry>)
    ensures EncodeIndex([x] + rest) == EncodeIndexEntry(x) + EncodeIndex(rest)
  {
    hide EncodeIndexEntry;
    EncodeIndexConcat([x], rest);
    assert [x][..0] == [];
    assert EncodeIndex([x]) == EncodeIndexEntry(x);
  }

  /** The whole file: the records, the filter, the index, and forty bytes that say where the last two lie and
      end with the characters "INFOCRAT" as a number. */
  lemma FileBytes(es: seq<Entry>, f: Bloom.Filter)
    requires |FileOf(es, f)| < 0x8000_0000_0000_0000
    ensures var file, data, filter := FileOf(es, f), EncodeBlock(es), Bloom.Encode(f);
      var index, end := EncodeIndex(IndexOf(Blocks(es))), |file| - 40;
      && end == |data| + |filter| + |index|
      && FromLe(file[end..end + 8]) == |data| && FromLe(file[end + 8..end + 16]) == |filter|
      && FromLe(file[end + 16..end + 24]) == |data| + |filter| && FromLe(file[end + 24..end + 32]) == |index|
      && FromLe(file[end + 32..]) == 0x49_4E_46_4F_43_52_41_54
      && file[..|data|] == data && file[|data|..|data| + |filter|] == filter
      && file[|data| + |filter|..end] == index
  {
    hide EncodeBlock, Blocks, IndexOf, EncodeIndex, Footer, FromLe, Bloom.Encode;
    var data, filter, index := EncodeBlock(es), Bloom.Encode(f), EncodeIndex(IndexOf(Blocks(es)));
    var footer := Footer(|data|, |filter|, |data| + |filter|, |index|);
    FooterLayout(|data|, |filter|, |data| + |filter|, |index|);
    Concatenated(data, filter, index, footer);
    FooterOf(FileOf(es, f), footer);
  }

  lemma Concatenated(a: Bytes, b: Bytes, c: Bytes, d: Bytes)
    ensures var s := a + b + c + d;
      s[..|a|] == a && s[|a|..|a| + |b|] == b && s[|a| + |b|..|s| - |d|] == c && s[|s| - |d|..] == d
  {}

  lemma FooterOf(file: Bytes, footer: Bytes)
    requires |footer| == 40 <= |file| && file[|file| - 40..] == footer
    ensures var end := |file| - 40;
      && file[end..end + 8] == footer[0..8] && file[end + 8..end + 16] == footer[8..16]
      && file[end + 16..end + 24] == footer[16..24] && file[end + 24..end + 32] == footer[24..32]
      && file[end + 32..] == footer[32..40]
  {}

  /** ReadAt answers where the bytes lie in the file; nothing is read at an offset that int64 makes negative. */
  predicate Inside(file: Bytes, at: nat, length: nat)
  {
    at < 0x8000_0000_0000_0000 && (length == 0 || at + length <= |file|)
  }

  /** Which files open at all. */
  lemma OpenExact(file: Bytes)
    ensures Open(file).Some? <==>
            && |file| >= 40
            && var end := |file| - 40;
               && FromLe(file[end + 32..]) == 0x49_4E_46_4F_43_52_41_54
               && Inside(file, FromLe(file[end..end + 8]), FromLe(file[end + 8..end + 16]))
               && FromLe(file[end + 8..end + 16]) >= 12
               && Inside(file, FromLe(file[end + 16..end + 24]), FromLe(file[end + 24..end + 32]))
  {
    hide FromLe, DecodeIndex;
    if |file| >= 40 {
      FooterOf(file, file[|file| - 40..]);
    }
  }
}
