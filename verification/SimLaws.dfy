/** What an operation of src/engine/storageEngine.ts does to the levels, without the names of the steps it is
    made of: eight keys in memory make a table, and three tables in level 0 make one in level 1. */
module SimLaws {
  import opened Bytes
  import opened Entries
  import opened SimStore
  import Compaction
  import SimEngine
  import Wal
  import Crc32

  /** An ascending table of exactly the records found in a memtable. */
  ghost predicate IsTableOf(t: seq<Entry>, mem: seq<Entry>)
  {
    Ascending(t) && forall k :: Find(t, k) == Find(mem, k)
  }

  /** An ascending table of exactly the newest record of each key, but no deletion. */
  ghost predicate IsMergeOf(t: seq<Entry>, l0: seq<seq<Entry>>)
  {
    Ascending(t) && forall k :: Find(t, k) == Live(Compaction.Newest(Flatten(l0), k))
  }

  /** The memtable after a write: the write's key answers with it, the others as before. */
  ghost predicate Written(before: seq<Entry>, e: Entry, after: seq<Entry>)
  {
    DistinctKeys(after) && forall k :: Find(after, k) == if k == e.key then Some(e) else Find(before, k)
  }

  /** Level 0 goes down to level 1 as one table, or as none when only deletions are left. */
  ghost predicate Compacted(l0: seq<seq<Entry>>, s: Store, t: Store)
  {
    t.mem == s.mem && t.l0 == [] &&
    if t.l1 == s.l1 then IsMergeOf([], l0)
    else |t.l1| == |s.l1| + 1 && s.l1 <= t.l1 && t.l1[|s.l1|] != [] && IsMergeOf(t.l1[|s.l1|], l0)
  }

  /** The memtable becomes the newest table of level 0, and the third table there starts a compaction. */
  ghost predicate FlushedTo(mem: seq<Entry>, s: Store, t: Store)
  {
    exists table ::
      && IsTableOf(table, mem) && t.mem == []
      && if |s.l0| < 2 then t.l0 == [table] + s.l0 && t.l1 == s.l1
         else Compacted([table] + s.l0, s.(mem := []), t)
  }

  lemma CompactEffect(s: Store)
    ensures if |s.l0| < 2 then Compact(s) == s else Compacted(s.l0, s, Compact(s))
    ensures Compact(s).mem == s.mem
  {
    hide Merged, Ascending, Find, Compaction.Newest;
    if |s.l0| >= 2 {
      var m := Merged(s.l0);
      forall k ensures Find(m, k) == Live(Compaction.Newest(Flatten(s.l0), k)) {
        MergedExact(s.l0, k);
      }
      MergedExact(s.l0, []);
      OneMore(s.l1, m);
    }
  }

  lemma OneMore(l1: seq<seq<Entry>>, m: seq<Entry>)
    ensures l1 + [m] != l1 && l1 <= l1 + [m] && (l1 + [m])[|l1|] == m
  {
    assert |l1 + [m]| == |l1| + 1;
  }

  lemma FlushEffect(s: Store)
    requires DistinctKeys(s.mem)
    ensures if s.mem == [] then Flush(s) == s else FlushedTo(s.mem, s, Flush(s))
  {
    hide Compaction.StableSort, Find, DistinctKeys, Compacted, Compact, Ascending;
    if s.mem != [] {
      SortedDistinct(s.mem);
      var table := Compaction.StableSort(s.mem);
      var t := Store([], [table] + s.l0, s.l1);
      assert IsTableOf(table, s.mem);
      CompactEffect(t);
      SameLevel1(table, s);
      hide IsTableOf;
      if |s.l0| >= 2 {
        assert Flush(s) == Compact(t);
      }
    }
  }

  /** A compaction reads level 1 only to add to it. */
  lemma SameLevel1(table: seq<Entry>, s: Store)
    ensures var t, u := Store([], [table] + s.l0, s.l1), s.(mem := []);
      Compacted(t.l0, t, Compact(t)) ==> Compacted(t.l0, u, Compact(t))
  {
    hide IsMergeOf, Compact;
  }

  /** A put or delete: with at most seven keys in memory it stays there; the eighth key starts a flush. */
  lemma WriteEffect(s: Store, e: Entry)
    requires DistinctKeys(s.mem)
    ensures var keys := Keys(s.mem) + {e.key};
      if |keys| < 8 then
        var mem := Write(s, e).mem;
        Written(s.mem, e, mem) && |mem| == |keys| && Write(s, e).l0 == s.l0 && Write(s, e).l1 == s.l1
      else exists mem :: Written(s.mem, e, mem) && FlushedTo(mem, s, Write(s, e))
  {
    hide DistinctKeys, Find, SetKey, Flush, FlushedTo;
    var mem := SetKey(s.mem, e);
    forall k ensures Find(mem, k) == if k == e.key then Some(e) else Find(s.mem, k) {
      SetKeyParts(s.mem, e, k);
    }
    SetKeyDistinct(s.mem, e);
    KeysAfterSet(s.mem, e);
    assert Written(s.mem, e, mem);
    FlushEffect(s.(mem := mem));
    SameLevels(mem, s, Write(s, e));
  }

  lemma SameLevels(mem: seq<Entry>, s: Store, t: Store)
    ensures FlushedTo(mem, s.(mem := mem), t) ==> FlushedTo(mem, s, t)
  {
    hide IsTableOf, Compacted;
    if FlushedTo(mem, s.(mem := mem), t) {
      var u := s.(mem := mem);
      var table :| IsTableOf(table, mem) && t.mem == [] &&
                   if |u.l0| < 2 then t.l0 == [table] + u.l0 && t.l1 == u.l1
                   else Compacted([table] + u.l0, u.(mem := []), t);
      assert u.(mem := []) == s.(mem := []);
    }
  }

  /** A key that is written again keeps its place, and a new one comes last. */
  lemma {:induction false} SetKeyPlace(mem: seq<Entry>, e: Entry)
    requires DistinctKeys(mem)
    ensures Find(mem, e.key).None? ==> SetKey(mem, e) == mem + [e]
    ensures forall i :: 0 <= i < |mem| && mem[i].key == e.key ==> SetKey(mem, e) == mem[i := e]
  {
    if mem != [] {
      SetKeyPlace(mem[1..], e);
      hide DistinctKeys;
      forall i | 0 < i < |mem| && mem[0].key != e.key && mem[i].key == e.key
        ensures SetKey(mem, e) == mem[i := e]
      {
        assert mem[1..][i - 1] == mem[i];
        assert mem[i := e] == [mem[0]] + mem[1..][i - 1 := e];
      }
      assert mem[0 := e] == [e] + mem[1..];
      assert mem + [e] == [mem[0]] + (mem[1..] + [e]);
      assert SecondsDiffer(mem) by { SecondsAreOthers(mem); }
    }
  }

  predicate SecondsDiffer(mem: seq<Entry>) { forall i :: 0 < i < |mem| ==> mem[i].key != mem[0].key }

  lemma SecondsAreOthers(mem: seq<Entry>)
    requires DistinctKeys(mem)
    ensures SecondsDiffer(mem)
  {}

  lemma KeysAfterSet(mem: seq<Entry>, e: Entry)
    requires DistinctKeys(mem)
    ensures |SetKey(mem, e)| == |Keys(mem) + {e.key}|
  {
    SetKeyDistinct(mem, e);
    SetKeyParts(mem, e, e.key);
    CountKeys(SetKey(mem, e));
    hide DistinctKeys, SetKey;
    forall k ensures k in Keys(SetKey(mem, e)) <==> k in Keys(mem) + {e.key} {
      SetKeyParts(mem, e, k);
      FindNone(SetKey(mem, e), k);
      FindNone(mem, k);
    }
    assert Keys(SetKey(mem, e)) == Keys(mem) + {e.key};
  }

  lemma {:induction false} CountKeys(es: seq<Entry>)
    requires DistinctKeys(es)
    ensures |Keys(es)| == |es|
  {
    if es != [] {
      var front, last := es[..|es| - 1], es[|es| - 1];
      CountKeys(front);
      assert es == front + [last];
      assert Keys(es) == Keys(front) + {last.key};
      assert last.key !in Keys(front);
    }
  }

  // ----- tables as they are shown

  /** Key, value and fifteen bytes for each record. */
  function Weight(es: seq<Entry>): nat
  {
    if es == [] then 0 else |es[0].key| + |es[0].value| + 15 + Weight(es[1..])
  }

  lemma {:induction false} WeightSnoc(es: seq<Entry>, e: Entry)
    ensures Weight(es + [e]) == Weight(es) + |e.key| + |e.value| + 15
  {
    if es != [] {
      WeightSnoc(es[1..], e);
      assert (es + [e])[1..] == es[1..] + [e];
    }
  }

  lemma {:induction false} WeightConcat(a: seq<Entry>, b: seq<Entry>)
    ensures Weight(a + b) == Weight(a) + Weight(b)
    decreases |b|
  {
    if b == [] {
      assert a + b == a;
    } else {
      var front, last := b[..|b| - 1], b[|b| - 1];
      WeightConcat(a, front);
      WeightSnoc(front, last);
      WeightSnoc(a + front, last);
      hide Weight;
      assert b == front + [last] && a + b == a + front + [last];
    }
  }

  lemma {:induction false} BlockLengthIs(es: seq<Entry>)
    ensures SimEngine.BlockLength(es) == Weight(es)
    decreases |es|
  {
    if es != [] {
      var front, last := es[..|es| - 1], es[|es| - 1];
      BlockLengthIs(front);
      WeightSnoc(front, last);
      assert es == front + [last];
    }
  }

  lemma {:induction false} BlocksWeigh(blocks: seq<SimEngine.Block>)
    requires SimEngine.BlocksTile(blocks)
    ensures SimEngine.DataEnd(blocks) == Weight(Flatten(SimEngine.BlockLists(blocks)))
    decreases |blocks|
  {
    if blocks == [] {
      NoBlocksWeigh();
    } else {
      var front, last := blocks[..|blocks| - 1], blocks[|blocks| - 1];
      FrontTiles(blocks);
      BlocksWeigh(front);
      assert blocks == front + [last];
      SimEngine.BlockAppend(front, last);
      WeightConcat(Flatten(SimEngine.BlockLists(front)), last.entries);
      BlockLengthIs(last.entries);
      hide Weight, SimEngine.BlockLength, Flatten, SimEngine.BlockLists;
    }
  }

  lemma NoBlocksWeigh()
    ensures SimEngine.DataEnd([]) == Weight(Flatten(SimEngine.BlockLists([])))
  {}

  lemma FrontTiles(blocks: seq<SimEngine.Block>)
    requires SimEngine.BlocksTile(blocks) && blocks != []
    ensures SimEngine.BlocksTile(blocks[..|blocks| - 1])
  {
    hide SimEngine.BlockLength;
    var front := blocks[..|blocks| - 1];
    assert forall i :: 0 <= i < |front| ==> front[i] == blocks[i];
  }

  /** Bit b belongs to one of the key's four hash values modulo 64. */
  ghost predicate BitOfKey(h: SimEngine.Hashes, key: Bytes, b: nat)
  {
    exists i: nat :: i < 4 && b == Hashed(h, key, i)
  }

  function Hashed(h: SimEngine.Hashes, key: Bytes, i: nat): nat
  {
    (h.fnv(key) % 64 + i * (h.murmur(key) % 64)) % 64
  }

  lemma {:induction false} KeyBitsAre(h: SimEngine.Hashes, key: Bytes, n: nat, b: nat)
    ensures b in SimEngine.KeyBits(h, key, n) <==> exists i: nat :: i < n && b == Hashed(h, key, i)
  {
    if n > 0 {
      KeyBitsAre(h, key, n - 1, b);
      SameHash(h, key, n - 1);
      hide SimEngine.BitOf, Hashed;
      if b in SimEngine.KeyBits(h, key, n) && b !in SimEngine.KeyBits(h, key, n - 1) {
        assert b == Hashed(h, key, n - 1);
      }
    }
  }

  lemma SameHash(h: SimEngine.Hashes, key: Bytes, i: nat)
    ensures SimEngine.BitOf(h, key, i) == Hashed(h, key, i)
  {}

  lemma {:induction false} AllBitsAre(h: SimEngine.Hashes, es: seq<Entry>, b: nat)
    ensures b in SimEngine.AllBits(h, es) <==> exists e :: e in es && BitOfKey(h, e.key, b)
    decreases |es|
  {
    if es != [] {
      var front, last := es[..|es| - 1], es[|es| - 1];
      AllBitsAre(h, front, b);
      KeyBitsAre(h, last.key, 4, b);
      hide SimEngine.KeyBits, Hashed;
      assert es == front + [last];
      if BitOfKey(h, last.key, b) {
        assert last in es;
      }
    }
  }

  /** A table of the simulated engine by its numbers: bit b of 64 is set exactly if one of four hash values of
      some key is b; blocks of three; the size of its records with 15 bytes for each, and 104 more. */
  lemma TableNumbers(h: SimEngine.Hashes, v: SimEngine.TableView)
    requires SimEngine.GoodView(h, v)
    ensures var es := SimEngine.EntriesOf(v);
      && |v.bits| == 64 && (forall b: nat :: b < 64 ==> (v.bits[b] <==> exists e :: e in es && BitOfKey(h, e.key, b)))
      && v.fileBytes == Weight(es) + 104
      && v.entryCount == |es| > 0 && v.minKey == es[0].key && v.maxKey == es[|es| - 1].key
      && forall i :: 0 <= i < |v.blocks| ==>
           0 < |v.blocks[i].entries| <= 3 && (i < |v.blocks| - 1 ==> |v.blocks[i].entries| == 3)
    ensures forall i :: 0 <= i < |v.blocks| ==>
              var b := v.blocks[i];
              && b.blockIndex == i && b.entries != [] && b.lastKey == b.entries[|b.entries| - 1].key
              && b.length == Weight(b.entries)
              && b.offset == if i == 0 then 0 else v.blocks[i - 1].offset + v.blocks[i - 1].length
  {
    var es := SimEngine.EntriesOf(v);
    BlocksWeigh(v.blocks);
    forall i | 0 <= i < |v.blocks| ensures v.blocks[i].length == Weight(v.blocks[i].entries) {
      BlockLengthIs(v.blocks[i].entries);
    }
    hide SimEngine.AllBits, Weight, BitOfKey, Ascending, SimEngine.Covers, SimEngine.DataEnd, SimEngine.BlockLength;
    forall b: nat | b < 64 ensures v.bits[b] <==> exists e :: e in es && BitOfKey(h, e.key, b) {
      AllBitsAre(h, es, b);
    }
  }

  /** A frame is shown with the checksum that stands at the front of its bytes in the log. */
  lemma FrameShown(offset: nat, e: Entry)
    ensures var f := SimEngine.FrameAt(offset, e);
      f.offset == offset && f.record == e && |Wal.Frame(e)| >= 4 && f.crc32 == Crc32.Checksum(Wal.Frame(e)[4..])
  {
    hide Crc32.Checksum, Crc32.Value, Le, Wal.Payload;
    var sum := Le(Wal.Sum(Wal.Payload(e)), 4);
    assert Wal.Frame(e)[4..] == Wal.Payload(e);
  }

  /** The log shows at most fifty frames, the newest first: a new one comes to the front, and only the
      fifty-first falls off. */
  lemma FramesShown(frames: seq<SimEngine.Frame>, f: SimEngine.Frame)
    ensures |frames| < 50 ==> SimEngine.Pushed(frames, f) == [f] + frames
    ensures |frames| >= 50 ==> SimEngine.Pushed(frames, f) == [f] + frames[..|frames| - 1]
  {}
}
