/** Key-value records, and what it means to look a key up in a list or a stack of lists of them. */
module Entries {
  import opened Bytes

  /** skiplist.go's Entry. A nil value is the empty byte string. */
  datatype Entry = Entry(key: Bytes, value: Bytes, tombstone: bool, ts: int)

  /** The first record with the key. */
  function Find(es: seq<Entry>, k: Bytes): (r: Option<Entry>)
    ensures r.Some? ==> r.value in es && r.value.key == k
  {
    if es == [] then None
    else if es[0].key == k then Some(es[0])
    else Find(es[1..], k)
  }

  /** The last record written for the key, in a history listed oldest first. */
  function Latest(ws: seq<Entry>, k: Bytes): Option<Entry>
  {
    if ws == [] then None
    else if ws[|ws| - 1].key == k then Some(ws[|ws| - 1])
    else Latest(ws[..|ws| - 1], k)
  }

  /** Newest layer first: the first layer that has the key answers. */
  function FindInLayers(layers: seq<seq<Entry>>, k: Bytes): (r: Option<Entry>)
    ensures r.Some? ==> r.value.key == k
  {
    if layers == [] then None
    else var r := Find(layers[0], k); if r.Some? then r else FindInLayers(layers[1..], k)
  }

  /** What a reader sees: a tombstone reads as absence. */
  function Live(r: Option<Entry>): Option<Entry>
  {
    if r.Some? && !r.value.tombstone then r else None
  }

  /** The value bytes that are written for a record. */
  function StoredValue(e: Entry): Bytes { if e.tombstone then [] else e.value }

  /** Deletions carry no value. */
  predicate Clean(es: seq<Entry>) { forall e :: e in es && e.tombstone ==> e.value == [] }

  predicate Ascending(es: seq<Entry>)
  {
    forall i, j :: 0 <= i < j < |es| ==> Less(es[i].key, es[j].key)
  }

  function Keys(es: seq<Entry>): set<Bytes> { set e | e in es :: e.key }

  lemma {:induction false} FindNone(es: seq<Entry>, k: Bytes)
    ensures Find(es, k).None? <==> forall e :: e in es ==> e.key != k
    ensures Find(es, k).None? <==> k !in Keys(es)
  {
    if es != [] {
      FindNone(es[1..], k);
      assert es == [es[0]] + es[1..];
    }
  }

  lemma {:induction false} FindConcat(a: seq<Entry>, b: seq<Entry>, k: Bytes)
    ensures Find(a + b, k) == if Find(a, k).Some? then Find(a, k) else Find(b, k)
  {
    if a == [] {
      assert a + b == b;
    } else {
      FindConcat(a[1..], b, k);
      assert (a + b)[1..] == a[1..] + b;
    }
  }

  lemma {:induction false} FindAt(es: seq<Entry>, i: nat)
    requires i < |es|
    requires forall j :: 0 <= j < i ==> es[j].key != es[i].key
    ensures Find(es, es[i].key) == Some(es[i])
  {
    if i > 0 {
      FindAt(es[1..], i - 1);
    }
  }

  /** In an ascending list any position of the key is the first. */
  lemma FindAscending(es: seq<Entry>, i: nat)
    requires Ascending(es) && i < |es|
    ensures Find(es, es[i].key) == Some(es[i])
  {
    LessIsStrictTotalOrder();
    hide Less;
    FindAt(es, i);
  }

  lemma {:induction false} LayersConcat(a: seq<seq<Entry>>, b: seq<seq<Entry>>, k: Bytes)
    ensures FindInLayers(a + b, k) ==
            if FindInLayers(a, k).Some? then FindInLayers(a, k) else FindInLayers(b, k)
  {
    if a == [] {
      assert a + b == b;
    } else {
      LayersConcat(a[1..], b, k);
      assert (a + b)[1..] == a[1..] + b;
    }
  }

  /** A stack of layers answers as their concatenation does. */
  lemma {:induction false} LayersFlatten(layers: seq<seq<Entry>>, k: Bytes)
    ensures FindInLayers(layers, k) == Find(Flatten(layers), k)
  {
    if layers != [] {
      LayersFlatten(layers[1..], k);
      FindConcat(layers[0], Flatten(layers[1..]), k);
    }
  }

  function Flatten<T>(layers: seq<seq<T>>): seq<T>
  {
    if layers == [] then [] else layers[0] + Flatten(layers[1..])
  }

  lemma SplitAt<T>(s: seq<T>, i: nat)
    requires i < |s|
    ensures s == s[..i] + s[i..] && s[i..][0] == s[i] && s[i..][1..] == s[i + 1..]
  {}

  lemma TakeMore<T>(s: seq<T>, i: nat, j: nat)
    requires i <= j <= |s|
    ensures s[..i] + s[i..j] == s[..j]
  {}

  lemma FlattenFirst<T>(layers: seq<seq<T>>)
    requires layers != []
    ensures Flatten(layers) == layers[0] + Flatten(layers[1..])
  {}

  lemma {:induction false} FlattenConcat<T>(a: seq<seq<T>>, b: seq<seq<T>>)
    ensures Flatten(a + b) == Flatten(a) + Flatten(b)
  {
    if a == [] {
      assert a + b == b && [] + Flatten(b) == Flatten(b);
    } else {
      hide Flatten;
      FlattenConcat(a[1..], b);
      ConcatFirst(a, b);
      FlattenFirst(a);
      FlattenFirst(a + b);
      PlusAssociates(a[0], Flatten(a[1..]), Flatten(b));
    }
  }

  lemma ConcatFirst<T>(a: seq<T>, b: seq<T>)
    requires a != []
    ensures (a + b)[0] == a[0] && (a + b)[1..] == a[1..] + b
  {}

  lemma PlusAssociates<T>(a: seq<T>, b: seq<T>, c: seq<T>)
    ensures a + (b + c) == a + b + c
  {}

  lemma FlattenSnoc<T>(a: seq<seq<T>>, x: seq<T>)
    ensures Flatten(a + [x]) == Flatten(a) + x
  {
    FlattenConcat(a, [x]);
    assert Flatten([x]) == x;
  }

  function Reversed<T>(s: seq<T>): seq<T>
  {
    if s == [] then [] else Reversed(s[1..]) + [s[0]]
  }

  lemma {:induction false} ReversedConcat<T>(a: seq<T>, b: seq<T>)
    ensures Reversed(a + b) == Reversed(b) + Reversed(a)
  {
    if a == [] {
      assert a + b == b;
    } else {
      ReversedConcat(a[1..], b);
      assert (a + b)[1..] == a[1..] + b;
    }
  }

  // ----- sorted insertion: the map update that a sorted list stands for

  function Upsert(es: seq<Entry>, e: Entry): seq<Entry>
  {
    if es == [] then [e]
    else if es[0].key == e.key then [e] + es[1..]
    else if Less(es[0].key, e.key) then [es[0]] + Upsert(es[1..], e)
    else [e] + es
  }

  lemma {:induction false} FindUpsert(es: seq<Entry>, e: Entry, k: Bytes)
    requires Ascending(es)
    ensures Find(Upsert(es, e), k) == if k == e.key then Some(e) else Find(es, k)
  {
    if es != [] {
      FindUpsert(es[1..], e, k);
      if Less(es[0].key, e.key) && es[0].key != e.key {
        LessIsStrictTotalOrder();
      }
    }
  }

  lemma {:induction false} KeysUpsert(es: seq<Entry>, e: Entry)
    ensures forall x :: x in Upsert(es, e) ==> x == e || x in es
  {
    if es != [] {
      KeysUpsert(es[1..], e);
    }
  }

  lemma {:induction false} AscendingUpsert(es: seq<Entry>, e: Entry)
    requires Ascending(es)
    ensures Ascending(Upsert(es, e))
  {
    hide Less;
    LessIsStrictTotalOrder();
    if es != [] {
      AscendingUpsert(es[1..], e);
      KeysUpsert(es[1..], e);
      var r := Upsert(es, e);
      if es[0].key != e.key && Less(es[0].key, e.key) {
        var t := Upsert(es[1..], e);
        forall i, j | 0 <= i < j < |r| ensures Less(r[i].key, r[j].key) {
          assert t[j - 1] in t;
          if i > 0 { assert r[i] == t[i - 1] && r[j] == t[j - 1]; }
        }
      }
    }
  }

  /** Upsert, seen as an edit at the position where the key belongs. */
  lemma {:induction false} UpsertAt(es: seq<Entry>, e: Entry, p: nat)
    requires p <= |es|
    requires forall i :: 0 <= i < p ==> Less(es[i].key, e.key)
    requires forall i :: p <= i < |es| ==> !Less(es[i].key, e.key)
    ensures Upsert(es, e) ==
            es[..p] + [e] + (if p < |es| && es[p].key == e.key then es[p + 1..] else es[p..])
  {
    hide Less, Upsert;
    if p == 0 {
      UpsertFirst(es, e);
      assert es[..0] + [e] == [e];
    } else {
      UpsertLater(es, e);
      UpsertAt(es[1..], e, p - 1);
      BehindFirst(es, p);
      var tail := if p < |es| && es[p].key == e.key then es[p + 1..] else es[p..];
      assert [es[0]] + (es[1..][..p - 1] + [e] + tail) == es[..p] + [e] + tail;
    }
  }

  lemma UpsertFirst(es: seq<Entry>, e: Entry)
    requires es != [] ==> !Less(es[0].key, e.key)
    ensures Upsert(es, e) == [e] + (if es != [] && es[0].key == e.key then es[1..] else es)
  {
    hide Less;
    LessIsStrictTotalOrder();
  }

  lemma UpsertLater(es: seq<Entry>, e: Entry)
    requires es != [] && Less(es[0].key, e.key)
    ensures Upsert(es, e) == [es[0]] + Upsert(es[1..], e)
  {
    hide Less;
    LessIsStrictTotalOrder();
  }

  lemma BehindFirst<T>(s: seq<T>, p: nat)
    requires 0 < p <= |s|
    ensures s[..p] == [s[0]] + s[1..][..p - 1] && s[1..][p - 1..] == s[p..]
    ensures p < |s| ==> s[1..][p - 1] == s[p] && s[1..][p..] == s[p + 1..]
  {}

  /** A binary or skip-list descent that ends at the key's position has found the key or its absence. */
  lemma FindAtPosition(es: seq<Entry>, key: Bytes, p: nat)
    requires Ascending(es) && p <= |es|
    requires forall i :: 0 <= i < p ==> Less(es[i].key, key)
    requires forall i :: p <= i < |es| ==> !Less(es[i].key, key)
    ensures Find(es, key) == if p < |es| && es[p].key == key then Some(es[p]) else None
  {
    hide Less;
    LessIsStrictTotalOrder();
    if p < |es| && es[p].key == key {
      FindAscending(es, p);
    } else {
      assert p < |es| ==> Less(key, es[p].key);
      forall e | e in es ensures e.key != key {
        var i :| 0 <= i < |es| && es[i] == e;
        assert i > p ==> Less(es[p].key, es[i].key);
      }
      FindNone(es, key);
    }
  }

  /** A history of writes, folded into a sorted list. */
  function Replay(es: seq<Entry>, ws: seq<Entry>): seq<Entry>
  {
    if ws == [] then es else Upsert(Replay(es, ws[..|ws| - 1]), ws[|ws| - 1])
  }

  /** The sorted list holds exactly the last writes, each key once, in ascending order. */
  lemma {:induction false} ReplayIsLatest(ws: seq<Entry>)
    ensures Ascending(Replay([], ws))
    ensures forall k :: Find(Replay([], ws), k) == Latest(ws, k)
  {
    if ws != [] {
      var front, last := ws[..|ws| - 1], ws[|ws| - 1];
      ReplayIsLatest(front);
      AscendingUpsert(Replay([], front), last);
      forall k ensures Find(Replay([], ws), k) == Latest(ws, k) {
        FindUpsert(Replay([], front), last, k);
      }
    }
  }
}
