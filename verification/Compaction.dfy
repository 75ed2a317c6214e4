/** The merge of go/pkg/lsm/compaction.go: gather, stable sort, deduplicate, drop tombstones. */
module Compaction {
  import opened Bytes
  import opened Entries
  import opened TableFormat
  import opened TableProofs
  import opened SSTable
  import Bloom

  // ----- the sort

  /** The comparison given to sort.SliceStable: key ascending, then timestamp descending. */
  predicate Before(a: Entry, b: Entry)
  {
    if a.key == b.key then a.ts > b.ts else Less(a.key, b.key)
  }

  predicate Sorted(s: seq<Entry>) { forall i, j :: 0 <= i < j < |s| ==> !Before(s[j], s[i]) }

  /** The entries of one key and timestamp, in order: those the comparison cannot tell apart. */
  function Same(s: seq<Entry>, k: Bytes, ts: int): seq<Entry>
  {
    if s == [] then []
    else (if s[0].key == k && s[0].ts == ts then [s[0]] else []) + Same(s[1..], k, ts)
  }

  /** What a stable sort promises. */
  ghost predicate IsStableSort(es: seq<Entry>, s: seq<Entry>)
  {
    Sorted(s) && multiset(s) == multiset(es) && forall k, ts :: Same(s, k, ts) == Same(es, k, ts)
  }

  /** Put e behind everything it does not come before. */
  function Place(s: seq<Entry>, e: Entry): seq<Entry>
  {
    if s == [] then [e] else if Before(e, s[0]) then [e] + s else [s[0]] + Place(s[1..], e)
  }

  function StableSort(es: seq<Entry>): seq<Entry>
  {
    if es == [] then [] else Place(StableSort(es[..|es| - 1]), es[|es| - 1])
  }

  lemma BeforeIsStrictWeakOrder()
    ensures forall a, b {:trigger Before(a, b)} :: !(Before(a, b) && Before(b, a))
    ensures forall a, b, c {:trigger Before(a, b), Before(b, c)} :: Before(a, b) && Before(b, c) ==> Before(a, c)
    ensures forall a, b, c {:trigger Before(a, b), Before(c, b)} :: Before(a, b) && !Before(c, b) ==> Before(a, c)
  {
    hide Less;
    LessIsStrictTotalOrder();
  }

  lemma {:induction false} PlaceBag(s: seq<Entry>, e: Entry)
    ensures multiset(Place(s, e)) == multiset(s) + multiset{e}
  {
    hide Before;
    if s != [] {
      var rest := Place(s[1..], e);
      assert s == [s[0]] + s[1..];
      assert Place(s, e) == if Before(e, s[0]) then [e] + s else [s[0]] + rest;
      PlaceBag(s[1..], e);
      hide Place;
    }
  }

  lemma PlaceMembers(s: seq<Entry>, e: Entry)
    ensures multiset(Place(s, e)) == multiset(s) + multiset{e}
    ensures forall x :: x in Place(s, e) ==> x == e || x in s
  {
    hide Place;
    PlaceBag(s, e);
    forall x | x in Place(s, e) ensures x == e || x in s {
      assert x in multiset(Place(s, e));
    }
  }

  lemma {:induction false} PlaceSorted(s: seq<Entry>, e: Entry)
    requires Sorted(s)
    ensures Sorted(Place(s, e))
  {
    hide Before;
    BeforeIsStrictWeakOrder();
    if s != [] {
      PlaceSorted(s[1..], e);
      PlaceMembers(s[1..], e);
      var r, t := Place(s, e), Place(s[1..], e);
      if !Before(e, s[0]) {
        forall i, j | 0 <= i < j < |r| ensures !Before(r[j], r[i]) {
          assert r[j] == t[j - 1] && t[j - 1] in t;
          if i > 0 { assert r[i] == t[i - 1]; }
        }
      }
    }
  }

  lemma {:induction false} SameConcat(a: seq<Entry>, b: seq<Entry>, k: Bytes, ts: int)
    ensures Same(a + b, k, ts) == Same(a, k, ts) + Same(b, k, ts)
  {
    if a == [] {
      assert a + b == b;
    } else {
      SameConcat(a[1..], b, k, ts);
      assert (a + b)[1..] == a[1..] + b;
      var first := if a[0].key == k && a[0].ts == ts then [a[0]] else [];
      assert first + (Same(a[1..], k, ts) + Same(b, k, ts)) == first + Same(a[1..], k, ts) + Same(b, k, ts);
    }
  }

  /** Nothing equal to e lies behind the place that e takes, in a sorted list. */
  lemma {:induction false} PlaceStable(s: seq<Entry>, e: Entry, k: Bytes, ts: int)
    requires Sorted(s)
    ensures Same(Place(s, e), k, ts) == Same(s, k, ts) + Same([e], k, ts)
  {
    hide Before;
    if s != [] && Before(e, s[0]) {
      assert ([e] + s)[1..] == s && [e][1..] == [];
      if e.key == k && e.ts == ts {
        BehindIsDifferent(s, e);
      }
    } else if s != [] {
      PlaceStable(s[1..], e, k, ts);
      assert ([s[0]] + Place(s[1..], e))[1..] == Place(s[1..], e);
    }
  }

  lemma {:induction false} BehindIsDifferent(s: seq<Entry>, e: Entry)
    requires Sorted(s) && s != [] && Before(e, s[0])
    ensures Same(s, e.key, e.ts) == []
  {
    BeforeIsStrictWeakOrder();
    LessIsStrictTotalOrder();
    hide Less;
    if |s| > 1 {
      BehindIsDifferent(s[1..], e);
    }
  }

  /** Insertion gives a stable sort. */
  lemma {:induction false} StableSortIsStable(es: seq<Entry>)
    ensures IsStableSort(es, StableSort(es))
  {
    hide Before, Place, Sorted, Same;
    if es == [] {
      assert Sorted([]) by { NothingSorted(); }
    } else {
      var front, last := es[..|es| - 1], es[|es| - 1];
      StableSortIsStable(front);
      PlaceSorted(StableSort(front), last);
      PlaceMembers(StableSort(front), last);
      assert es == front + [last];
      forall k, ts ensures Same(StableSort(es), k, ts) == Same(es, k, ts) {
        PlaceStable(StableSort(front), last, k, ts);
        SameConcat(front, [last], k, ts);
      }
    }
  }

  lemma NothingSorted()
    ensures Sorted([])
  {}

  // ----- the newest record of a key

  /** The record with the greatest timestamp; of equal timestamps, the earliest in the list. */
  function Newest(es: seq<Entry>, k: Bytes): Option<Entry>
  {
    if es == [] then None
    else
      var r := Newest(es[1..], k);
      if es[0].key == k && (r.None? || es[0].ts >= r.value.ts) then Some(es[0]) else r
  }

  lemma {:induction false} NewestIsGreatest(es: seq<Entry>, k: Bytes)
    ensures Newest(es, k).None? ==> forall e :: e in es ==> e.key != k
    ensures var r := Newest(es, k); r.Some? ==>
      && r.value in es && r.value.key == k && (forall e :: e in es && e.key == k ==> e.ts <= r.value.ts)
      && Same(es, k, r.value.ts) != [] && Same(es, k, r.value.ts)[0] == r.value
    ensures forall ts :: (Newest(es, k).Some? ==> ts > Newest(es, k).value.ts) ==> Same(es, k, ts) == []
  {
    if es != [] {
      NewestIsGreatest(es[1..], k);
      assert es == [es[0]] + es[1..];
    }
  }

  lemma {:induction false} FirstOfSame(s: seq<Entry>, k: Bytes)
    requires Find(s, k).Some?
    ensures var ts := Find(s, k).value.ts; Same(s, k, ts) != [] && Same(s, k, ts)[0] == Find(s, k).value
  {
    if s[0].key != k {
      FirstOfSame(s[1..], k);
    }
  }

  lemma {:induction false} FirstIsGreatest(s: seq<Entry>, k: Bytes)
    requires Sorted(s) && Find(s, k).Some?
    ensures forall e :: e in s && e.key == k ==> e.ts <= Find(s, k).value.ts
  {
    if s[0].key == k {
      forall e | e in s && e.key == k ensures e.ts <= s[0].ts {
        var i :| 0 <= i < |s| && s[i] == e;
      }
    } else {
      FirstIsGreatest(s[1..], k);
      assert s == [s[0]] + s[1..];
    }
  }

  /** What is stable about a sort fixes it: lists sorted by key and time that have the same records, in the
      same order, of every key and time are equal. */
  lemma {:induction false} SortedAlike(s: seq<Entry>, t: seq<Entry>)
    requires Sorted(s) && Sorted(t) && forall k, ts :: Same(s, k, ts) == Same(t, k, ts)
    ensures s == t
  {
    hide Before, Sorted, Same;
    if s == [] && t == [] {
    } else {
      FirstsAlike(s, t);
      TailStaysSorted(s);
      TailStaysSorted(t);
      forall k, ts ensures Same(s[1..], k, ts) == Same(t[1..], k, ts) {
        SameTail(s, k, ts);
        SameTail(t, k, ts);
        assert Same(s, k, ts) == Same(t, k, ts);
      }
      SortedAlike(s[1..], t[1..]);
      assert s == [s[0]] + s[1..] && t == [t[0]] + t[1..];
    }
  }

  lemma TailStaysSorted(s: seq<Entry>)
    requires Sorted(s) && s != []
    ensures Sorted(s[1..])
  {
    hide Before;
  }

  lemma SameTail(s: seq<Entry>, k: Bytes, ts: int)
    requires s != []
    ensures if s[0].key == k && s[0].ts == ts then Same(s, k, ts) != [] && Same(s[1..], k, ts) == Same(s, k, ts)[1..]
            else Same(s[1..], k, ts) == Same(s, k, ts)
  {}

  lemma {:induction false} SameMember(s: seq<Entry>, k: Bytes, ts: int)
    ensures forall e :: e in Same(s, k, ts) <==> e in s && e.key == k && e.ts == ts
  {
    if s != [] {
      SameMember(s[1..], k, ts);
      assert s == [s[0]] + s[1..];
    }
  }

  lemma SameFirst(s: seq<Entry>)
    requires s != []
    ensures Same(s, s[0].key, s[0].ts) != [] && Same(s, s[0].key, s[0].ts)[0] == s[0]
  {}

  lemma FirstsAlike(s: seq<Entry>, t: seq<Entry>)
    requires Sorted(s) && Sorted(t) && (s != [] || t != [])
    requires forall k, ts :: Same(s, k, ts) == Same(t, k, ts)
    ensures s != [] && t != [] && s[0] == t[0]
  {
    hide Same;
    if s != [] {
      SameFirst(s);
      SameMember(t, s[0].key, s[0].ts);
      assert s[0] in Same(t, s[0].key, s[0].ts);
    }
    if t != [] {
      SameFirst(t);
      SameMember(s, t[0].key, t[0].ts);
      assert t[0] in Same(s, t[0].key, t[0].ts);
    }
    NoneBeforeFirst(s, t[0]);
    NoneBeforeFirst(t, s[0]);
    LessIsStrictTotalOrder();
    hide Less;
    assert s[0].key == t[0].key && s[0].ts == t[0].ts;
  }

  lemma NoneBeforeFirst(s: seq<Entry>, e: Entry)
    requires Sorted(s) && e in s
    ensures !Before(e, s[0])
  {
    hide Less;
    var i :| 0 <= i < |s| && s[i] == e;
  }

  /** So every stable sort returns this one, and the merge does not depend on how the library sorts. */
  lemma StableSortIsOnly(es: seq<Entry>, s: seq<Entry>)
    requires IsStableSort(es, s)
    ensures s == StableSort(es)
  {
    StableSortIsStable(es);
    hide Sorted, Same, StableSort;
    forall k, ts ensures Same(s, k, ts) == Same(StableSort(es), k, ts) {
      assert Same(s, k, ts) == Same(es, k, ts);
    }
    SortedAlike(s, StableSort(es));
  }

  /** After any stable sort, the first record of a key is its newest. */
  lemma FirstIsNewest(es: seq<Entry>, s: seq<Entry>, k: Bytes)
    requires IsStableSort(es, s)
    ensures Find(s, k) == Newest(es, k)
  {
    hide Before, Sorted, Same;
    NewestIsGreatest(es, k);
    FindNone(s, k);
    assert forall e :: e in s <==> e in multiset(s);
    assert forall e :: e in es <==> e in multiset(es);
    if Find(s, k).Some? {
      FirstOfSame(s, k);
      FirstIsGreatest(s, k);
      assert Find(s, k).value in es;
    }
  }

  // ----- deduplication

  /** The loop over the sorted entries, from the point where the last key seen was `last`. */
  function Dedupe(s: seq<Entry>, last: Option<Bytes>, bottom: bool): seq<Entry>
    decreases |s|
  {
    if s == [] then []
    else if last == Some(s[0].key) then Dedupe(s[1..], last, bottom)
    else (if s[0].tombstone && bottom then [] else [s[0]]) + Dedupe(s[1..], Some(s[0].key), bottom)
  }

  /** What survives of a key's newest record. */
  function Kept(r: Option<Entry>, bottom: bool): Option<Entry>
  {
    if bottom then Live(r) else r
  }

  predicate KeysAfter(s: seq<Entry>, last: Option<Bytes>)
  {
    last.Some? ==> forall e :: e in s ==> e.key == last.value || Less(last.value, e.key)
  }

  lemma SortedTail(s: seq<Entry>, last: Option<Bytes>)
    requires Sorted(s) && s != [] && KeysAfter(s, last)
    ensures Sorted(s[1..]) && KeysAfter(s[1..], last) && KeysAfter(s[1..], Some(s[0].key))
    ensures last.Some? && last.value != s[0].key ==> Less(last.value, s[0].key)
  {
    hide Less;
    LessIsStrictTotalOrder();
    forall e | e in s[1..] ensures e in s && (e.key == s[0].key || Less(s[0].key, e.key)) {
      var i :| 0 <= i < |s[1..]| && s[1..][i] == e;
      assert e == s[i + 1];
      assert !Before(s[i + 1], s[0]);
    }
  }

  lemma {:induction false} DedupeAscends(s: seq<Entry>, last: Option<Bytes>, bottom: bool)
    requires Sorted(s) && KeysAfter(s, last)
    ensures var d := Dedupe(s, last, bottom);
      Ascending(d) && (forall e :: e in d ==> e in s && (last.Some? ==> Less(last.value, e.key)))
    decreases |s|
  {
    hide Less, Sorted, KeysAfter;
    LessIsStrictTotalOrder();
    if s != [] {
      SortedTail(s, last);
      if last == Some(s[0].key) {
        DedupeAscends(s[1..], last, bottom);
      } else {
        DedupeAscends(s[1..], Some(s[0].key), bottom);
        var rest := Dedupe(s[1..], Some(s[0].key), bottom);
        ConsAscending(s[0], rest);
        assert [] + rest == rest;
      }
    }
  }

  lemma ConsAscending(e: Entry, rest: seq<Entry>)
    requires Ascending(rest) && forall x :: x in rest ==> Less(e.key, x.key)
    ensures Ascending([e] + rest)
  {
    hide Less;
  }

  lemma {:induction false} FindDedupe(s: seq<Entry>, last: Option<Bytes>, bottom: bool, k: Bytes)
    requires Sorted(s) && KeysAfter(s, last)
    ensures Find(Dedupe(s, last, bottom), k) == if last == Some(k) then None else Kept(Find(s, k), bottom)
    decreases |s|
  {
    hide Less, Sorted, KeysAfter;
    if s != [] {
      SortedTail(s, last);
      if last == Some(s[0].key) {
        FindDedupe(s[1..], last, bottom, k);
      } else {
        FindDedupe(s[1..], Some(s[0].key), bottom, k);
        var rest := Dedupe(s[1..], Some(s[0].key), bottom);
        assert [] + rest == rest && ([s[0]] + rest)[1..] == rest;
        DedupeAscends(s, last, bottom);
        if last == Some(k) {
          LessIsStrictTotalOrder();
          FindNone(Dedupe(s, last, bottom), k);
        }
      }
    }
  }

  /** The merged entries. */
  function Merge(inputs: seq<seq<Entry>>, bottom: bool): seq<Entry>
  {
    Dedupe(StableSort(Flatten(inputs)), None, bottom)
  }

  /** The output has strictly ascending keys, and holds for each key exactly the input record with
      the greatest timestamp; a key is dropped only if that record is a tombstone at the bottom. */
  lemma MergeKeepsNewest(inputs: seq<seq<Entry>>, bottom: bool)
    ensures Ascending(Merge(inputs, bottom))
    ensures forall k :: var r := Newest(Flatten(inputs), k);
              Find(Merge(inputs, bottom), k) ==
              if r.Some? && bottom && r.value.tombstone then None else r
    ensures forall e :: e in Merge(inputs, bottom) ==> e in Flatten(inputs) && (bottom ==> !e.tombstone)
  {
    hide Before, Sorted, Same, Dedupe, StableSort;
    var es := Flatten(inputs);
    var s := StableSort(es);
    StableSortIsStable(es);
    DedupeAscends(s, None, bottom);
    forall k
      ensures var r := Newest(es, k);
        Find(Merge(inputs, bottom), k) == if r.Some? && bottom && r.value.tombstone then None else r
    {
      FindDedupe(s, None, bottom, k);
      FirstIsNewest(es, s, k);
    }
    forall e | e in Merge(inputs, bottom) ensures e in es && (bottom ==> !e.tombstone) {
      assert e in multiset(s);
      assert e in multiset(es);
      var i :| 0 <= i < |Merge(inputs, bottom)| && Merge(inputs, bottom)[i] == e;
      FindAscending(Merge(inputs, bottom), i);
    }
  }

  // ----- against the newest-first lookup that the merge replaces

  /** Of one key, records in later tables carry later timestamps. */
  predicate AgeOrdered(inputs: seq<seq<Entry>>, k: Bytes)
  {
    forall i, j, a, b :: 0 <= i < j < |inputs| && a in inputs[i] && b in inputs[j] && a.key == k == b.key ==>
      a.ts < b.ts
  }

  lemma {:induction false} InFlatten(layers: seq<seq<Entry>>, e: Entry)
    ensures e in Flatten(layers) <==> exists i :: 0 <= i < |layers| && e in layers[i]
  {
    if layers != [] {
      InFlatten(layers[1..], e);
      if e in layers[0] {
        assert e in layers[0];
      } else if i :| 0 <= i < |layers| && e in layers[i] {
        assert layers[1..][i - 1] == layers[i];
      }
      if i :| 0 <= i < |layers[1..]| && e in layers[1..][i] {
        assert layers[i + 1] == layers[1..][i];
      }
    }
  }

  lemma {:induction false} ReversedMembers<T>(s: seq<T>)
    ensures |Reversed(s)| == |s|
    ensures forall i :: 0 <= i < |s| ==> Reversed(s)[i] == s[|s| - 1 - i]
  {
    if s != [] {
      ReversedMembers(s[1..]);
    }
  }

  lemma {:induction false} LayerOfFind(layers: seq<seq<Entry>>, k: Bytes)
    requires FindInLayers(layers, k).Some?
    ensures exists i :: 0 <= i < |layers| && Find(layers[i], k) == FindInLayers(layers, k)
              && forall j :: 0 <= j < i ==> Find(layers[j], k) == None
  {
    if Find(layers[0], k).None? {
      LayerOfFind(layers[1..], k);
      var i :| 0 <= i < |layers[1..]| && Find(layers[1..][i], k) == FindInLayers(layers[1..], k)
        && forall j :: 0 <= j < i ==> Find(layers[1..][j], k) == None;
      assert Find(layers[i + 1], k) == FindInLayers(layers, k);
      forall j | 0 <= j < i + 1 ensures Find(layers[j], k) == None {
        if j > 0 { assert layers[j] == layers[1..][j - 1]; }
      }
    }
  }

  lemma {:induction false} LayersNone(layers: seq<seq<Entry>>, k: Bytes)
    ensures FindInLayers(layers, k).None? <==> forall e :: e in Flatten(layers) ==> e.key != k
  {
    LayersFlatten(layers, k);
    FindNone(Flatten(layers), k);
  }

  /** The newest record, and where it stands: before it, the key has only strictly older ones. */
  lemma {:induction false} NewestPosition(es: seq<Entry>, k: Bytes) returns (p: nat)
    requires Newest(es, k).Some?
    ensures p < |es| && es[p] == Newest(es, k).value
    ensures forall i :: 0 <= i < p && es[i].key == k ==> es[i].ts < es[p].ts
  {
    if Newest(es, k) == Some(es[0]) {
      p := 0;
    } else {
      p := NewestPosition(es[1..], k);
      p := p + 1;
    }
  }

  /** Every other record of the key is older than r, or as old and behind a copy of it. */
  predicate OlderOrBehind(es: seq<Entry>, k: Bytes, r: Entry)
  {
    forall i :: 0 <= i < |es| && es[i].key == k && es[i] != r ==>
      es[i].ts < r.ts || (es[i].ts == r.ts && r in es[..i])
  }

  lemma NewestExact(es: seq<Entry>, k: Bytes, r: Entry)
    requires r in es && r.key == k
    ensures Newest(es, k) == Some(r) <==> OlderOrBehind(es, k, r)
  {
    hide Newest, Same;
    NewestIsGreatest(es, k);
    var p := NewestPosition(es, k);
    if es[p] == r {
      forall i | 0 <= i < |es| && es[i].key == k && es[i] != r
        ensures es[i].ts < r.ts || (es[i].ts == r.ts && r in es[..i])
      {
        if es[i].ts == r.ts {
          assert p < i && es[..i][p] == r;
        }
      }
    } else if es[p].ts == r.ts {
      forall j | 0 <= j < p ensures es[..p][j] != r {
        assert es[j].key == k ==> es[j].ts < es[p].ts;
      }
      assert r !in es[..p];
    }
  }

  /** Newest-first lookup and greatest-timestamp selection agree on a key, whatever the timestamps, exactly
      when every other record of the key in the inputs is strictly older than the one that answers. (As
      old, and gathered behind a second copy of it, would do as well; the engine makes no copies.) */
  lemma NewestFirstExact(inputs: seq<seq<Entry>>, k: Bytes)
    ensures var r := FindInLayers(Reversed(inputs), k);
      r == Newest(Flatten(inputs), k) <==> (r.Some? ==> OlderOrBehind(Flatten(inputs), k, r.value))
  {
    hide FindInLayers, Newest, Same, OlderOrBehind, Reversed, Flatten;
    var r := FindInLayers(Reversed(inputs), k);
    NewestIsGreatest(Flatten(inputs), k);
    LayersReversed(inputs, k);
    if r.Some? {
      NewestExact(Flatten(inputs), k, r.value);
    }
  }

  /** So the merged table answers a key as the inputs did exactly then, or when both records are deletions
      and the merge drops those. */
  lemma MergeExact(inputs: seq<seq<Entry>>, bottom: bool, k: Bytes)
    ensures var r, n := FindInLayers(Reversed(inputs), k), Newest(Flatten(inputs), k);
      Find(Merge(inputs, bottom), k) == Kept(r, bottom) <==>
      (r.Some? && n.Some? ==>
         OlderOrBehind(Flatten(inputs), k, r.value) || (bottom && r.value.tombstone && n.value.tombstone))
  {
    hide FindInLayers, Newest, OlderOrBehind, Reversed, Flatten, Merge, Same;
    MergeKeepsNewest(inputs, bottom);
    NewestFirstExact(inputs, k);
    NewestIsGreatest(Flatten(inputs), k);
    LayersReversed(inputs, k);
  }

  lemma LayersReversed(inputs: seq<seq<Entry>>, k: Bytes)
    ensures var r := FindInLayers(Reversed(inputs), k);
      && (r.Some? ==> r.value in Flatten(inputs) && r.value.key == k)
      && (r.None? <==> forall e :: e in Flatten(inputs) ==> e.key != k)
  {
    var rev := Reversed(inputs);
    ReversedMembers(inputs);
    LayersNone(rev, k);
    forall e ensures e in Flatten(rev) <==> e in Flatten(inputs) {
      InFlatten(rev, e);
      InFlatten(inputs, e);
      if i :| 0 <= i < |rev| && e in rev[i] { assert e in inputs[|rev| - 1 - i]; }
      if i :| 0 <= i < |inputs| && e in inputs[i] { assert e in rev[|rev| - 1 - i]; }
    }
    if FindInLayers(rev, k).Some? {
      LayerOfFind(rev, k);
      var i :| 0 <= i < |rev| && Find(rev[i], k) == FindInLayers(rev, k);
      InFlatten(rev, FindInLayers(rev, k).value);
    }
  }

  /** The table that answers first, numbered from the oldest. */
  lemma AnsweringTable(inputs: seq<seq<Entry>>, k: Bytes) returns (m: nat)
    requires FindInLayers(Reversed(inputs), k).Some?
    ensures m < |inputs| && FindInLayers(Reversed(inputs), k).value in inputs[m]
    ensures forall j, e :: m < j < |inputs| && e in inputs[j] ==> e.key != k
  {
    var rev := Reversed(inputs);
    LayerOfFind(rev, k);
    ReversedMembers(inputs);
    var i :| 0 <= i < |rev| && Find(rev[i], k) == FindInLayers(rev, k)
      && forall j :: 0 <= j < i ==> Find(rev[j], k) == None;
    m := |inputs| - 1 - i;
    forall j, e | m < j < |inputs| && e in inputs[j] ensures e.key != k {
      assert rev[|inputs| - 1 - j] == inputs[j];
      FindNone(inputs[j], k);
    }
  }

  lemma LayersPickNewest(inputs: seq<seq<Entry>>, k: Bytes)
    requires AgeOrdered(inputs, k) && forall t :: t in inputs ==> Ascending(t)
    ensures FindInLayers(Reversed(inputs), k) == Newest(Flatten(inputs), k)
  {
    hide FindInLayers, Newest, Same, Ascending, Flatten, Reversed;
    var es := Flatten(inputs);
    NewestIsGreatest(es, k);
    LayersReversed(inputs, k);
    if FindInLayers(Reversed(inputs), k).Some? {
      var r, n := FindInLayers(Reversed(inputs), k).value, Newest(es, k).value;
      var m := AnsweringTable(inputs, k);
      InFlatten(inputs, n);
      var j :| 0 <= j < |inputs| && n in inputs[j];
      assert j <= m;
      assert j < m ==> n.ts < r.ts;
      SameKeySameEntry(inputs[m], r, n);
    }
  }

  /** When timestamps grow with table age order, lookup in the merged table agrees with newest-first
      lookup over the inputs, up to tombstones. */
  lemma MergeAgreesWithLayers(inputs: seq<seq<Entry>>, bottom: bool, k: Bytes)
    requires AgeOrdered(inputs, k) && forall t :: t in inputs ==> Ascending(t)
    ensures Find(Merge(inputs, bottom), k) == Kept(FindInLayers(Reversed(inputs), k), bottom)
  {
    MergeKeepsNewest(inputs, bottom);
    LayersPickNewest(inputs, k);
  }

  lemma SameKeySameEntry(es: seq<Entry>, a: Entry, b: Entry)
    requires Ascending(es) && a in es && b in es && a.key == b.key
    ensures a == b
  {
    hide Less;
    LessIsStrictTotalOrder();
    var i, j :| 0 <= i < |es| && es[i] == a && 0 <= j < |es| && es[j] == b;
  }

  /** With equal timestamps the merge keeps the record of the older table: the source's lookup and its
      compaction then disagree. */
  lemma EqualTimestampsResurrect()
    ensures var before, after := Entry([1], [10], false, 5), Entry([1], [20], false, 5);
      && FindInLayers(Reversed([[before], [after]]), [1]) == Some(after)
      && Find(Merge([[before], [after]], true), [1]) == Some(before)
  {
    var before, after := Entry([1], [10], false, 5), Entry([1], [20], false, 5);
    var inputs := [[before], [after]];
    MergeKeepsNewest(inputs, true);
    assert inputs == [[before]] + [[after]];
    FlattenSnoc([[before]], [after]);
    FlattenSnoc([], [before]);
    assert [] + [[before]] == [[before]];
    assert Flatten(inputs) == [before, after];
    assert [before, after][1..] == [after] && [after][1..] == [];
    assert Newest([after], [1]) == Some(after);
    ReversedConcat([[before]], [[after]]);
    ReversedMembers([[before]]);
    ReversedMembers([[after]]);
    assert Reversed(inputs) == [[after], [before]];
  }

  // ----- the compactor

  /** sort.SliceStable: the elements one by one, each put behind those it does not come before. */
  method SliceStable(es: seq<Entry>) returns (s: seq<Entry>)
    ensures s == StableSort(es)
  {
    hide Before;
    s := [];
    for i := 0 to |es|
      invariant s == StableSort(es[..i])
    {
      assert es[..i + 1][..i] == es[..i];
      s := Place(s, es[i]);
    }
    assert es[..|es|] == es;
  }

  lemma DedupeStep(s: seq<Entry>, last: Option<Bytes>, bottom: bool)
    requires s != []
    ensures Dedupe(s, last, bottom) ==
            if last == Some(s[0].key) then Dedupe(s[1..], last, bottom)
            else (if s[0].tombstone && bottom then [] else [s[0]]) + Dedupe(s[1..], Some(s[0].key), bottom)
  {}

  /** The deduplication loop. */
  method DedupeLoop(allEntries: seq<Entry>, isBottomLevel: bool) returns (merged: seq<Entry>)
    ensures merged == Dedupe(allEntries, None, isBottomLevel)
  {
    hide Dedupe;
    merged := [];
    var lastKey: Bytes := [];
    var hasLastKey := false;
    for i := 0 to |allEntries|
      invariant Dedupe(allEntries, None, isBottomLevel) ==
                merged + Dedupe(allEntries[i..], if hasLastKey then Some(lastKey) else None, isBottomLevel)
    {
      var entry := allEntries[i];
      assert allEntries[i..][1..] == allEntries[i + 1..];
      DedupeStep(allEntries[i..], if hasLastKey then Some(lastKey) else None, isBottomLevel);
      if hasLastKey && entry.key == lastKey {
        continue;
      }
      lastKey := entry.key;
      hasLastKey := true;
      if entry.tombstone && isBottomLevel {
        continue;
      }
      ghost var rest := Dedupe(allEntries[i + 1..], Some(entry.key), isBottomLevel);
      assert merged + ([entry] + rest) == merged + [entry] + rest;
      merged := merged + [entry];
    }
    NothingDeduped(if hasLastKey then Some(lastKey) else None, isBottomLevel);
  }

  lemma NothingDeduped(last: Option<Bytes>, bottom: bool)
    ensures Dedupe([], last, bottom) == []
  {}

  datatype Outcome = ScanFailed | Nothing | Written(file: Bytes, meta: Metadata)

  /** The entries of every table, or None if one of them cannot be read. */
  function Gather(tables: seq<Reader>): Option<seq<seq<Entry>>>
  {
    if tables == [] then Some([])
    else
      var front, last := Gather(tables[..|tables| - 1]), ScanAll(tables[|tables| - 1]);
      if front.None? || last.None? then None else Some(front.value + [last.value])
  }

  lemma {:induction false} GatherFails(tables: seq<Reader>, n: nat)
    requires n <= |tables| && Gather(tables[..n]).None?
    ensures Gather(tables).None?
    decreases |tables| - n
  {
    if n == |tables| {
      assert tables[..n] == tables;
    } else {
      assert tables[..n + 1][..n] == tables[..n];
      GatherFails(tables, n + 1);
    }
  }

  /** MergeSSTables writes the file of the merged entries, with a filter that denies none of them. */
  method MergeSSTables(h: Bloom.Hashes, tables: seq<Reader>, isBottomLevel: bool, numBits: nat, numHash: nat)
    returns (r: Outcome, ghost bloom: Bloom.Filter)
    requires 64 <= numBits <= U32 - 8 && 1 <= numHash < U32
    ensures Gather(tables).None? <==> r == ScanFailed
    ensures Gather(tables).Some? ==>
              var merged := Merge(Gather(tables).value, isBottomLevel);
              && (r == Nothing <==> merged == [])
              && (r.Written? ==>
                    && bloom.Valid() && ClaimsAll(h, bloom, merged)
                    && r.file == FileOf(merged, bloom)
                    && r.meta == Metadata(TrackedMin(merged), LastKey(merged), |merged|, |r.file|))
  {
    hide ScanAll, Dedupe, StableSort, FileOf, TrackedMin, LastKey, Ascending, Bloom.Claims;
    bloom := Bloom.Filter([], 0, 0, 0);
    var allEntries: seq<Entry> := [];
    ghost var gathered: seq<seq<Entry>> := [];
    for i := 0 to |tables|
      invariant Gather(tables[..i]) == Some(gathered) && allEntries == Flatten(gathered)
    {
      assert tables[..i + 1][..i] == tables[..i];
      var entries := ScanTable(tables[i]);
      if entries.None? {
        GatherFails(tables, i + 1);
        return ScanFailed, bloom;
      }
      FlattenSnoc(gathered, entries.value);
      allEntries := allEntries + entries.value;
      gathered := gathered + [entries.value];
    }
    assert tables[..|tables|] == tables;
    MergeKeepsNewest(gathered, isBottomLevel);
    var sorted := SliceStable(allEntries);
    var merged := DedupeLoop(sorted, isBottomLevel);
    if |merged| == 0 {
      return Nothing, bloom;
    }
    var file, meta;
    file, meta, bloom := WriteTable(h, merged, numBits, numHash);
    return Written(file, meta), bloom;
  }

  /** Write an ascending list of entries to a new table file. */
  method WriteTable(h: Bloom.Hashes, entries: seq<Entry>, numBits: nat, numHash: nat)
    returns (file: Bytes, meta: Metadata, ghost bloom: Bloom.Filter)
    requires 64 <= numBits <= U32 - 8 && 1 <= numHash < U32 && Ascending(entries)
    ensures bloom.Valid() && ClaimsAll(h, bloom, entries)
    ensures file == FileOf(entries, bloom)
    ensures meta == Metadata(TrackedMin(entries), LastKey(entries), |entries|, |file|)
  {
    hide FileOf, TrackedMin, Less, Bloom.Claims, ClaimsAll, SSTableWriter.Valid;
    var filter := new Bloom.BloomFilter(h, numBits, numHash);
    var writer := new SSTableWriter(filter);
    for i := 0 to |entries|
      invariant fresh(writer) && writer.bloom == filter && fresh(filter) && fresh(filter.bits)
      invariant writer.Valid() && writer.entries == entries[..i]
    {
      var e := entries[i];
      assert i > 0 ==> entries[..i][i - 1] == entries[i - 1];
      writer.Add(e.key, e.value, e.tombstone, e.ts);
      assert entries[..i] + [e] == entries[..i + 1];
    }
    assert entries[..|entries|] == entries;
    meta := writer.Finish();
    bloom := filter.Fields();
    file := writer.file;
  }
}
