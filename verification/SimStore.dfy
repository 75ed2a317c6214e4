/** The single-threaded engine of src/engine/storageEngine.ts, as functions on its levels. A put may
    cascade into a flush, and the flush into a compaction. */
module SimStore {
  import opened Bytes
  import opened Entries
  import Compaction
  import opened EngineAges

  const MEMTABLE_LIMIT: nat := 8
  const L0_LIMIT: nat := 3

  /** The memtable in insertion order, as a JavaScript Map keeps it; level 0 newest first; level 1
      oldest first. */
  datatype Store = Store(mem: seq<Entry>, l0: seq<seq<Entry>>, l1: seq<seq<Entry>>)

  const EMPTY: Store := Store([], [], [])

  /** Map.set: an existing key keeps its place. */
  function SetKey(mem: seq<Entry>, e: Entry): seq<Entry>
  {
    if mem == [] then [e]
    else if mem[0].key == e.key then [e] + mem[1..]
    else [mem[0]] + SetKey(mem[1..], e)
  }

  function Locate(s: Store, k: Bytes): Option<Entry>
  {
    if Find(s.mem, k).Some? then Find(s.mem, k)
    else if FindInLayers(s.l0, k).Some? then FindInLayers(s.l0, k)
    else FindInLayers(s.l1, k)
  }

  function Get(s: Store, k: Bytes): Option<Entry> { Live(Locate(s, k)) }

  /** The deduplicating loop: the first record of each key not seen yet, unless it is a tombstone. */
  function FirstLive(s: seq<Entry>, seen: set<Bytes>): seq<Entry>
  {
    if s == [] then []
    else if s[0].key in seen then FirstLive(s[1..], seen)
    else (if s[0].tombstone then [] else [s[0]]) + FirstLive(s[1..], seen + {s[0].key})
  }

  /** What triggerCompaction writes to level 1: level 0 gathered newest first, sorted, deduplicated. */
  function Merged(l0: seq<seq<Entry>>): seq<Entry>
  {
    FirstLive(Compaction.StableSort(Flatten(l0)), {})
  }

  /** triggerCompaction. Level 0 is emptied even when nothing is written. */
  function Compact(s: Store): Store
  {
    if |s.l0| < 2 then s
    else
      var merged := Merged(s.l0);
      Store(s.mem, [], if merged == [] then s.l1 else s.l1 + [merged])
  }

  /** rotateAndFlush. */
  function Flush(s: Store): Store
  {
    if s.mem == [] then s
    else
      var t := Store([], [Compaction.StableSort(s.mem)] + s.l0, s.l1);
      if |t.l0| >= L0_LIMIT then Compact(t) else t
  }

  /** put and delete. */
  function Write(s: Store, e: Entry): Store
  {
    var t := s.(mem := SetKey(s.mem, e));
    if |t.mem| >= MEMTABLE_LIMIT then Flush(t) else t
  }

  datatype Op = Put(key: Bytes, value: Bytes, ts: int) | Delete(key: Bytes, ts: int) | FlushNow | CompactNow
  {
    function Record(): Option<Entry>
    {
      match this
      case Put(k, v, ts) => Some(Entry(k, v, false, ts))
      case Delete(k, ts) => Some(Entry(k, [], true, ts))
      case _ => None
    }
  }

  function Apply(s: Store, op: Op): Store
  {
    match op
    case FlushNow => Flush(s)
    case CompactNow => Compact(s)
    case _ => Write(s, op.Record().value)
  }

  function Grow(history: seq<Entry>, op: Op): seq<Entry>
  {
    if op.Record().Some? then history + [op.Record().value] else history
  }

  // ----- parts

  predicate DistinctKeys(es: seq<Entry>) { forall i, j :: 0 <= i < j < |es| ==> es[i].key != es[j].key }

  lemma {:induction false} SetKeyParts(mem: seq<Entry>, e: Entry, k: Bytes)
    ensures Find(SetKey(mem, e), k) == if k == e.key then Some(e) else Find(mem, k)
    ensures forall x :: x in SetKey(mem, e) ==> x == e || x in mem
    ensures |mem| <= |SetKey(mem, e)| <= |mem| + 1
  {
    if mem != [] {
      SetKeyParts(mem[1..], e, k);
    }
  }

  lemma DistinctCons(x: Entry, es: seq<Entry>)
    requires DistinctKeys(es) && forall y :: y in es ==> y.key != x.key
    ensures DistinctKeys([x] + es)
  {}

  lemma {:induction false} SetKeyDistinct(mem: seq<Entry>, e: Entry)
    requires DistinctKeys(mem)
    ensures DistinctKeys(SetKey(mem, e))
  {
    if mem != [] {
      var x, rest := mem[0], mem[1..];
      assert forall y :: y in rest ==> y.key != x.key;
      SetKeyParts(rest, e, e.key);
      if x.key == e.key {
        DistinctCons(e, rest);
      } else {
        SetKeyDistinct(rest, e);
        DistinctCons(x, SetKey(rest, e));
      }
      hide DistinctKeys;
    }
  }

  lemma SortedDistinct(mem: seq<Entry>)
    requires DistinctKeys(mem)
    ensures var s := Compaction.StableSort(mem);
      Ascending(s) && (forall k :: Find(s, k) == Find(mem, k)) && (forall e :: e in s <==> e in mem)
      && (mem != [] ==> s != [])
  {
    hide Less, Compaction.StableSort, Compaction.Same, Find;
    var s := Compaction.StableSort(mem);
    Compaction.StableSortIsStable(mem);
    forall e ensures e in s <==> e in mem {
      assert e in s <==> e in multiset(s);
      assert e in mem <==> e in multiset(mem);
    }
    assert |s| == |multiset(s)| == |multiset(mem)| == |mem|;
    SortedIsAscending(mem, s);
    forall k ensures Find(s, k) == Find(mem, k) {
      FindNone(s, k);
      FindNone(mem, k);
      if Find(mem, k).Some? {
        UniqueKey(mem, Find(mem, k).value, Find(s, k).value);
      }
    }
  }

  lemma UniqueKey(mem: seq<Entry>, a: Entry, b: Entry)
    requires DistinctKeys(mem) && a in mem && b in mem && a.key == b.key
    ensures a == b
  {
    var i, j :| 0 <= i < |mem| && mem[i] == a && 0 <= j < |mem| && mem[j] == b;
  }

  lemma {:induction false} CountOfKey(es: seq<Entry>, a: Entry, i: nat, j: nat)
    requires 0 <= i < j < |es| && es[i] == a == es[j]
    ensures multiset(es)[a] >= 2
  {
    assert es == es[..j] + es[j..];
    assert a in es[..j] && a in es[j..];
    assert es[..j][i] == a && es[j..][0] == a;
  }

  lemma SortedIsAscending(mem: seq<Entry>, s: seq<Entry>)
    requires DistinctKeys(mem) && Compaction.Sorted(s) && multiset(s) == multiset(mem)
    ensures Ascending(s)
  {
    LessIsStrictTotalOrder();
    hide Less;
    forall i, j | 0 <= i < j < |s| ensures Less(s[i].key, s[j].key) {
      assert !Compaction.Before(s[j], s[i]);
      assert s[i] in multiset(s) && s[j] in multiset(s);
      assert s[i] in mem && s[j] in mem;
      if s[i].key == s[j].key {
        UniqueKey(mem, s[i], s[j]);
        CountOfKey(s, s[i], i, j);
        SingleCount(mem, s[i]);
      }
    }
  }

  lemma {:induction false} SingleCount(mem: seq<Entry>, a: Entry)
    requires DistinctKeys(mem)
    ensures multiset(mem)[a] <= 1
  {
    if mem != [] {
      var front, last := mem[..|mem| - 1], mem[|mem| - 1];
      SingleCount(front, a);
      assert mem == front + [last];
      if a == last {
        assert a !in front;
      }
    }
  }

  // ----- the merge

  lemma {:induction false} FindFirstLive(s: seq<Entry>, seen: set<Bytes>, k: Bytes)
    ensures Find(FirstLive(s, seen), k) == if k in seen then None else Live(Find(s, k))
    ensures forall e :: e in FirstLive(s, seen) ==> e in s && !e.tombstone
  {
    if s != [] {
      if s[0].key in seen {
        FindFirstLive(s[1..], seen, k);
      } else {
        FindFirstLive(s[1..], seen + {s[0].key}, k);
        var rest := FirstLive(s[1..], seen + {s[0].key});
        assert [] + rest == rest && ([s[0]] + rest)[1..] == rest;
      }
    }
  }

  lemma {:induction false} FirstLiveAscends(s: seq<Entry>, seen: set<Bytes>)
    requires Compaction.Sorted(s)
    ensures Ascending(FirstLive(s, seen))
  {
    hide Less, Compaction.Before;
    if s != [] {
      assert Compaction.Sorted(s[1..]) by { Compaction.TailStaysSorted(s); }
      if s[0].key in seen {
        FirstLiveAscends(s[1..], seen);
      } else {
        FirstLiveAscends(s[1..], seen + {s[0].key});
        var rest := FirstLive(s[1..], seen + {s[0].key});
        assert [] + rest == rest;
        RestAfter(s, seen + {s[0].key});
        Compaction.ConsAscending(s[0], rest);
      }
    }
  }

  lemma RestAfter(s: seq<Entry>, seen: set<Bytes>)
    requires Compaction.Sorted(s) && s != [] && s[0].key in seen
    ensures forall e :: e in FirstLive(s[1..], seen) ==> Less(s[0].key, e.key)
  {
    LessIsStrictTotalOrder();
    hide Less;
    var rest := FirstLive(s[1..], seen);
    forall e | e in rest ensures Less(s[0].key, e.key) {
      FindFirstLive(s[1..], seen, s[0].key);
      FindNone(rest, s[0].key);
      var i :| 0 <= i < |s[1..]| && s[1..][i] == e;
      assert !Compaction.Before(s[i + 1], s[0]);
    }
  }

  /** The merged table holds, of each key, the live record with the greatest timestamp; and that is what
      newest-first lookup found exactly when no older table has a later timestamp for the key. */
  lemma MergedExact(l0: seq<seq<Entry>>, k: Bytes)
    ensures Ascending(Merged(l0)) && (forall e :: e in Merged(l0) ==> e in Flatten(l0) && !e.tombstone)
    ensures Find(Merged(l0), k) == Live(Compaction.Newest(Flatten(l0), k))
    ensures var r := FindInLayers(l0, k);
      r == Compaction.Newest(Flatten(l0), k) <==>
      (r.Some? ==> forall e :: e in Flatten(l0) && e.key == k ==> e.ts <= r.value.ts)
  {
    hide Compaction.StableSort, Compaction.Before, Compaction.Same, FindInLayers, Find, Compaction.Newest;
    var es := Flatten(l0);
    var s := Compaction.StableSort(es);
    Compaction.StableSortIsStable(es);
    FirstLiveAscends(s, {});
    FindFirstLive(s, {}, k);
    Compaction.FirstIsNewest(es, s, k);
    forall e | e in Merged(l0) ensures e in es && !e.tombstone {
      assert e in multiset(s);
      assert e in multiset(es);
    }
    LayersFlatten(l0, k);
    FirstWins(es, k);
  }

  lemma {:induction false} FirstWins(es: seq<Entry>, k: Bytes)
    ensures Find(es, k) == Compaction.Newest(es, k) <==>
            (Find(es, k).Some? ==> forall e :: e in es && e.key == k ==> e.ts <= Find(es, k).value.ts)
  {
    Compaction.NewestIsGreatest(es, k);
    FindNone(es, k);
    if Find(es, k).Some? {
      var f := Find(es, k).value;
      if forall e :: e in es && e.key == k ==> e.ts <= f.ts {
        Compaction.FirstOfSame(es, k);
        assert Compaction.Newest(es, k).value.ts == f.ts;
      }
    }
  }

  // ----- what every operation keeps, whatever the clock says

  predicate AllAscending(layers: seq<seq<Entry>>) { forall l :: l in layers ==> Ascending(l) }

  /** The bounds after every operation. */
  predicate Shape(s: Store)
  {
    && |s.mem| < MEMTABLE_LIMIT && |s.l0| < L0_LIMIT
    && DistinctKeys(s.mem) && AllAscending(s.l0) && AllAscending(s.l1)
  }

  /** get returns exactly the last write of every key, or nothing if that was a deletion. */
  ghost predicate Correct(s: Store, history: seq<Entry>)
  {
    forall k :: Get(s, k) == Live(Latest(history, k))
  }

  /** For every key that a compaction takes down: if level 1 has it, its record answers as level 0's does;
      if not, no record of level 0 is later than the one that answers, or both are tombstones. */
  ghost predicate Faithful(s: Store)
  {
    forall k :: Find(s.mem, k).None? && FindInLayers(s.l0, k).Some? ==> AnswersAlike(s, k)
  }

  predicate AnswersAlike(s: Store, k: Bytes)
    requires FindInLayers(s.l0, k).Some?
  {
    var r, below, newest := FindInLayers(s.l0, k), FindInLayers(s.l1, k), Compaction.Newest(Flatten(s.l0), k);
    if below.Some? then Live(below) == Live(r)
    else
      || (forall e :: e in Flatten(s.l0) && e.key == k ==> e.ts <= r.value.ts)
      || (r.value.tombstone && newest.Some? && newest.value.tombstone)
  }

  /** The later of two records with different timestamps is another one, so it answers alike only if
      neither is live. */
  lemma AlikeExact(s: Store, k: Bytes)
    requires FindInLayers(s.l0, k).Some?
    ensures var below := FindInLayers(s.l1, k);
      AnswersAlike(s, k) <==>
      Live(FindInLayers(s.l0, k)) == Live(if below.Some? then below else Compaction.Newest(Flatten(s.l0), k))
  {
    hide FindInLayers, Find, Flatten, Compaction.Newest;
    MergedExact(s.l0, k);
    LayersFlatten(s.l0, k);
    Compaction.NewestIsGreatest(Flatten(s.l0), k);
  }

  function Flushed(s: Store): Store { Store([], [Compaction.StableSort(s.mem)] + s.l0, s.l1) }

  /** The store on which the operation compacts, if it does. */
  function Compacting(s: Store, op: Op): Option<Store>
  {
    match op
    case CompactNow => if |s.l0| >= 2 then Some(s) else None
    case FlushNow => if s.mem != [] && |s.l0| + 1 >= L0_LIMIT then Some(Flushed(s)) else None
    case _ =>
      var t := s.(mem := SetKey(s.mem, op.Record().value));
      if |t.mem| >= MEMTABLE_LIMIT && |s.l0| + 1 >= L0_LIMIT then Some(Flushed(t)) else None
  }

  ghost predicate StepFaithful(s: Store, op: Op) { Compacting(s, op).Some? ==> Faithful(Compacting(s, op).value) }

  lemma OneLayer(m: seq<Entry>, k: Bytes)
    ensures FindInLayers([m], k) == Find(m, k)
    ensures m == [] ==> Find(m, k) == None
    ensures Flatten([m]) == m
  {
    assert [m][1..] == [];
    FlattenSnoc([], m);
    assert [] + [m] == [m] && [] + m == m;
  }

  lemma GetCompact(s: Store, k: Bytes)
    requires |s.l0| >= 2
    ensures var below := FindInLayers(s.l1, k);
      Get(Compact(s), k) ==
        if Find(s.mem, k).Some? then Live(Find(s.mem, k))
        else Live(if below.Some? then below else Compaction.Newest(Flatten(s.l0), k))
  {
    hide Merged, Find, Compaction.Newest;
    var m := Merged(s.l0);
    MergedExact(s.l0, k);
    assert FindInLayers([], k) == None;
    LayersConcat(s.l1, [m], k);
    OneLayer(m, k);
  }

  /** A compaction keeps every lookup right exactly when it is faithful. */
  lemma CompactExact(s: Store, history: seq<Entry>)
    requires |s.l0| >= 2 && Correct(s, history)
    ensures Correct(Compact(s), history) <==> Faithful(s)
  {
    hide Compact, FindInLayers, Find, Latest, Compaction.Newest, AnswersAlike;
    forall k
      ensures Get(Compact(s), k) == Get(s, k) <==>
              (Find(s.mem, k).None? && FindInLayers(s.l0, k).Some? ==> AnswersAlike(s, k))
      ensures Get(s, k) == Live(Latest(history, k))
    {
      GetCompact(s, k);
      if FindInLayers(s.l0, k).None? { NoneNewest(s.l0, k); } else { AlikeExact(s, k); }
    }
  }

  lemma NoneNewest(l0: seq<seq<Entry>>, k: Bytes)
    requires FindInLayers(l0, k).None?
    ensures Compaction.Newest(Flatten(l0), k).None?
  {
    LayersFlatten(l0, k);
    FindNone(Flatten(l0), k);
    Compaction.NewestIsGreatest(Flatten(l0), k);
  }

  lemma CompactKeepsShape(s: Store)
    requires AllAscending(s.l0) && AllAscending(s.l1) && DistinctKeys(s.mem) && |s.mem| < MEMTABLE_LIMIT && |s.l0| >= 2
    ensures Shape(Compact(s))
  {
    hide Merged, Ascending, DistinctKeys;
    MergedExact(s.l0, []);
  }

  lemma FlushedExact(s: Store, history: seq<Entry>)
    requires DistinctKeys(s.mem) && AllAscending(s.l0)
    ensures AllAscending(Flushed(s).l0)
    ensures Correct(s, history) <==> Correct(Flushed(s), history)
  {
    hide Compaction.StableSort, Ascending, Find, FindInLayers, Latest;
    var sorted := Compaction.StableSort(s.mem);
    SortedDistinct(s.mem);
    var t := Flushed(s);
    assert t.l0[1..] == s.l0;
    forall k ensures Locate(t, k) == Locate(s, k) {
      LayersConcat([sorted], s.l0, k);
      OneLayer(sorted, k);
      FindNone([], k);
    }
    SameLookups(s, t, history);
  }

  lemma SameLookups(s: Store, t: Store, history: seq<Entry>)
    requires forall k :: Locate(t, k) == Locate(s, k)
    ensures Correct(s, history) <==> Correct(t, history)
  {
    hide Locate, Latest;
    forall k ensures Get(s, k) == Get(t, k) {
      assert Locate(t, k) == Locate(s, k);
    }
    if Correct(s, history) {
      forall k ensures Get(t, k) == Live(Latest(history, k)) { assert Get(s, k) == Live(Latest(history, k)); }
    }
    if Correct(t, history) {
      forall k ensures Get(s, k) == Live(Latest(history, k)) { assert Get(t, k) == Live(Latest(history, k)); }
    }
  }

  lemma SetCorrect(s: Store, history: seq<Entry>, e: Entry)
    requires Correct(s, history)
    ensures Correct(s.(mem := SetKey(s.mem, e)), history + [e])
  {
    hide Find, FindInLayers, SetKey;
    var t := s.(mem := SetKey(s.mem, e));
    assert (history + [e])[..|history|] == history;
    forall k ensures Get(t, k) == Live(Latest(history + [e], k)) {
      SetKeyParts(s.mem, e, k);
      assert Get(s, k) == Live(Latest(history, k));
    }
  }

  /** Flush, with the compaction it may cause. */
  lemma FlushExact(s: Store, history: seq<Entry>)
    requires |s.l0| < L0_LIMIT && DistinctKeys(s.mem) && AllAscending(s.l0) && AllAscending(s.l1) && s.mem != []
    ensures Shape(Flush(s))
    ensures Correct(s, history) ==>
              (Correct(Flush(s), history) <==> (|s.l0| + 1 >= L0_LIMIT ==> Faithful(Flushed(s))))
  {
    hide Compaction.StableSort, Compact, Correct, Ascending, Faithful;
    FlushedExact(s, history);
    if |s.l0| + 1 >= L0_LIMIT {
      CompactKeepsShape(Flushed(s));
      if Correct(s, history) {
        CompactExact(Flushed(s), history);
      }
    }
  }

  lemma NoFlush(s: Store)
    requires s.mem == []
    ensures Flush(s) == s
  {}

  /** Every operation keeps the bounds: afterwards the memtable holds at most 7 keys and level 0 at most
      2 tables. And whatever timestamps the writes carry, equal or falling ones too, it keeps every
      lookup right exactly when the compaction it may cause is faithful. */
  lemma ApplyExact(s: Store, history: seq<Entry>, op: Op)
    requires Shape(s)
    ensures Shape(Apply(s, op))
    ensures Correct(s, history) ==> (Correct(Apply(s, op), Grow(history, op)) <==> StepFaithful(s, op))
  {
    hide Correct, Compact, Faithful, Flush, SetKey, Ascending, DistinctKeys;
    match op {
      case CompactNow =>
        if |s.l0| >= 2 {
          CompactKeepsShape(s);
          if Correct(s, history) { CompactExact(s, history); }
        } else {
          NoCompact(s);
        }
      case FlushNow =>
        if s.mem != [] {
          FlushExact(s, history);
        } else {
          NoFlush(s);
        }
      case _ =>
        var e := op.Record().value;
        SetKeyDistinct(s.mem, e);
        SetKeyParts(s.mem, e, e.key);
        if Correct(s, history) { SetCorrect(s, history, e); }
        if |SetKey(s.mem, e)| >= MEMTABLE_LIMIT {
          FlushExact(s.(mem := SetKey(s.mem, e)), history + [e]);
        }
    }
  }

  lemma NoCompact(s: Store)
    requires |s.l0| < 2
    ensures Compact(s) == s
  {}

  // ----- whole runs

  function Run(ops: seq<Op>): (Store, seq<Entry>)
  {
    if ops == [] then (EMPTY, [])
    else
      var (s, history) := Run(ops[..|ops| - 1]);
      var op := ops[|ops| - 1];
      (Apply(s, op), Grow(history, op))
  }

  ghost predicate CorrectAfter(ops: seq<Op>, n: nat)
    requires n <= |ops|
  {
    Correct(Run(ops[..n]).0, Run(ops[..n]).1)
  }

  lemma RunStep(ops: seq<Op>, n: nat)
    requires n < |ops|
    ensures Run(ops[..n + 1]) == (Apply(Run(ops[..n]).0, ops[n]), Grow(Run(ops[..n]).1, ops[n]))
  {
    hide Apply, Grow;
    assert ops[..n + 1][..n] == ops[..n];
  }

  /** After every operation of every run the bounds hold. */
  lemma {:induction false} RunsKeepShape(ops: seq<Op>)
    ensures Shape(Run(ops).0) && |Run(ops).0.mem| <= 7 && |Run(ops).0.l0| <= 2
    decreases |ops|
  {
    hide Apply;
    if ops != [] {
      RunsKeepShape(ops[..|ops| - 1]);
      ApplyExact(Run(ops[..|ops| - 1]).0, [], ops[|ops| - 1]);
    }
  }

  lemma {:induction false} FaithfulPrefix(ops: seq<Op>, n: nat)
    requires n <= |ops| && forall i :: 0 <= i < n ==> StepFaithful(Run(ops[..i]).0, ops[i])
    ensures CorrectAfter(ops, n)
    decreases n
  {
    hide Apply, Run, StepFaithful, Correct, Shape;
    if n == 0 {
      EmptyIsCorrect(ops);
    } else {
      FaithfulPrefix(ops, n - 1);
      RunsKeepShape(ops[..n - 1]);
      RunStep(ops, n - 1);
      ApplyExact(Run(ops[..n - 1]).0, Run(ops[..n - 1]).1, ops[n - 1]);
    }
  }

  lemma EmptyIsCorrect(ops: seq<Op>)
    ensures CorrectAfter(ops, 0)
  {
    assert ops[..0] == [];
  }

  /** A run answers every key with its last write after every operation exactly when each compaction in it
      is faithful where it happens. */
  lemma RunsExact(ops: seq<Op>)
    ensures (forall n :: 0 <= n <= |ops| ==> CorrectAfter(ops, n)) <==>
            (forall i :: 0 <= i < |ops| ==> StepFaithful(Run(ops[..i]).0, ops[i]))
  {
    hide Apply, Run, StepFaithful, Correct, Shape;
    if forall i :: 0 <= i < |ops| ==> StepFaithful(Run(ops[..i]).0, ops[i]) {
      forall n | 0 <= n <= |ops| ensures CorrectAfter(ops, n) {
        FaithfulPrefix(ops, n);
      }
    } else {
      var i :| 0 <= i < |ops| && !StepFaithful(Run(ops[..i]).0, ops[i]);
      RunsKeepShape(ops[..i]);
      RunStep(ops, i);
      ApplyExact(Run(ops[..i]).0, Run(ops[..i]).1, ops[i]);
      assert CorrectAfter(ops, i) ==> !CorrectAfter(ops, i + 1);
    }
  }

  // ----- growing timestamps: only level 1 can interfere

  /** Of a stack listed newest first, every layer is newer than the ones after it. */
  predicate NewestFirst(layers: seq<seq<Entry>>)
  {
    layers == [] || (Older(Flatten(layers[1..]), layers[0]) && NewestFirst(layers[1..]))
  }

  /** The time order of the levels. */
  predicate Timed(s: Store, history: seq<Entry>)
  {
    && FromHistory(s.mem, history) && FromHistory(Flatten(s.l0), history) && FromHistory(Flatten(s.l1), history)
    && NewestFirst(s.l0) && AllAscending(s.l0) && DistinctKeys(s.mem) && Older(Flatten(s.l0), s.mem)
    && Older(Flatten(s.l1), Flatten(s.l0)) && Older(Flatten(s.l1), s.mem)
    && (forall e :: e in Flatten(s.l1) ==> !e.tombstone)
  }

  /** No key that a compaction would answer is already in a level-1 table. */
  ghost predicate Harmless(s: Store)
  {
    forall k :: Find(s.mem, k).None? && FindInLayers(s.l0, k).Some? ==> FindInLayers(s.l1, k).None?
  }

  predicate Later(op: Op, history: seq<Entry>)
  {
    op.Record().Some? ==> forall w :: w in history ==> w.ts < op.Record().value.ts
  }

  lemma {:induction false} NewestFirstAnswers(l0: seq<seq<Entry>>, k: Bytes)
    requires NewestFirst(l0) && AllAscending(l0) && FindInLayers(l0, k).Some?
    ensures forall e :: e in Flatten(l0) && e.key == k ==> e.ts <= FindInLayers(l0, k).value.ts
    ensures FindInLayers(l0, k).value in Flatten(l0)
  {
    hide Ascending;
    var first := Find(l0[0], k);
    if first.Some? {
      forall e | e in Flatten(l0) && e.key == k ensures e.ts <= first.value.ts {
        if e in l0[0] {
          assert Ascending(l0[0]);
          Compaction.SameKeySameEntry(l0[0], e, first.value);
        }
      }
    } else {
      NewestFirstAnswers(l0[1..], k);
      FindNone(l0[0], k);
    }
  }

  lemma FoundIn(layers: seq<seq<Entry>>, k: Bytes)
    requires FindInLayers(layers, k).Some?
    ensures FindInLayers(layers, k).value in Flatten(layers)
  {
    LayersFlatten(layers, k);
  }

  /** Then a compaction is faithful exactly when it takes down no key that level 1 has. */
  lemma FaithfulExact(s: Store, history: seq<Entry>)
    requires Timed(s, history)
    ensures Faithful(s) <==> Harmless(s)
  {
    hide FindInLayers, Find, NewestFirst, AllAscending, DistinctKeys, Compaction.Newest, Flatten, AnswersAlike;
    forall k | Find(s.mem, k).None? && FindInLayers(s.l0, k).Some?
      ensures AnswersAlike(s, k) <==> FindInLayers(s.l1, k).None?
    {
      AlikeExact(s, k);
      NewestFirstAnswers(s.l0, k);
      MergedExact(s.l0, k);
      if FindInLayers(s.l1, k).Some? {
        FoundIn(s.l1, k);
      }
    }
  }

  lemma NewestFirstCons(l: seq<Entry>, layers: seq<seq<Entry>>)
    requires NewestFirst(layers) && Older(Flatten(layers), l)
    ensures NewestFirst([l] + layers)
  {
    assert ([l] + layers)[1..] == layers;
  }

  lemma NothingFirst()
    ensures NewestFirst([]) && Flatten<Entry>([]) == []
  {}

  lemma FlushedKeepsTime(s: Store, history: seq<Entry>)
    requires Timed(s, history)
    ensures Timed(Flushed(s), history)
  {
    hide Compaction.StableSort, Ascending, NewestFirst;
    var sorted := Compaction.StableSort(s.mem);
    SortedDistinct(s.mem);
    OneLayer(sorted, []);
    FlattenConcat([sorted], s.l0);
    NewestFirstCons(sorted, s.l0);
  }

  lemma CompactKeepsTime(s: Store, history: seq<Entry>)
    requires Timed(s, history) && |s.l0| >= 2
    ensures Timed(Compact(s), history)
  {
    hide Merged, Ascending, DistinctKeys, NewestFirst;
    MergedExact(s.l0, []);
    FlattenSnoc(s.l1, Merged(s.l0));
    NothingFirst();
  }

  /** The new write may join whatever comes from the history, and is newer than all of it. */
  lemma SetKeepsTime(s: Store, history: seq<Entry>, e: Entry)
    requires Timed(s, history) && forall w :: w in history ==> w.ts < e.ts
    ensures Timed(s.(mem := SetKey(s.mem, e)), history + [e])
  {
    hide SetKey, NewestFirst, AllAscending, Flatten;
    SetKeyParts(s.mem, e, e.key);
    SetKeyDistinct(s.mem, e);
    hide DistinctKeys;
  }

  lemma FlushKeepsTime(s: Store, history: seq<Entry>)
    requires Timed(s, history)
    ensures Timed(Flush(s), history)
  {
    hide Timed;
    FlushedKeepsTime(s, history);
    if |Flushed(s).l0| >= L0_LIMIT {
      CompactKeepsTime(Flushed(s), history);
    }
    hide Compact, Compaction.StableSort;
  }

  lemma ApplyKeepsTime(s: Store, history: seq<Entry>, op: Op)
    requires Timed(s, history) && Later(op, history)
    ensures Timed(Apply(s, op), Grow(history, op))
    ensures Compacting(s, op).Some? ==> (Faithful(Compacting(s, op).value) <==> Harmless(Compacting(s, op).value))
  {
    hide Timed, Flush, SetKey, Faithful, Harmless;
    match op {
      case CompactNow =>
        FaithfulExact(s, history);
        if |s.l0| >= 2 {
          CompactKeepsTime(s, history);
        }
      case FlushNow =>
        FlushKeepsTime(s, history);
        FlushedKeepsTime(s, history);
        FaithfulExact(Flushed(s), history);
      case _ =>
        var e := op.Record().value;
        var t := s.(mem := SetKey(s.mem, e));
        SetKeepsTime(s, history, e);
        FlushKeepsTime(t, history + [e]);
        FlushedKeepsTime(t, history + [e]);
        FaithfulExact(Flushed(t), history + [e]);
    }
    hide Flushed, Compact;
  }

  /** Timestamps increase, and no operation compacts a key that level 1 already holds. */
  ghost predicate GoodRun(ops: seq<Op>)
  {
    forall i :: 0 <= i < |ops| ==>
      var (s, history) := Run(ops[..i]);
      Later(ops[i], history) && (Compacting(s, ops[i]).Some? ==> Harmless(Compacting(s, ops[i]).value))
  }

  lemma {:induction false} GoodRunsAreTimed(ops: seq<Op>, n: nat)
    requires GoodRun(ops) && n <= |ops|
    ensures Timed(Run(ops[..n]).0, Run(ops[..n]).1)
    decreases n
  {
    hide Timed, Apply, Run, Compacting, Later;
    if n == 0 {
      EmptyIsTimed(ops);
    } else {
      GoodRunsAreTimed(ops, n - 1);
      RunStep(ops, n - 1);
      ApplyKeepsTime(Run(ops[..n - 1]).0, Run(ops[..n - 1]).1, ops[n - 1]);
    }
  }

  lemma EmptyIsTimed(ops: seq<Op>)
    ensures Timed(Run(ops[..0]).0, Run(ops[..0]).1)
  {
    assert ops[..0] == [];
    NothingFirst();
  }

  /** After every operation of a good run, get returns the last write of each key. */
  lemma RunsAreCorrect(ops: seq<Op>, n: nat)
    requires GoodRun(ops) && n <= |ops|
    ensures CorrectAfter(ops, n) && |Run(ops[..n]).0.mem| <= 7 && |Run(ops[..n]).0.l0| <= 2
  {
    hide Run, Correct, Timed, Compacting, Faithful, Harmless, Later;
    forall i | 0 <= i < |ops| ensures StepFaithful(Run(ops[..i]).0, ops[i]) {
      GoodRunsAreTimed(ops, i);
      ApplyKeepsTime(Run(ops[..i]).0, Run(ops[..i]).1, ops[i]);
    }
    FaithfulPrefix(ops, n);
    RunsKeepShape(ops[..n]);
  }

  // ----- runs that go wrong

  /** All operations before were faithful. */
  ghost predicate Reaches(ops: seq<Op>, s: Store, history: seq<Entry>)
  {
    Run(ops) == (s, history) && forall i :: 0 <= i < |ops| ==> StepFaithful(Run(ops[..i]).0, ops[i])
  }

  /** Right after every operation but the last, when key k is answered with the write was, though its last
      write is now. */
  ghost predicate GoesWrong(ops: seq<Op>, k: Bytes, was: Option<Entry>, now: Option<Entry>)
  {
    && was != now && (forall n :: 0 <= n < |ops| ==> CorrectAfter(ops, n))
    && Get(Run(ops).0, k) == was && Live(Latest(Run(ops).1, k)) == now
  }

  lemma Extend(ops: seq<Op>, s: Store, history: seq<Entry>, op: Op)
    requires Reaches(ops, s, history) && StepFaithful(s, op)
    ensures Reaches(ops + [op], Apply(s, op), Grow(history, op))
  {
    hide Run, Apply, StepFaithful;
    var more := ops + [op];
    assert more[..|ops|] == ops && more[..|ops| + 1] == more;
    RunStep(more, |ops|);
    forall i | 0 <= i < |more| ensures StepFaithful(Run(more[..i]).0, more[i]) {
      assert i < |ops| ==> more[..i] == ops[..i];
    }
  }

  lemma Finish(ops: seq<Op>, s: Store, history: seq<Entry>, op: Op, k: Bytes)
    requires Reaches(ops, s, history) && Get(Apply(s, op), k) != Live(Latest(Grow(history, op), k))
    ensures GoesWrong(ops + [op], k, Get(Apply(s, op), k), Live(Latest(Grow(history, op), k)))
  {
    hide Run, Apply, StepFaithful, Correct, Get, Latest;
    var more := ops + [op];
    assert more[..|ops|] == ops && more[..|ops| + 1] == more;
    RunStep(more, |ops|);
    forall n | 0 <= n < |more| ensures CorrectAfter(more, n) {
      assert more[..n] == ops[..n];
      FaithfulPrefix(ops, n);
    }
  }

  /** A put and a flush of it. */
  lemma PutFlush(ops: seq<Op>, l0: seq<seq<Entry>>, l1: seq<seq<Entry>>, history: seq<Entry>, e: Entry)
    requires Reaches(ops, Store([], l0, l1), history) && |l0| < 2 && !e.tombstone
    ensures Reaches(ops + [Put(e.key, e.value, e.ts), FlushNow], Store([], [[e]] + l0, l1), history + [e])
  {
    hide Reaches, Faithful;
    var s, op := Store([], l0, l1), Put(e.key, e.value, e.ts);
    var t := Store([e], l0, l1);
    assert Apply(s, op) == t;
    Extend(ops, s, history, op);
    assert [e][..0] == [] && Compaction.StableSort([e]) == Compaction.Place(Compaction.StableSort([]), e) == [e];
    assert Apply(t, FlushNow) == Store([], [[e]] + l0, l1);
    Extend(ops + [op], t, history + [e], FlushNow);
    assert ops + [op] + [FlushNow] == ops + [op, FlushNow];
  }

  /** Two tables of one record each. */
  lemma TwoLayers(b: Entry, a: Entry, k: Bytes)
    ensures Flatten([[b], [a]]) == [b, a]
    ensures FindInLayers([[b], [a]], k) == if b.key == k then Some(b) else if a.key == k then Some(a) else None
    ensures Compaction.Newest([b, a], k) ==
            if b.key == k && (a.key != k || b.ts >= a.ts) then Some(b) else if a.key == k then Some(a) else None
  {
    assert [[b], [a]][1..] == [[a]] && [[a]][1..] == [] && [a] + [] == [a];
    assert Flatten([[a]]) == [a] + Flatten<Entry>([]);
    assert Find([a], k) == (if a.key == k then Some(a) else None) &&
           Find([b], k) == (if b.key == k then Some(b) else None);
    assert FindInLayers([[a]], k) == if a.key == k then Some(a) else None;
    assert [b, a][1..] == [a] && [a][1..] == [];
    assert Compaction.Newest([a], k) == if a.key == k then Some(a) else None;
  }

  function PutOp(e: Entry): seq<Op> { [Put(e.key, e.value, e.ts), FlushNow] }

  /** A key is written and compacted, and again: level 1 keeps answering with the older write. */
  lemma Level1Conflict(a: Entry, b: Entry, again: Entry, c: Entry)
    requires a == Entry([1], [10], false, 1) && b == Entry([2], [20], false, 2)
    requires again == Entry([1], [11], false, 3) && c == Entry([3], [30], false, 4)
    ensures GoesWrong(PutOp(a) + PutOp(b) + [CompactNow] + PutOp(again) + PutOp(c) + [CompactNow],
                      [1], Some(a), Some(again))
  {
    hide Reaches, GoesWrong, Run, Apply, Get, Merged, StepFaithful;
    RunStart();
    TwoPuts([], [], [], a, b);
    var ops := PutOp(a) + PutOp(b);
    assert [] + PutOp(a) + PutOp(b) == ops && [] + [a, b] == [a, b];
    var s := Store([], [[b], [a]], []);
    FirstCompaction(s, a, b);
    Extend(ops, s, [a, b], CompactNow);
    var m := Merged([[b], [a]]);
    TwoPuts(ops + [CompactNow], [m], [a, b], again, c);
    assert [a, b] + [again, c] == [a, b, again, c];
    var t := Store([], [[c], [again]], [m]);
    SecondCompaction(t, a, b, again, c);
    Finish(ops + [CompactNow] + PutOp(again) + PutOp(c), t, [a, b, again, c], CompactNow, [1]);
  }

  lemma RunStart()
    ensures Reaches([], EMPTY, [])
  {}

  lemma TwoPuts(ops: seq<Op>, l1: seq<seq<Entry>>, history: seq<Entry>, a: Entry, b: Entry)
    requires Reaches(ops, Store([], [], l1), history)
    requires !a.tombstone && !b.tombstone
    ensures Reaches(ops + PutOp(a) + PutOp(b), Store([], [[b], [a]], l1), history + [a, b])
  {
    hide Reaches;
    PutFlush(ops, [], l1, history, a);
    assert [[a]] + [] == [[a]];
    PutFlush(ops + PutOp(a), [[a]], l1, history + [a], b);
    assert [[b]] + [[a]] == [[b], [a]] && history + [a] + [b] == history + [a, b];
  }

  lemma FirstCompaction(s: Store, a: Entry, b: Entry)
    requires s == Store([], [[b], [a]], []) && a.key != b.key && !a.tombstone && !b.tombstone
    ensures StepFaithful(s, CompactNow)
    ensures Apply(s, CompactNow) == Store([], [], [Merged([[b], [a]])])
    ensures Find(Merged([[b], [a]]), a.key) == Some(a)
  {
    hide Merged, Compaction.Newest, Flatten;
    MergedExact([[b], [a]], a.key);
    TwoLayers(b, a, a.key);
    assert [] + [Merged([[b], [a]])] == [Merged([[b], [a]])];
    forall k ensures Live(FindInLayers(s.l0, k)) == Live(Compaction.Newest(Flatten(s.l0), k)) {
      TwoLayers(b, a, k);
    }
  }

  lemma SecondCompaction(t: Store, a: Entry, b: Entry, again: Entry, c: Entry)
    requires t == Store([], [[c], [again]], [Merged([[b], [a]])])
    requires a.key == again.key == [1] && b.key == [2] && c.key == [3]
    requires !a.tombstone && !b.tombstone && !again.tombstone && !c.tombstone
    ensures Get(Apply(t, CompactNow), [1]) == Some(a)
    ensures Live(Latest([a, b, again, c], [1])) == Some(again)
  {
    hide Merged, Compact, Compaction.Newest;
    GetCompact(t, [1]);
    MergedExact([[b], [a]], [1]);
    TwoLayers(b, a, [1]);
    OneLayer(Merged([[b], [a]]), [1]);
    assert Find([], [1]) == None;
    assert [a, b, again, c][..3] == [a, b, again];
  }

  /** The clock falls between two puts of a key: the compaction keeps the older write. */
  lemma FallingClock(a: Entry, again: Entry)
    requires a == Entry([1], [10], false, 5) && again == Entry([1], [11], false, 3)
    ensures GoesWrong(PutOp(a) + PutOp(again) + [CompactNow], [1], Some(a), Some(again))
  {
    hide Reaches, GoesWrong, Run, Apply, Get, StepFaithful;
    RunStart();
    TwoPuts([], [], [], a, again);
    assert [] + PutOp(a) + PutOp(again) == PutOp(a) + PutOp(again) && [] + [a, again] == [a, again];
    var s := Store([], [[again], [a]], []);
    ClockAnswer(s, a, again);
    Finish(PutOp(a) + PutOp(again), s, [a, again], CompactNow, [1]);
  }

  lemma ClockAnswer(s: Store, a: Entry, again: Entry)
    requires s == Store([], [[again], [a]], [])
    requires a == Entry([1], [10], false, 5) && again == Entry([1], [11], false, 3)
    ensures Get(Apply(s, CompactNow), [1]) == Some(a) && Live(Latest([a, again], [1])) == Some(again)
  {
    hide Merged, Compact, Compaction.Newest;
    GetCompact(s, [1]);
    TwoLayers(again, a, [1]);
    assert Find([], [1]) == None && FindInLayers([], [1]) == None;
  }
}
