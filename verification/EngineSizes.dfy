/** When memtables rotate (go/pkg/lsm/engine.go), over whole runs of writes: each write is followed by the
    test that Put and Delete of the engine object are proved to make. */
module EngineSizes {
  import opened Bytes
  import opened Entries
  import opened SkipList

  /** A memtable: its records in key order, and the heights of their towers. */
  datatype Mem = Mem(entries: seq<Entry>, heights: seq<nat>)

  datatype Write = Write(e: Entry, height: nat)

  predicate Formed(m: Mem) { |m.entries| == |m.heights| && Ascending(m.entries) }

  function Size(m: Mem): int
    requires Formed(m)
  {
    Footprint(m.entries, m.heights)
  }

  function Grown(m: Mem, w: Write): (r: Mem)
    requires Formed(m)
    ensures Formed(r)
  {
    AscendingUpsert(m.entries, w.e);
    Mem(Upsert(m.entries, w.e), HeightsAfter(m.entries, m.heights, w.e.key, w.height))
  }

  /** The active memtable, the rotated ones, oldest first, and the writes that each of those received. */
  datatype Memory = Memory(active: Mem, rotated: seq<Mem>)

  const FRESH: Mem := Mem([], [])

  function After(s: Memory, w: Write, limit: int): Memory
    requires Formed(s.active)
  {
    var grown := Grown(s.active, w);
    if Size(grown) >= limit then Memory(FRESH, s.rotated + [grown]) else Memory(grown, s.rotated)
  }

  function Run(s: Memory, ws: seq<Write>, limit: int): (r: Memory)
    requires Formed(s.active)
    ensures Formed(r.active)
  {
    if ws == [] then s else After(Run(s, ws[..|ws| - 1], limit), ws[|ws| - 1], limit)
  }

  /** Never is a memtable kept that has reached the limit, and never is one rotated that has not: after
      every write the active memtable is below it, and what has been rotated was at it or above. */
  lemma {:induction false} RotatesAtLimit(s: Memory, ws: seq<Write>, limit: int)
    requires Formed(s.active) && limit > 0
    requires forall m :: m in s.rotated ==> Formed(m) && Size(m) >= limit
    ensures var r := Run(s, ws, limit);
      && (ws != [] ==> Size(r.active) < limit)
      && s.rotated <= r.rotated && forall m :: m in r.rotated ==> Formed(m) && Size(m) >= limit
    decreases |ws|
  {
    hide Footprint, Upsert, HeightsAfter, Ascending;
    if ws != [] {
      RotatesAtLimit(s, ws[..|ws| - 1], limit);
      assert Size(FRESH) == 0 by { NothingCounted(); }
    }
  }

  lemma NothingCounted()
    ensures Formed(FRESH) && Size(FRESH) == 0
  {}

  /** The writes that memtables received, in order, are all the writes, each once: those of the rotated ones
      one after the other, then those of the active one. */
  function Replayed(ws: seq<Write>): (m: Mem)
    ensures Formed(m)
  {
    if ws == [] then FRESH else Grown(Replayed(ws[..|ws| - 1]), ws[|ws| - 1])
  }

  /** A rotated memtable holds what its part of the writes left, and it was the last of them that took it to
      the limit. */
  ghost predicate Received(m: Mem, part: seq<Write>, limit: int)
  {
    part != [] && m == Replayed(part) && Size(Replayed(part[..|part| - 1])) < limit <= Size(m)
  }

  ghost predicate SplitsInto(ws: seq<Write>, parts: seq<seq<Write>>, s: Memory, limit: int)
  {
    && |parts| == |s.rotated| + 1
    && Flatten(parts) == ws
    && (forall i :: 0 <= i < |s.rotated| ==> Received(s.rotated[i], parts[i], limit))
    && s.active == Replayed(parts[|s.rotated|]) && Size(s.active) < limit
  }

  lemma {:induction false} WritesAreSplit(ws: seq<Write>, limit: int) returns (parts: seq<seq<Write>>)
    requires limit > 0
    ensures Formed(FRESH) && SplitsInto(ws, parts, Run(Memory(FRESH, []), ws, limit), limit)
    decreases |ws|
  {
    NothingCounted();
    hide Grown, Formed, Size, Flatten;
    if ws == [] {
      parts := [[]];
      NothingWritten();
    } else {
      var w := ws[|ws| - 1];
      var s := Run(Memory(FRESH, []), ws[..|ws| - 1], limit);
      var before := WritesAreSplit(ws[..|ws| - 1], limit);
      var n := |s.rotated|;
      var last := before[n] + [w];
      assert last[..|last| - 1] == before[n];
      ExtendLast(before, w);
      assert ws == ws[..|ws| - 1] + [w];
      parts := before[..n] + [last];
      if Size(Grown(s.active, w)) >= limit {
        EmptyPart(parts);
        parts := parts + [[]];
      }
    }
  }

  lemma NothingWritten()
    ensures Flatten<Write>([[]]) == []
  {}

  lemma ExtendLast(parts: seq<seq<Write>>, w: Write)
    requires parts != []
    ensures var n := |parts| - 1; Flatten(parts[..n] + [parts[n] + [w]]) == Flatten(parts) + [w]
  {
    var n := |parts| - 1;
    hide Flatten;
    FlattenSnoc(parts[..n], parts[n] + [w]);
    FlattenSnoc(parts[..n], parts[n]);
    assert parts == parts[..n] + [parts[n]];
    PlusAssociates(Flatten(parts[..n]), parts[n], [w]);
  }

  lemma EmptyPart(parts: seq<seq<Write>>)
    ensures Flatten(parts + [[]]) == Flatten(parts)
  {
    hide Flatten;
    FlattenSnoc(parts, []);
    assert Flatten(parts) + [] == Flatten(parts);
  }
}
