/** The memtable of go/pkg/lsm/skiplist.go: a 16-level skip list of linked nodes. */
module SkipList {
  import opened Bytes
  import opened Entries

  const MAX_LEVEL: nat := 16

  class Node {
    const key: Bytes
    var value: Bytes
    var tombstone: bool
    var ts: int
    const forward: array<Node?>

    constructor (key: Bytes, value: Bytes, tombstone: bool, ts: int, height: nat)
      ensures this.key == key && this.value == value && this.tombstone == tombstone && this.ts == ts
      ensures fresh(forward) && forward.Length == height
      ensures forall l :: 0 <= l < height ==> forward[l] == null
    {
      this.key, this.value, this.tombstone, this.ts := key, value, tombstone, ts;
      forward := new Node?[height](_ => null);
    }

    function Record(): Entry
      reads this
    {
      Entry(key, value, tombstone, ts)
    }
  }

  ghost function Records(nodes: seq<Node>): (r: seq<Entry>)
    reads nodes
    ensures |r| == |nodes| && forall i :: 0 <= i < |nodes| ==> r[i] == nodes[i].Record()
  {
    if nodes == [] then [] else [nodes[0].Record()] + Records(nodes[1..])
  }

  // ----- towers, seen as a sequence of heights

  /** The next position after i whose tower rises above level l, or the end. */
  function NextUp(hs: seq<nat>, i: nat, l: nat): (r: nat)
    requires i < |hs|
    ensures i < r <= |hs|
    ensures r < |hs| ==> hs[r] > l
    ensures forall j :: i < j < r ==> hs[j] <= l
    decreases |hs| - i
  {
    if i + 1 == |hs| then |hs| else if hs[i + 1] > l then i + 1 else NextUp(hs, i + 1, l)
  }

  lemma NextUpUnique(hs: seq<nat>, i: nat, l: nat, r: nat)
    requires i < r <= |hs|
    requires r < |hs| ==> hs[r] > l
    requires forall j :: i < j < r ==> hs[j] <= l
    ensures NextUp(hs, i, l) == r
    decreases |hs| - i
  {
    if i + 1 < |hs| && hs[i + 1] <= l {
      NextUpUnique(hs, i + 1, l, r);
    }
  }

  function Inserted<T>(s: seq<T>, p: nat, x: T): (r: seq<T>)
    requires p <= |s|
    ensures |r| == |s| + 1
  {
    s[..p] + [x] + s[p..]
  }

  /** Where the pointers lead after a tower of height h is inserted at position p. */
  lemma NextUpInserted(hs: seq<nat>, p: nat, h: nat, i: nat, l: nat)
    requires 0 < p <= |hs| && i < |hs| + 1
    ensures var hs' := Inserted(hs, p, h);
      NextUp(hs', i, l) ==
        if i < p then (var n := NextUp(hs, i, l); if n < p then n else if h > l then p else n + 1)
        else NextUp(hs, i - 1, l) + 1
  {
    var hs' := Inserted(hs, p, h);
    assert forall j :: 0 <= j < p ==> hs'[j] == hs[j];
    assert hs'[p] == h;
    assert forall j :: p < j < |hs'| ==> hs'[j] == hs[j - 1];
    var n := if i < p then NextUp(hs, i, l) else NextUp(hs, i - 1, l);
    var r := if i < p then (if n < p then n else if h > l then p else n + 1) else n + 1;
    NextUpUnique(hs', i, l, r);
  }

  function Heights(nodes: seq<Node>): (r: seq<nat>)
    ensures |r| == |nodes| && forall i :: 0 <= i < |nodes| ==> r[i] == nodes[i].forward.Length
  {
    seq(|nodes|, i requires 0 <= i < |nodes| => nodes[i].forward.Length)
  }

  function At(nodes: seq<Node>, i: nat): Node?
    requires i <= |nodes|
  {
    if i < |nodes| then nodes[i] else null
  }

  /** Where position i's pointer on level l should lead. */
  function Target(nodes: seq<Node>, i: nat, l: nat): Node?
    requires i < |nodes|
  {
    At(nodes, NextUp(Heights(nodes), i, l))
  }

  function Arrays(nodes: seq<Node>): set<array<Node?>> { set i | 0 <= i < |nodes| :: nodes[i].forward }

  /** On every level the pointers visit exactly the nodes whose towers reach it, in order. */
  ghost predicate LinkedList(nodes: seq<Node>)
    reads Arrays(nodes)
  {
    forall i, l :: 0 <= i < |nodes| && 0 <= l < nodes[i].forward.Length ==>
      nodes[i].forward[l] == Target(nodes, i, l)
  }

  /** Position u, where node n stands, is the last before p whose tower rises above level l. */
  predicate Precedes(nodes: seq<Node>, u: nat, n: Node?, l: nat, p: nat)
  {
    u < p <= |nodes| && nodes[u] == n && l < nodes[u].forward.Length && NextUp(Heights(nodes), u, l) >= p
  }

  /** The first n levels of x have been spliced in after the positions us. */
  ghost predicate Spliced(nodes: seq<Node>, x: Node, us: seq<nat>, n: nat)
    reads Arrays(nodes), x.forward
  {
    && n <= |us| && n <= x.forward.Length
    && (forall l :: 0 <= l < n ==> us[l] < |nodes| && x.forward[l] == Target(nodes, us[l], l))
    && (forall i, l :: 0 <= i < |nodes| && 0 <= l < nodes[i].forward.Length ==>
          nodes[i].forward[l] == if l < n && us[l] == i then x else Target(nodes, i, l))
  }

  lemma HeightsInserted(nodes: seq<Node>, p: nat, x: Node)
    requires 0 < p <= |nodes|
    ensures Heights(Inserted(nodes, p, x)) == Inserted<nat>(Heights(nodes), p, x.forward.Length)
    ensures Heights(Inserted(nodes, p, x))[1..] == Inserted<nat>(Heights(nodes)[1..], p - 1, x.forward.Length)
  {}

  /** Two positions before p that both see past p on a level are the same position. */
  lemma LastBefore(nodes: seq<Node>, u: nat, i: nat, l: nat, p: nat)
    requires u < p <= |nodes| && i < p
    requires nodes[u].forward.Length > l && nodes[i].forward.Length > l
    requires NextUp(Heights(nodes), u, l) >= p && NextUp(Heights(nodes), i, l) >= p
    ensures u == i
  {
    var hs := Heights(nodes);
    assert hs[u] > l && hs[i] > l;
  }

  /** Where pointers should lead once x is inserted: to x if they used to lead past p and x is tall
      enough, else where they led before. */
  lemma TargetInserted(nodes: seq<Node>, p: nat, x: Node, i: nat, l: nat)
    requires 0 < p <= |nodes| && i < |nodes| + 1
    ensures Target(Inserted(nodes, p, x), i, l) ==
            if i < p && x.forward.Length > l && NextUp(Heights(nodes), i, l) >= p then x
            else Target(nodes, if i < p then i else i - 1, l)
  {
    hide NextUp, Heights;
    var hs, h := Heights(nodes), x.forward.Length;
    HeightsInserted(nodes, p, x);
    NextUpInserted(hs, p, h, i, l);
    AtInserted(nodes, p, x, NextUp(Inserted(hs, p, h), i, l));
  }

  lemma AtInserted(nodes: seq<Node>, p: nat, x: Node, j: nat)
    requires p <= |nodes| && j <= |nodes| + 1
    ensures At(Inserted(nodes, p, x), j) == if j < p then At(nodes, j) else if j == p then x else At(nodes, j - 1)
  {}

  /** What the new node's own pointer on level l should be. */
  lemma TargetOfNew(nodes: seq<Node>, u: nat, n: Node?, l: nat, p: nat)
    requires Precedes(nodes, u, n, l, p)
    ensures Target(nodes, u, l) == Target(nodes, p - 1, l)
  {
    hide NextUp;
    NextUpUnique(Heights(nodes), p - 1, l, NextUp(Heights(nodes), u, l));
  }

  /** Once every level of the new tower is spliced in, the longer list is correctly linked. */
  lemma SplicedIsLinked(nodes: seq<Node>, x: Node, update: seq<Node?>, us: seq<nat>, p: nat)
    requires 0 < p <= |nodes| && |update| >= x.forward.Length
    requires Spliced(nodes, x, us, x.forward.Length)
    requires forall l :: 0 <= l < x.forward.Length ==> Precedes(nodes, us[l], update[l], l, p)
    ensures LinkedList(Inserted(nodes, p, x))
  {
    hide NextUp, Target, Precedes;
    var nodes' := Inserted(nodes, p, x);
    forall i, l | 0 <= i < |nodes'| && 0 <= l < nodes'[i].forward.Length
      ensures nodes'[i].forward[l] == Target(nodes', i, l)
    {
      TargetInserted(nodes, p, x, i, l);
      if i < p {
        assert nodes'[i] == nodes[i];
        if l < x.forward.Length {
          SeesPast(nodes, us[l], update[l], i, l, p);
        }
      } else if i == p {
        TargetOfNew(nodes, us[l], update[l], l, p);
      } else {
        assert nodes'[i] == nodes[i - 1];
        if l < x.forward.Length {
          PrecedesBefore(nodes, us[l], update[l], l, p);
        }
      }
    }
  }

  lemma PrecedesBefore(nodes: seq<Node>, u: nat, n: Node?, l: nat, p: nat)
    requires Precedes(nodes, u, n, l, p)
    ensures u < p <= |nodes| && n == nodes[u] && l < nodes[u].forward.Length
  {}

  /** Among the positions before p, only the recorded one sees past p on its level. */
  lemma SeesPast(nodes: seq<Node>, u: nat, n: Node?, i: nat, l: nat, p: nat)
    requires Precedes(nodes, u, n, l, p) && i < p && nodes[i].forward.Length > l
    ensures NextUp(Heights(nodes), i, l) >= p <==> i == u
  {
    hide NextUp;
    if NextUp(Heights(nodes), i, l) >= p {
      LastBefore(nodes, u, i, l, p);
    }
  }

  /** Nodes and their pointer arrays are all in repr, and no two share. */
  ghost predicate InOwn(nodes: seq<Node>, repr: set<object>)
  {
    && (forall i :: 0 <= i < |nodes| ==> nodes[i] in repr && nodes[i].forward in repr)
    && (forall i, j :: 0 <= i < j < |nodes| ==> nodes[i] != nodes[j] && nodes[i].forward != nodes[j].forward)
  }

  lemma InOwnInserted(nodes: seq<Node>, repr: set<object>, p: nat, x: Node)
    requires InOwn(nodes, repr) && p <= |nodes| && x !in repr && x.forward !in repr
    ensures InOwn(Inserted(nodes, p, x), repr + {x, x.forward})
  {}

  ghost predicate OwnArrays(nodes: seq<Node>)
  {
    forall i, j :: 0 <= i < j < |nodes| ==> nodes[i].forward != nodes[j].forward
  }

  /** The pointer updates of an insertion: on each level of x, after the node recorded there. */
  method Splice(ghost nodes: seq<Node>, x: Node, update: seq<Node?>, ghost us: seq<nat>, ghost p: nat)
    requires OwnArrays(nodes) && x.forward !in Arrays(nodes) && LinkedList(nodes)
    requires |update| >= x.forward.Length && |us| >= x.forward.Length
    requires forall l :: 0 <= l < x.forward.Length ==> Precedes(nodes, us[l], update[l], l, p)
    modifies Arrays(nodes), x.forward
    ensures Spliced(nodes, x, us, x.forward.Length)
  {
    hide NextUp, Target, Precedes;
    for i := 0 to x.forward.Length
      invariant Spliced(nodes, x, us, i)
    {
      PrecedesBefore(nodes, us[i], update[i], i, p);
      SpliceLevel(nodes, x, update[i], us, i);
    }
  }

  /** Splicing in every level of x links the longer list correctly. */
  method SpliceIn(ghost nodes: seq<Node>, x: Node, update: seq<Node?>, ghost us: seq<nat>, ghost p: nat)
    requires OwnArrays(nodes) && x.forward !in Arrays(nodes) && LinkedList(nodes) && 0 < p <= |nodes|
    requires |update| >= x.forward.Length && |us| >= x.forward.Length
    requires forall l :: 0 <= l < x.forward.Length ==> Precedes(nodes, us[l], update[l], l, p)
    modifies Arrays(nodes), x.forward
    ensures LinkedList(Inserted(nodes, p, x))
  {
    hide Precedes, Spliced, LinkedList, Inserted, OwnArrays;
    Splice(nodes, x, update, us, p);
    SplicedIsLinked(nodes, x, update, us, p);
  }

  method SpliceLevel(ghost nodes: seq<Node>, x: Node, before: Node, ghost us: seq<nat>, i: nat)
    requires OwnArrays(nodes) && x.forward !in Arrays(nodes)
    requires i < |us| && us[i] < |nodes| && nodes[us[i]] == before
    requires i < x.forward.Length && i < before.forward.Length
    requires Spliced(nodes, x, us, i)
    modifies before.forward, x.forward
    ensures Spliced(nodes, x, us, i + 1)
  {
    hide Target;
    x.forward[i] := before.forward[i];
    before.forward[i] := x;
  }

  // ----- the order of the keys; position 0 is the head, whose key does not take part

  predicate KeysAscend(nodes: seq<Node>)
  {
    forall i, j :: 0 < i < j < |nodes| ==> Less(nodes[i].key, nodes[j].key)
  }

  /** p is where the key belongs: everything between the head and p is below it, nothing from p on. */
  predicate IsPosition(nodes: seq<Node>, key: Bytes, p: nat)
  {
    0 < p <= |nodes| && (forall j :: 0 < j < p ==> Less(nodes[j].key, key))
    && (forall j :: p <= j < |nodes| ==> !Less(nodes[j].key, key))
  }

  lemma PositionExists(nodes: seq<Node>, key: Bytes) returns (p: nat)
    requires KeysAscend(nodes) && |nodes| > 0
    ensures IsPosition(nodes, key, p)
  {
    hide Less;
    LessIsStrictTotalOrder();
    p := |nodes|;
    while p > 1 && !Less(nodes[p - 1].key, key)
      invariant 0 < p <= |nodes|
      invariant forall j :: p <= j < |nodes| ==> !Less(nodes[j].key, key)
    {
      p := p - 1;
    }
  }

  /** The head has all 16 levels; no other tower rises above the list's level. */
  predicate Towers(nodes: seq<Node>, level: nat)
  {
    && |nodes| > 0 && nodes[0].forward.Length == MAX_LEVEL
    && 1 <= level <= MAX_LEVEL
    && (forall i :: 0 < i < |nodes| ==> 1 <= nodes[i].forward.Length <= level)
  }

  lemma TowersInserted(nodes: seq<Node>, level: nat, p: nat, x: Node)
    requires Towers(nodes, level) && 0 < p <= |nodes| && 1 <= x.forward.Length <= MAX_LEVEL
    ensures Inserted(nodes, p, x)[0] == nodes[0]
    ensures Towers(Inserted(nodes, p, x), if x.forward.Length > level then x.forward.Length else level)
  {}

  // ----- sizes

  /** The towers after a record is inserted or overwritten: a new key gets the height h, a key that is
      there keeps its own. */
  function HeightsAfter(es: seq<Entry>, hs: seq<nat>, k: Bytes, h: nat): (r: seq<nat>)
    requires |es| == |hs|
    ensures forall e: Entry :: e.key == k ==> |r| == |Upsert(es, e)|
  {
    if es == [] then [h]
    else if es[0].key == k then hs
    else if Less(es[0].key, k) then [hs[0]] + HeightsAfter(es[1..], hs[1..], k, h)
    else [h] + hs
  }

  lemma {:induction false} HeightsAt(es: seq<Entry>, hs: seq<nat>, k: Bytes, h: nat, p: nat)
    requires |es| == |hs| && p <= |es|
    requires forall i :: 0 <= i < p ==> Less(es[i].key, k)
    requires forall i :: p <= i < |es| ==> !Less(es[i].key, k)
    ensures HeightsAfter(es, hs, k, h) == if p < |es| && es[p].key == k then hs else Inserted(hs, p, h)
  {
    hide Less, HeightsAfter;
    InsertedNext(hs, p, h);
    HeightsNext(es, hs, k, h);
    hide Inserted<nat>;
    if p > 0 {
      HeightsAt(es[1..], hs[1..], k, h, p - 1);
    }
  }

  lemma HeightsNext(es: seq<Entry>, hs: seq<nat>, k: Bytes, h: nat)
    requires |es| == |hs|
    ensures HeightsAfter(es, hs, k, h) ==
            if es == [] || !Less(es[0].key, k) then (if es != [] && es[0].key == k then hs else [h] + hs)
            else [hs[0]] + HeightsAfter(es[1..], hs[1..], k, h)
    ensures es != [] ==> hs == [hs[0]] + hs[1..]
  {
    LessIsStrictTotalOrder();
    hide Less;
  }

  lemma InsertedNext(hs: seq<nat>, p: nat, h: nat)
    requires p <= |hs|
    ensures Inserted(hs, p, h) == if p == 0 then [h] + hs else [hs[0]] + Inserted(hs[1..], p - 1, h)
  {}

  /** What sizeBytes is meant to count. */
  function Footprint(es: seq<Entry>, hs: seq<nat>): int
    requires |es| == |hs|
  {
    if es == [] then 0 else |es[0].key| + |es[0].value| + 8 * hs[0] + 32 + Footprint(es[1..], hs[1..])
  }

  lemma {:induction false} FootprintInserted(es: seq<Entry>, hs: seq<nat>, p: nat, e: Entry, h: nat)
    requires |es| == |hs| && p <= |es|
    ensures Footprint(Inserted(es, p, e), Inserted(hs, p, h)) ==
            Footprint(es, hs) + |e.key| + |e.value| + 8 * h + 32
    decreases p
  {
    var es', hs' := Inserted(es, p, e), Inserted(hs, p, h);
    if p == 0 {
      assert es'[1..] == es && hs'[1..] == hs;
    } else {
      FootprintInserted(es[1..], hs[1..], p - 1, e, h);
      assert es'[1..] == Inserted(es[1..], p - 1, e) && hs'[1..] == Inserted(hs[1..], p - 1, h);
    }
  }

  lemma {:induction false} FootprintUpdated(es: seq<Entry>, hs: seq<nat>, p: nat, e: Entry)
    requires |es| == |hs| && p < |es| && es[p].key == e.key
    ensures Footprint(es[p := e], hs) == Footprint(es, hs) - |es[p].value| + |e.value|
    decreases p
  {
    if p == 0 {
      assert es[0 := e][1..] == es[1..];
    } else {
      FootprintUpdated(es[1..], hs[1..], p - 1, e);
      assert es[p := e][1..] == es[1..][p - 1 := e];
    }
  }

  /** A write of a new key adds its key, its value, eight bytes a level and 32; an overwrite, a deletion
      included, adds the difference of the values; and an empty list counts nothing. */
  lemma {:induction false} FootprintUpsert(es: seq<Entry>, hs: seq<nat>, e: Entry, h: nat)
    requires |es| == |hs| && Ascending(es)
    ensures Footprint([], []) == 0
    ensures Footprint(Upsert(es, e), HeightsAfter(es, hs, e.key, h)) - Footprint(es, hs) ==
            var was := Find(es, e.key);
            if was.Some? then |e.value| - |was.value.value| else |e.key| + |e.value| + 8 * h + 32
  {
    hide Less;
    LessIsStrictTotalOrder();
    if es != [] {
      if es[0].key == e.key {
        assert ([e] + es[1..])[1..] == es[1..];
      } else if Less(es[0].key, e.key) {
        FootprintUpsert(es[1..], hs[1..], e, h);
        var t, g := Upsert(es[1..], e), HeightsAfter(es[1..], hs[1..], e.key, h);
        assert ([es[0]] + t)[1..] == t && ([hs[0]] + g)[1..] == g;
      } else {
        FindNone(es, e.key);
        assert ([e] + es)[1..] == es && ([h] + hs)[1..] == hs;
      }
    } else {
      assert [e][1..] == [] && [h][1..] == [];
    }
  }

  class Memtable {
    const head: Node
    var level: nat
    var sizeBytes: int
    var count: nat
    /** The head and then every node, in key order: the list on level 0. */
    ghost var nodes: seq<Node>
    ghost var Repr: set<object>

    ghost predicate Owned()
      reads this
    {
      this in Repr && InOwn(nodes, Repr)
    }

    ghost predicate Shaped()
      reads this
    {
      |nodes| > 0 && nodes[0] == head && Towers(nodes, level) && KeysAscend(nodes)
    }

    ghost predicate Linked()
      reads this, Repr
      requires Owned()
    {
      LinkedList(nodes)
    }

    ghost predicate Counted()
      reads this, Repr
      requires Owned() && |nodes| > 0
    {
      count == |nodes| - 1 && sizeBytes == Footprint(Contents(), TowerHeights())
    }

    ghost predicate Valid()
      reads this, Repr
      ensures Valid() ==> this in Repr
    {
      Owned() && Shaped() && Linked() && Counted()
    }

    /** The records, in key order. */
    ghost function Contents(): (r: seq<Entry>)
      reads this, Repr
      requires Owned() && |nodes| > 0
      ensures |r| == |nodes| - 1 && forall i :: 0 <= i < |r| ==> r[i] == nodes[i + 1].Record()
    {
      Records(nodes[1..])
    }

    /** The heights of their towers, which never change. */
    ghost function TowerHeights(): (r: seq<nat>)
      reads this
      requires |nodes| > 0
      ensures |r| == |nodes| - 1
    {
      Heights(nodes)[1..]
    }

    constructor ()
      ensures Valid() && fresh(Repr) && Contents() == [] && TowerHeights() == []
    {
      head := new Node([], [], false, 0, MAX_LEVEL);
      level, sizeBytes, count := 1, 0, 0;
      new;
      nodes := [head];
      Repr := {this, head, head.forward};
    }

    /** On level 0 every node is the next one. */
    lemma NextOnGround(i: nat)
      requires Valid() && i < |nodes|
      ensures NextUp(Heights(nodes), i, 0) == i + 1
    {}

    lemma ContentsAscend()
      requires Valid()
      ensures Ascending(Contents())
    {}

    /** One level of the descent: move right while the next key is smaller. */
    method AdvanceOn(l: nat, start: Node, key: Bytes, ghost c: nat, ghost p: nat) returns (curr: Node, ghost u: nat)
      requires Valid() && IsPosition(nodes, key, p)
      requires c < p && nodes[c] == start && l < start.forward.Length
      ensures u < p && nodes[u] == curr && l < curr.forward.Length
      ensures NextUp(Heights(nodes), u, l) >= p
    {
      hide Less, KeysAscend;
      curr, u := start, c;
      while curr.forward[l] != null && Less(curr.forward[l].key, key)
        invariant u < p && nodes[u] == curr && l < curr.forward.Length
        decreases |nodes| - u
      {
        assert curr.forward[l] == Target(nodes, u, l);
        u := NextUp(Heights(nodes), u, l);
        curr := curr.forward[l];
      }
      assert curr.forward[l] == Target(nodes, u, l);
    }

    /** The descent of Get: from the top level down, ending just before the key's position. */
    method Descend(key: Bytes, ghost p: nat) returns (next: Node?)
      requires Valid() && IsPosition(nodes, key, p)
      ensures next == At(nodes, p)
    {
      hide Less, KeysAscend, Counted, NextUp;
      var curr := head;
      ghost var c: nat := 0;
      for i := level downto 0
        invariant c < p && nodes[c] == curr && i <= curr.forward.Length
        invariant i == 0 ==> c == p - 1
      {
        curr, c := AdvanceOn(i, curr, key, c, p);
        NextOnGround(c);
      }
      NextOnGround(c);
      return curr.forward[0];
    }

    /** Get agrees with the sorted list. */
    method Get(key: Bytes) returns (value: Bytes, tombstone: bool, found: bool)
      requires Valid()
      ensures found <==> Find(Contents(), key).Some?
      ensures found ==> tombstone == Find(Contents(), key).value.tombstone
      ensures found && !tombstone ==> value == Find(Contents(), key).value.value
      ensures !found || tombstone ==> value == []
      ensures !found ==> !tombstone
    {
      hide Less, KeysAscend, Counted, Linked;
      ghost var p := PositionExists(nodes, key);
      var curr := Descend(key, p);
      FoundAt(key, p);
      if curr != null && curr.key == key {
        if curr.tombstone {
          return [], true, true;
        }
        return curr.value, false, true;
      }
      return [], false, false;
    }

    /** The node at the key's position decides whether the key is present. */
    lemma FoundAt(key: Bytes, p: nat)
      requires Valid() && IsPosition(nodes, key, p)
      ensures Find(Contents(), key) ==
              if p < |nodes| && nodes[p].key == key then Some(nodes[p].Record()) else None
    {
      hide Less, KeysAscend, Linked, Counted;
      ContentsAscend();
      ContentsPosition(key, p);
      FindAtPosition(Contents(), key, p - 1);
    }

    /** The position among the nodes is the position among the records, shifted by the head. */
    lemma ContentsPosition(key: Bytes, p: nat)
      requires Valid() && IsPosition(nodes, key, p)
      ensures forall i :: 0 <= i < p - 1 ==> Less(Contents()[i].key, key)
      ensures forall i :: p - 1 <= i < |Contents()| ==> !Less(Contents()[i].key, key)
    {
      hide Less, KeysAscend, Linked, Counted;
    }

    // ----- writing

    /** The descent of Put and Delete, which remembers where it turned down on each level. */
    method DescendRecording(key: Bytes)
      returns (next: Node?, update: seq<Node?>, ghost us: seq<nat>, ghost p: nat)
      requires Valid()
      ensures IsPosition(nodes, key, p) && 0 < p <= |nodes| && next == At(nodes, p)
      ensures next != null ==> next in Repr
      ensures |update| == MAX_LEVEL && |us| == level
      ensures forall l :: 0 <= l < level ==> Precedes(nodes, us[l], update[l], l, p)
    {
      hide Less, KeysAscend, Counted, NextUp, Precedes, Linked;
      p := PositionExists(nodes, key);
      update, us := seq(MAX_LEVEL, _ => null), seq(level, _ => 0);
      var curr := head;
      ghost var c: nat := 0;
      for i := level downto 0
        invariant c < p && nodes[c] == curr && i <= curr.forward.Length
        invariant i == 0 ==> c == p - 1
        invariant |us| == level && |update| == MAX_LEVEL
        invariant forall l :: i <= l < level ==> Precedes(nodes, us[l], update[l], l, p)
      {
        curr, c := AdvanceOn(i, curr, key, c, p);
        PrecedesAt(c, curr, i, p);
        update, us := update[i := curr], us[i := c];
        NextOnGround(c);
      }
      GroundPointer(p - 1);
      next := curr.forward[0];
    }

    lemma PrecedesAt(u: nat, n: Node, l: nat, p: nat)
      requires u < p <= |nodes| && nodes[u] == n && l < n.forward.Length && NextUp(Heights(nodes), u, l) >= p
      ensures Precedes(nodes, u, n, l, p)
    {}

    lemma GroundPointer(i: nat)
      requires Valid() && i < |nodes|
      ensures nodes[i].forward.Length > 0 && nodes[i].forward[0] == At(nodes, i + 1)
    {
      NextOnGround(i);
    }

    // ----- the levels as lists

    /** Following level l from the head visits exactly the towers taller than l; their keys strictly
        ascend; and the level above is a sublist. */
    lemma Levels(l: nat)
      requires Valid() && l < MAX_LEVEL
      ensures IsWalk(Tall(nodes, 1, l), head, l)
      ensures AllAscend(Tall(nodes, 1, l))
      ensures IsSublist(Tall(nodes, 1, l + 1), Tall(nodes, 1, l))
      ensures Tall(nodes, 1, 0) == nodes[1..]
    {
      hide Less, Counted;
      WalkFrom(nodes, 0, l);
      TallAscends(nodes, 1, l);
      TallSublist(nodes, 1, l);
      TallGround(nodes, level, 1);
    }

    /** Levels above every tower are preceded by the head. */
    lemma HeadPrecedes(l: nat, p: nat)
      requires Valid() && 0 < p <= |nodes| && level <= l < MAX_LEVEL
      ensures Precedes(nodes, 0, head, l, p)
    {
      NextUpUnique(Heights(nodes), 0, l, |nodes|);
    }

    /** Levels that the list has not used so far start at the head. */
    method RaiseTo(lvl: nat, update: seq<Node?>, ghost us: seq<nat>, ghost p: nat)
      returns (upd: seq<Node?>, ghost vs: seq<nat>)
      requires Valid() && lvl <= MAX_LEVEL && 0 < p <= |nodes|
      requires |update| == MAX_LEVEL && |us| == level
      requires forall l :: 0 <= l < level ==> Precedes(nodes, us[l], update[l], l, p)
      ensures |upd| == MAX_LEVEL && |vs| >= lvl
      ensures forall l :: 0 <= l < |vs| ==> l < MAX_LEVEL && Precedes(nodes, vs[l], upd[l], l, p)
    {
      hide Precedes, Counted, KeysAscend, Linked;
      upd, vs := update, us;
      if lvl > level {
        for i := level to lvl
          invariant |upd| == MAX_LEVEL && |vs| == i
          invariant forall l :: 0 <= l < i ==> Precedes(nodes, vs[l], upd[l], l, p)
        {
          HeadPrecedes(i, p);
          upd, vs := upd[i := head], vs + [0];
        }
      }
    }

    /** Allocate the new node and splice it in; the fields of the other nodes stay as they are. */
    method AddNode(key: Bytes, value: Bytes, tombstone: bool, ts: int, lvl: nat,
                   update: seq<Node?>, ghost us: seq<nat>, ghost p: nat) returns (x: Node)
      requires Valid() && 0 < p <= |nodes|
      requires |update| >= lvl && |us| >= lvl
      requires forall l :: 0 <= l < lvl ==> Precedes(nodes, us[l], update[l], l, p)
      modifies Arrays(nodes)
      ensures fresh(x) && fresh(x.forward) && x.forward.Length == lvl && x.key == key
      ensures x.Record() == Entry(key, value, tombstone, ts)
      ensures LinkedList(Inserted(nodes, p, x))
      ensures Records(nodes[1..]) == old(Records(nodes[1..]))
    {
      ArraysOwned();
      hide KeysAscend, Precedes, LinkedList, Inserted, InOwn, Towers, OwnArrays, Counted;
      x := new Node(key, value, tombstone, ts, lvl);
      SpliceIn(nodes, x, update, us, p);
    }

    /** Take a spliced-in node into the books: level, count and size. */
    method Adopt(x: Node, ghost p: nat)
      requires Owned() && Shaped() && Counted() && 0 < p <= |nodes|
      requires x !in Repr && x.forward !in Repr && 1 <= x.forward.Length <= MAX_LEVEL
      requires LinkedList(Inserted(nodes, p, x)) && KeysAscend(Inserted(nodes, p, x))
      modifies this
      ensures Valid() && Repr == old(Repr) + {x, x.forward}
      ensures Contents() == Inserted(old(Contents()), p - 1, x.Record())
      ensures TowerHeights() == Inserted<nat>(old(TowerHeights()), p - 1, x.forward.Length)
    {
      hide Less, KeysAscend, NextUp, Footprint, LinkedList, Heights, Records, InOwn, Inserted, Towers;
      ghost var grown := Inserted(nodes, p, x);
      NotAnArray(grown, x);
      TowersInserted(nodes, level, p, x);
      RecordsInserted(nodes, p, x);
      HeightsInserted(nodes, p, x);
      FootprintInserted(Contents(), Heights(nodes)[1..], p - 1, x.Record(), x.forward.Length);
      InOwnInserted(nodes, Repr, p, x);
      var lvl := x.forward.Length;
      if lvl > level {
        level := lvl;
      }
      count := count + 1;
      sizeBytes := sizeBytes + |x.key| + |x.value| + lvl * 8 + 32;
      nodes := grown;
      Repr := Repr + {x, x.forward};
    }

    /** The insertion half of Put and Delete. */
    method Insert(key: Bytes, value: Bytes, tombstone: bool, ts: int, lvl: nat,
                  update: seq<Node?>, ghost us: seq<nat>, ghost p: nat)
      requires Valid() && IsPosition(nodes, key, p) && (p < |nodes| ==> nodes[p].key != key)
      requires 1 <= lvl <= MAX_LEVEL
      requires |update| == MAX_LEVEL && |us| == level
      requires forall l :: 0 <= l < level ==> Precedes(nodes, us[l], update[l], l, p)
      modifies Repr
      ensures Valid() && fresh(Repr - old(Repr))
      ensures Contents() == Upsert(old(Contents()), Entry(key, value, tombstone, ts))
      ensures TowerHeights() == HeightsAfter(old(Contents()), old(TowerHeights()), key, lvl)
    {
      hide Less, KeysAscend, NextUp, Precedes, Footprint, LinkedList, IsPosition;
      hide Upsert, Heights, Records, InOwn, Inserted, Towers, HeightsAfter;
      PositionBounds(nodes, key, p);
      TowersUpsert(key, lvl, p);
      ContentsUpsert(key, Entry(key, value, tombstone, ts), p);
      var upd, vs := RaiseTo(lvl, update, us, p);
      ArraysOwned();
      var x := AddNode(key, value, tombstone, ts, lvl, upd, vs, p);
      KeysInserted(nodes, p, x);
      Adopt(x, p);
    }

    lemma ArraysOwned()
      requires Owned()
      ensures Arrays(nodes) <= Repr && OwnArrays(nodes)
    {}

    lemma NotAnArray(ns: seq<Node>, n: Node)
      ensures forall a :: a in Arrays(ns) ==> a as object != this && a as object != n
      ensures forall i :: 0 <= i < |ns| ==> ns[i] as object != this
    {
      forall a | a in Arrays(ns) ensures a as object != this && a as object != n {
        var o: object := a;
        assert o is array<Node?>;
      }
    }

    /** The update-in-place half of Put and Delete. */
    method Overwrite(n: Node, value: Bytes, tombstone: bool, ts: int, ghost p: nat)
      requires Valid() && 0 < p < |nodes| && nodes[p] == n
      modifies this`sizeBytes, n`value, n`tombstone, n`ts
      ensures Valid()
      ensures Contents() == old(Contents())[p - 1 := Entry(n.key, value, tombstone, ts)]
      ensures TowerHeights() == old(TowerHeights())
    {
      hide KeysAscend, Footprint, LinkedList, Heights, Towers, Records;
      ghost var es, e := Contents(), Entry(n.key, value, tombstone, ts);
      HeightsTail(nodes);
      NotAnArray(nodes, n);
      FootprintUpdated(es, Heights(nodes)[1..], p - 1, e);
      sizeBytes := sizeBytes + (|value| - |n.value|);
      n.value := value;
      n.tombstone := tombstone;
      n.ts := ts;
      assert Contents() == es[p - 1 := e];
    }

    /** Put, with the random height as a parameter: the sorted list gains the record. */
    method Put(key: Bytes, value: Bytes, ts: int, height: nat)
      requires Valid() && 1 <= height <= 16
      modifies Repr
      ensures Valid() && fresh(Repr - old(Repr))
      ensures Contents() == Upsert(old(Contents()), Entry(key, value, false, ts))
      ensures TowerHeights() == HeightsAfter(old(Contents()), old(TowerHeights()), key, height)
    {
      hide KeysAscend, Owned, Shaped, Linked, Counted, Contents, Upsert, IsPosition, Precedes;
      hide TowerHeights, HeightsAfter;
      var curr, update;
      ghost var us, p;
      curr, update, us, p := DescendRecording(key);
      ContentsUpsert(key, Entry(key, value, false, ts), p);
      TowersUpsert(key, height, p);
      if curr != null && curr.key == key {
        Overwrite(curr, value, false, ts, p);
      } else {
        Insert(key, value, false, ts, height, update, us, p);
      }
    }

    /** Delete records a tombstone, whether or not the key was present. */
    method Delete(key: Bytes, ts: int, height: nat)
      requires Valid() && 1 <= height <= 16
      modifies Repr
      ensures Valid() && fresh(Repr - old(Repr))
      ensures Contents() == Upsert(old(Contents()), Entry(key, [], true, ts))
      ensures TowerHeights() == HeightsAfter(old(Contents()), old(TowerHeights()), key, height)
    {
      hide KeysAscend, Owned, Shaped, Linked, Counted, Contents, Upsert, IsPosition, Precedes;
      hide TowerHeights, HeightsAfter;
      var curr, update;
      ghost var us, p;
      curr, update, us, p := DescendRecording(key);
      ContentsUpsert(key, Entry(key, [], true, ts), p);
      TowersUpsert(key, height, p);
      if curr != null && curr.key == key {
        Overwrite(curr, [], true, ts, p);
      } else {
        Insert(key, [], true, ts, height, update, us, p);
      }
    }

    /** The walk along level 0 lists every record once, in ascending key order. */
    method AllEntries() returns (entries: seq<Entry>)
      requires Valid()
      ensures entries == Contents() && Ascending(entries)
    {
      hide KeysAscend, Counted, InOwn, LinkedList;
      entries := [];
      GroundPointer(0);
      var curr := head.forward[0];
      while curr != null
        invariant |entries| < |nodes| && curr == At(nodes, |entries| + 1)
        invariant entries == Contents()[..|entries|]
        decreases |nodes| - |entries|
      {
        GroundPointer(|entries| + 1);
        entries := entries + [Entry(curr.key, curr.value, curr.tombstone, curr.ts)];
        curr := curr.forward[0];
      }
      assert |entries| == |Contents()|;
      ContentsAscend();
    }

    /** Size is the sum over the records of key, value, tower and fixed overhead. */
    method Size() returns (n: int)
      requires Valid()
      ensures n == Footprint(Contents(), TowerHeights())
    {
      n := sizeBytes;
    }

    /** Count is the number of distinct keys. */
    method Count() returns (n: nat)
      requires Valid()
      ensures n == |Contents()| == |Keys(Contents())|
    {
      n := count;
      ContentsAscend();
      DistinctKeys(Contents());
    }

    /** So is a tower among the towers, unless the key is there. */
    lemma TowersUpsert(key: Bytes, h: nat, p: nat)
      requires Valid() && IsPosition(nodes, key, p)
      ensures 0 < p <= |nodes|
      ensures HeightsAfter(Contents(), TowerHeights(), key, h) ==
              if p < |nodes| && nodes[p].key == key then TowerHeights() else Inserted<nat>(TowerHeights(), p - 1, h)
    {
      hide Less, KeysAscend, Linked, Counted, IsPosition, Heights;
      ContentsPosition(key, p);
      PositionBounds(nodes, key, p);
      HeightsAt(Contents(), TowerHeights(), key, h, p - 1);
    }

    /** Upsert on the records is insertion before position p. */
    lemma ContentsUpsert(key: Bytes, e: Entry, p: nat)
      requires Valid() && IsPosition(nodes, key, p) && e.key == key
      ensures Upsert(Contents(), e) ==
              if p < |nodes| && nodes[p].key == key then Contents()[p - 1 := e] else Inserted(Contents(), p - 1, e)
    {
      hide Less, KeysAscend, Linked, Counted, IsPosition;
      ContentsPosition(key, p);
      PositionBounds(nodes, key, p);
      UpsertAt(Contents(), e, p - 1);
    }
  }

  lemma HeightsTail(nodes: seq<Node>)
    requires |nodes| > 0
    ensures |Heights(nodes)[1..]| == |nodes| - 1
  {}

  lemma {:induction false} DistinctKeys(es: seq<Entry>)
    requires Ascending(es)
    ensures |Keys(es)| == |es|
  {
    hide Less;
    LessIsStrictTotalOrder();
    if es != [] {
      var front, last := es[..|es| - 1], es[|es| - 1];
      DistinctKeys(front);
      assert es == front + [last];
      assert Keys(es) == Keys(front) + {last.key};
      assert last.key !in Keys(front);
    }
  }

  /** The nodes from position i on whose towers rise above level l, in order. */
  function Tall(nodes: seq<Node>, i: nat, l: nat): seq<Node>
    decreases |nodes| - i
  {
    if i >= |nodes| then []
    else (if nodes[i].forward.Length > l then [nodes[i]] else []) + Tall(nodes, i + 1, l)
  }

  /** ns is what following level l from the node start visits. */
  ghost predicate IsWalk(ns: seq<Node>, start: Node, l: nat)
    reads start.forward, Arrays(ns)
    decreases |ns|
  {
    && l < start.forward.Length
    && (ns == [] ==> start.forward[l] == null)
    && (ns != [] ==> start.forward[l] == ns[0] && WalkTail(ns, l))
  }

  ghost predicate WalkTail(ns: seq<Node>, l: nat)
    requires ns != []
    reads Arrays(ns)
    decreases |ns|, 0
  {
    assert Arrays(ns[1..]) <= Arrays(ns);
    assert ns[0].forward in Arrays(ns);
    IsWalk(ns[1..], ns[0], l)
  }

  predicate IsSublist<T(==)>(a: seq<T>, b: seq<T>)
  {
    a == [] || (b != [] && ((a[0] == b[0] && IsSublist(a[1..], b[1..])) || IsSublist(a, b[1..])))
  }

  /** Skipping to the next tall tower skips nothing tall. */
  lemma {:induction false} TallSkips(nodes: seq<Node>, i: nat, l: nat, n: nat)
    requires i <= n <= |nodes|
    requires forall j :: i <= j < n ==> nodes[j].forward.Length <= l
    ensures Tall(nodes, i, l) == Tall(nodes, n, l)
    decreases n - i
  {
    if i < n {
      TallSkips(nodes, i + 1, l, n);
    }
  }

  lemma {:induction false} WalkFrom(nodes: seq<Node>, i: nat, l: nat)
    requires LinkedList(nodes) && i < |nodes| && l < nodes[i].forward.Length
    ensures IsWalk(Tall(nodes, i + 1, l), nodes[i], l)
    decreases |nodes| - i
  {
    hide NextUp;
    var n := NextUp(Heights(nodes), i, l);
    assert nodes[i].forward[l] == Target(nodes, i, l);
    TallSkips(nodes, i + 1, l, n);
    if n < |nodes| {
      WalkFrom(nodes, n, l);
      assert Tall(nodes, n, l)[1..] == Tall(nodes, n + 1, l);
    }
  }

  lemma {:induction false} TallMembers(nodes: seq<Node>, i: nat, l: nat)
    ensures forall x :: x in Tall(nodes, i, l) ==> exists j :: i <= j < |nodes| && nodes[j] == x
    decreases |nodes| - i
  {
    if i < |nodes| {
      TallMembers(nodes, i + 1, l);
      assert nodes[i] == nodes[i];
    }
  }

  predicate AllAscend(ns: seq<Node>)
  {
    forall i, j :: 0 <= i < j < |ns| ==> Less(ns[i].key, ns[j].key)
  }

  lemma ConsAscends(x: Node, rest: seq<Node>)
    requires AllAscend(rest) && forall n :: n in rest ==> Less(x.key, n.key)
    ensures AllAscend([x] + rest)
  {
    hide Less;
  }

  lemma {:induction false} TallAscends(nodes: seq<Node>, i: nat, l: nat)
    requires KeysAscend(nodes) && 0 < i
    ensures AllAscend(Tall(nodes, i, l))
    decreases |nodes| - i
  {
    hide Less, AllAscend;
    if i < |nodes| {
      TallAscends(nodes, i + 1, l);
      TallMembers(nodes, i + 1, l);
      ConsAscendsIf(nodes[i], Tall(nodes, i + 1, l), nodes[i].forward.Length > l);
    } else {
      NoneAscend();
    }
  }

  lemma NoneAscend()
    ensures AllAscend([])
  {}

  lemma ConsAscendsIf(x: Node, rest: seq<Node>, tall: bool)
    requires AllAscend(rest) && forall n :: n in rest ==> Less(x.key, n.key)
    ensures AllAscend((if tall then [x] else []) + rest)
  {
    hide Less, AllAscend;
    if tall {
      ConsAscends(x, rest);
    } else {
      assert [] + rest == rest;
    }
  }

  lemma {:induction false} TallSublist(nodes: seq<Node>, i: nat, l: nat)
    ensures IsSublist(Tall(nodes, i, l + 1), Tall(nodes, i, l))
    decreases |nodes| - i
  {
    if i < |nodes| {
      TallSublist(nodes, i + 1, l);
      var a, b := Tall(nodes, i + 1, l + 1), Tall(nodes, i + 1, l);
      var x := nodes[i];
      assert [] + a == a && [] + b == b;
      assert ([x] + a)[1..] == a && ([x] + b)[1..] == b;
    }
  }

  lemma {:induction false} TallGround(nodes: seq<Node>, level: nat, i: nat)
    requires Towers(nodes, level) && 0 < i <= |nodes|
    ensures Tall(nodes, i, 0) == nodes[i..]
    decreases |nodes| - i
  {
    if i < |nodes| {
      TallGround(nodes, level, i + 1);
    }
  }

  lemma PositionBounds(nodes: seq<Node>, key: Bytes, p: nat)
    requires IsPosition(nodes, key, p)
    ensures 0 < p <= |nodes|
  {}

  lemma KeysInserted(nodes: seq<Node>, p: nat, x: Node)
    requires KeysAscend(nodes) && IsPosition(nodes, x.key, p) && (p < |nodes| ==> nodes[p].key != x.key)
    ensures KeysAscend(Inserted(nodes, p, x))
  {
    hide Less;
    LessIsStrictTotalOrder();
    var r := Inserted(nodes, p, x);
    forall i, j | 0 < i < j < |r| ensures Less(r[i].key, r[j].key) {
      if i == p && j > p + 1 {
        assert Less(nodes[p].key, nodes[j - 1].key);
      }
    }
  }

  lemma RecordsInserted(nodes: seq<Node>, p: nat, x: Node)
    requires 0 < p <= |nodes|
    ensures Records(Inserted(nodes, p, x)[1..]) == Inserted(Records(nodes[1..]), p - 1, x.Record())
  {
    hide Records;
    var a, b := nodes[1..p], nodes[p..];
    InsertedBehind(nodes, p, x);
    RecordsConcat(a, [x] + b);
    RecordsConcat([x], b);
    RecordsConcat(a, b);
    assert Records([x]) == [x.Record()];
    InsertedBetween(Records(a), Records(b), x.Record());
  }

  lemma RecordsConcat(a: seq<Node>, b: seq<Node>)
    ensures Records(a + b) == Records(a) + Records(b)
  {
    hide Records;
    assert forall i :: 0 <= i < |a| + |b| ==> Records(a + b)[i] == (Records(a) + Records(b))[i];
  }

  lemma InsertedBehind<T>(s: seq<T>, p: nat, x: T)
    requires 0 < p <= |s|
    ensures Inserted(s, p, x)[1..] == s[1..p] + ([x] + s[p..]) && s[1..] == s[1..p] + s[p..]
  {}

  lemma InsertedBetween<T>(a: seq<T>, b: seq<T>, x: T)
    ensures Inserted(a + b, |a|, x) == a + ([x] + b)
  {}
}
