/** The time order of layers: writes are stamped ever later, and layers hold stretches of time. */
module EngineAges {
  import opened Entries

  /** Every record of a is older than every record of b. */
  predicate Older(a: seq<Entry>, b: seq<Entry>)
  {
    forall x, y :: x in a && y in b ==> x.ts < y.ts
  }

  /** Each layer is older than the ones after it. */
  predicate Ages(layers: seq<seq<Entry>>)
  {
    layers == [] || (Older(layers[0], Flatten(layers[1..])) && Ages(layers[1..]))
  }

  predicate FromHistory(es: seq<Entry>, history: seq<Entry>) { forall e :: e in es ==> e in history }

  predicate Increasing(ws: seq<Entry>) { forall i, j :: 0 <= i < j < |ws| ==> ws[i].ts < ws[j].ts }

  /** No record stands in both. */
  predicate Apart(a: seq<Entry>, b: seq<Entry>) { forall x :: x in a ==> x !in b }

  lemma OlderParts(a: seq<Entry>, b: seq<Entry>, c: seq<Entry>)
    ensures Older(a + b, c) <==> Older(a, c) && Older(b, c)
    ensures Older(c, a + b) <==> Older(c, a) && Older(c, b)
  {
    assert forall x :: x in a ==> x in a + b;
    assert forall x :: x in b ==> x in a + b;
  }

  lemma {:induction false} AgesConcat(a: seq<seq<Entry>>, b: seq<seq<Entry>>)
    ensures Ages(a + b) <==> Ages(a) && Ages(b) && Older(Flatten(a), Flatten(b))
    decreases |a|
  {
    hide Older;
    if a == [] {
      assert a + b == b;
      assert Older([], Flatten(b)) by { NothingOlder(Flatten(b)); }
    } else {
      AgesConcat(a[1..], b);
      assert (a + b)[1..] == a[1..] + b;
      FlattenConcat(a[1..], b);
      OlderParts(Flatten(a[1..]), Flatten(b), a[0]);
      OlderParts(a[0], Flatten(a[1..]), Flatten(b));
    }
  }

  lemma NothingOlder(b: seq<Entry>)
    ensures Older([], b) && Older(b, [])
  {}

  lemma AgesOne(a: seq<Entry>)
    ensures Ages([a])
  {
    assert [a][1..] == [];
  }

  lemma IncreasingAppend(ws: seq<Entry>, e: Entry)
    requires Increasing(ws) && forall w :: w in ws ==> w.ts < e.ts
    ensures Increasing(ws + [e])
  {}
}
