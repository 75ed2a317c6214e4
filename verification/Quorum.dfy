/** Majorities of a numbered set of nodes. */
module Quorum {

  function Majority(n: nat): nat { n / 2 + 1 }

  function Members(n: nat): (r: set<nat>)
    ensures forall i: nat :: i in r <==> i < n
    ensures |r| == n
  {
    if n == 0 then {} else Members(n - 1) + {n - 1}
  }

  lemma {:induction false} SubsetCount<T>(a: set<T>, b: set<T>)
    requires a <= b
    ensures |a| <= |b|
  {
    if a != {} {
      var x :| x in a;
      SubsetCount(a - {x}, b - {x});
    }
  }

  /** Two majorities of the same members share one. */
  lemma MajoritiesMeet(n: nat, a: set<nat>, b: set<nat>)
    requires a <= Members(n) && b <= Members(n)
    requires |a| >= Majority(n) && |b| >= Majority(n)
    ensures exists x :: x in a && x in b
  {
    SubsetCount(a + b, Members(n));
    if a * b == {} {
      assert |a + b| == |a| + |b|;
    } else {
      var x :| x in a * b;
    }
  }
}
