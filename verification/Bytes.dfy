/** Byte strings: little-endian integers and the lexicographic order of keys. */
module Bytes {

  newtype byte = x: int | 0 <= x < 0x100
  type Bytes = seq<byte>

  datatype Option<+T> = None | Some(value: T)

  // ----- little-endian integers, as encoding/binary.LittleEndian writes and reads them

  ghost function Pow256(w: nat): (r: nat)
    ensures r > 0
  {
    if w == 0 then 1 else 256 * Pow256(w - 1)
  }

  /** The low w bytes of n, least significant first; higher bytes are dropped. */
  function Le(n: nat, w: nat): (r: Bytes)
    ensures |r| == w
  {
    if w == 0 then [] else [(n % 256) as byte] + Le(n / 256, w - 1)
  }

  function FromLe(s: Bytes): (r: nat)
  {
    if s == [] then 0 else s[0] as int + 256 * FromLe(s[1..])
  }

  lemma {:induction false} LeRoundTrip(n: nat, w: nat)
    requires n < Pow256(w)
    ensures FromLe(Le(n, w)) == n
  {
    if w > 0 {
      LeRoundTrip(n / 256, w - 1);
    }
  }

  /** Byte i of a number weighs 256 to the i: the least significant comes first. */
  lemma {:induction false} LeByte(n: nat, w: nat, i: nat)
    requires i < w
    ensures Le(n, w)[i] as nat == n / Pow256(i) % 256
    decreases w
  {
    if i > 0 {
      LeByte(n / 256, w - 1, i - 1);
      DivideTwice(n, Pow256(i - 1));
    }
  }

  /** A number too large for its width loses its high part. */
  lemma {:induction false} LeTruncates(n: nat, w: nat)
    ensures Pow256(w) > 0 && FromLe(Le(n, w)) == n % Pow256(w)
  {
    if w > 0 {
      var p := Pow256(w - 1);
      LeTruncates(n / 256, w - 1);
      SplitRest(n, p);
    }
  }

  lemma SplitRest(n: nat, p: nat)
    requires p > 0
    ensures n % (256 * p) == n % 256 + 256 * (n / 256 % p)
  {
    var q, r, s := n / 256 / p, n / 256 % p, n % 256;
    assert n == q * (256 * p) + (256 * r + s) by { Regroup(q, p, r, s); }
    QuotientIs(n, 256 * p, q, 256 * r + s);
  }

  lemma DivideTwice(n: nat, d: nat)
    requires d > 0
    ensures n / 256 / d == n / (256 * d)
  {
    var q, r := n / 256 / d, n / 256 % d;
    var s := n % 256;
    assert n == 256 * (n / 256) + s && n / 256 == q * d + r;
    assert n == q * (256 * d) + (256 * r + s) by { Regroup(q, d, r, s); }
    assert 256 * r + s < 256 * d;
    QuotientIs(n, 256 * d, q, 256 * r + s);
  }

  lemma Regroup(q: nat, d: nat, r: nat, s: nat)
    ensures 256 * (q * d + r) + s == q * (256 * d) + (256 * r + s)
  {}

  lemma QuotientIs(n: nat, m: nat, q: nat, r: nat)
    requires m > 0 && n == q * m + r && r < m
    ensures n / m == q
  {
    var p, t := n / m, n % m;
    assert p * m + t == q * m + r && t < m;
    if p < q {
      MoreByOne(p, q, m);
    } else if q < p {
      MoreByOne(q, p, m);
    }
  }

  lemma MoreByOne(p: nat, q: nat, m: nat)
    requires p < q
    ensures q * m >= p * m + m
  {
    var d := q - p - 1;
    assert q * m == p * m + m + d * m;
  }

  lemma Pow256Values()
    ensures Pow256(2) == 0x1_0000
    ensures Pow256(4) == 0x1_0000_0000
    ensures Pow256(8) == 0x1_0000_0000_0000_0000
  {
    assert Pow256(2) == 256 * Pow256(1);
    assert Pow256(4) == 256 * Pow256(3) == 0x1_0000 * Pow256(2);
    assert Pow256(6) == 256 * Pow256(5) == 0x1_0000 * Pow256(4);
    assert Pow256(8) == 256 * Pow256(7) == 0x1_0000 * Pow256(6);
  }

  const U16: nat := 0x1_0000
  const U32: nat := 0x1_0000_0000
  const U64: nat := 0x1_0000_0000_0000_0000

  lemma Le2(n: nat)
    requires n < U16
    ensures FromLe(Le(n, 2)) == n
  {
    Pow256Values();
    LeRoundTrip(n, 2);
  }

  lemma Le4(n: nat)
    requires n < U32
    ensures FromLe(Le(n, 4)) == n
  {
    Pow256Values();
    LeRoundTrip(n, 4);
  }

  lemma Le8(n: nat)
    requires n < U64
    ensures FromLe(Le(n, 8)) == n
  {
    Pow256Values();
    LeRoundTrip(n, 8);
  }

  lemma {:induction false} FromLeBound(s: Bytes)
    ensures FromLe(s) < Pow256(|s|)
  {
    if s != [] {
      FromLeBound(s[1..]);
    }
  }

  /** A signed 64-bit timestamp: the casts uint64(ts) and int64(u). */
  predicate IsInt64(ts: int) { -0x8000_0000_0000_0000 <= ts < 0x8000_0000_0000_0000 }

  function ToU64(ts: int): nat { ts % U64 }

  function ToI64(u: nat): int { if u < 0x8000_0000_0000_0000 then u else u - U64 }

  lemma TimestampRoundTrip(ts: int)
    requires IsInt64(ts)
    ensures ToI64(FromLe(Le(ToU64(ts), 8))) == ts
  {
    Le8(ToU64(ts));
  }

  /** Two's complement: a negative timestamp is written as its sum with 2^64. */
  lemma TimestampBytes(ts: int)
    requires IsInt64(ts)
    ensures FromLe(Le(ToU64(ts), 8)) == if ts >= 0 then ts else 0x1_0000_0000_0000_0000 + ts
  {
    Le8(ToU64(ts));
  }

  // ----- Go's and JavaScript's string comparison: the first differing byte decides

  predicate LessFrom(a: Bytes, b: Bytes, i: nat)
    requires i <= |a| && i <= |b|
    decreases |a| - i
  {
    if i == |b| then false
    else if i == |a| then true
    else if a[i] != b[i] then a[i] < b[i]
    else LessFrom(a, b, i + 1)
  }

  predicate Less(a: Bytes, b: Bytes) { LessFrom(a, b, 0) }

  lemma {:induction false} LessFromIrreflexive(a: Bytes, i: nat)
    requires i <= |a|
    ensures !LessFrom(a, a, i)
    decreases |a| - i
  {
    if i < |a| {
      LessFromIrreflexive(a, i + 1);
    }
  }

  lemma {:induction false} LessFromTransitive(a: Bytes, b: Bytes, c: Bytes, i: nat)
    requires i <= |a| && i <= |b| && i <= |c|
    requires LessFrom(a, b, i) && LessFrom(b, c, i)
    ensures LessFrom(a, c, i)
    decreases |a| - i
  {
    if i < |a| && i < |b| && i < |c| && a[i] == b[i] == c[i] {
      LessFromTransitive(a, b, c, i + 1);
    }
  }

  lemma {:induction false} LessFromTotal(a: Bytes, b: Bytes, i: nat)
    requires i <= |a| && i <= |b| && a[..i] == b[..i]
    ensures LessFrom(a, b, i) || LessFrom(b, a, i) || a == b
    decreases |a| - i
  {
    if i < |a| && i < |b| && a[i] == b[i] {
      assert a[..i + 1] == a[..i] + [a[i]] && b[..i + 1] == b[..i] + [b[i]];
      LessFromTotal(a, b, i + 1);
    } else if i == |a| && i == |b| {
      assert a == a[..i] && b == b[..i];
    }
  }

  /** Less is a strict total order, which is all the other modules know about it. */
  lemma LessIsStrictTotalOrder()
    ensures forall a :: !Less(a, a)
    ensures forall a, b, c {:trigger Less(a, b), Less(b, c)} :: Less(a, b) && Less(b, c) ==> Less(a, c)
    ensures forall a, b {:trigger Less(a, b)} :: a == b || Less(a, b) || Less(b, a)
    ensures forall a, b {:trigger Less(a, b)} :: !(Less(a, b) && Less(b, a))
  {
    forall a ensures !Less(a, a) { LessFromIrreflexive(a, 0); }
    forall a, b, c | Less(a, b) && Less(b, c) ensures Less(a, c) { LessFromTransitive(a, b, c, 0); }
    forall a, b ensures a == b || Less(a, b) || Less(b, a) { LessFromTotal(a, b, 0); }
  }

  lemma EmptyIsLeast(k: Bytes)
    ensures !Less(k, [])
    ensures k != [] ==> Less([], k)
  {}

  /** The strings agree before position i, and there a ends or has the smaller byte. */
  ghost predicate DiffersBelow(a: Bytes, b: Bytes, i: nat)
  {
    && i <= |a| && i < |b| && a[..i] == b[..i] && (i < |a| ==> a[i] < b[i])
  }

  lemma {:induction false} LessFromExact(a: Bytes, b: Bytes, i: nat)
    requires i <= |a| && i <= |b| && a[..i] == b[..i]
    ensures LessFrom(a, b, i) <==> exists j :: i <= j && DiffersBelow(a, b, j)
    decreases |a| - i
  {
    forall j | i < j && DiffersBelow(a, b, j) ensures i < |a| && i < |b| && a[i] == b[i] {
      SharedPrefix(a, b, i, j);
    }
    if i < |a| && i < |b| && a[i] == b[i] {
      assert a[..i + 1] == a[..i] + [a[i]] && b[..i + 1] == b[..i] + [b[i]];
      LessFromExact(a, b, i + 1);
    } else if LessFrom(a, b, i) {
      assert DiffersBelow(a, b, i);
    }
  }

  lemma SharedPrefix(a: Bytes, b: Bytes, i: nat, j: nat)
    requires i < j <= |a| && j <= |b| && a[..j] == b[..j]
    ensures a[i] == b[i]
  {
    assert a[..j][i] == b[..j][i];
  }

  /** Less is the order of the first byte at which the strings differ, where an end comes before any byte. */
  lemma LessExact(a: Bytes, b: Bytes)
    ensures Less(a, b) <==> exists i: nat :: DiffersBelow(a, b, i)
  {
    LessFromExact(a, b, 0);
  }
}
