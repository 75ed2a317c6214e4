/** The Bloom filter of go/pkg/lsm/bloom.go: double hashing over a bit array.

    The two hash functions are parameters: nothing here depends on which ones they are. */
module Bloom {
  import opened Bytes

  /** Two 64-bit hash values of a key. */
  datatype Hashes = Hashes(h1: Bytes -> nat, h2: Bytes -> nat)

  /** A filter's fields, as a value. */
  datatype Filter = Filter(bits: seq<bv8>, numBits: nat, numHash: nat, keyCount: nat)
  {
    /** What NewBloomFilter establishes and every operation keeps. */
    predicate Valid()
    {
      64 <= numBits <= U32 - 8 && 1 <= numHash < U32 && keyCount < U32 &&
      |bits| == (numBits + 7) / 8
    }
  }

  /** g_i(x) = h1(x) + i * h2(x) in 64-bit arithmetic, mod numBits. */
  function BitIndex(h: Hashes, key: Bytes, i: nat, numBits: nat): (r: nat)
    requires numBits > 0
    ensures r < numBits
  {
    ((h.h1(key) + i * h.h2(key)) % U64) % numBits
  }

  predicate IsSet(bits: seq<bv8>, b: nat)
    requires b / 8 < |bits|
  {
    TestBit(bits[b / 8], b % 8)
  }

  predicate TestBit(x: bv8, offset: nat)
    requires offset < 8
  {
    x & Mask(offset) != 0
  }

  function OrBit(x: bv8, offset: nat): bv8
    requires offset < 8
  {
    x | Mask(offset)
  }

  function Mask(offset: nat): bv8
    requires offset < 8
  {
    [0x01, 0x02, 0x04, 0x08, 0x10, 0x20, 0x40, 0x80][offset]
  }

  /** The key's first n bits are all set. */
  predicate Covers(h: Hashes, bits: seq<bv8>, numBits: nat, key: Bytes, n: nat)
    requires 0 < numBits <= 8 * |bits|
  {
    forall i: nat :: i < n ==> IsSet(bits, BitIndex(h, key, i, numBits))
  }

  /** MayContain, as a function of the filter's fields. */
  predicate Claims(h: Hashes, f: Filter, key: Bytes)
    requires f.numBits == 0 || f.bits == [] || f.numBits <= 8 * |f.bits|
  {
    f.numBits == 0 || f.bits == [] || Covers(h, f.bits, f.numBits, key, f.numHash)
  }

  datatype Verdict = Yes | No | Panic

  /** The loop of MayContain on any filter, as decoding leaves it unchecked: an index past the bytes panics. */
  function Probe(h: Hashes, f: Filter, key: Bytes, i: nat): Verdict
    requires f.numBits > 0
    decreases f.numHash - i
  {
    if i >= f.numHash then Yes
    else
      var b := BitIndex(h, key, i, f.numBits);
      if b / 8 >= |f.bits| then Panic else if !IsSet(f.bits, b) then No else Probe(h, f, key, i + 1)
  }

  function Ask(h: Hashes, f: Filter, key: Bytes): Verdict
  {
    if f.numBits == 0 || f.bits == [] then Yes else Probe(h, f, key, 0)
  }

  lemma {:induction false} ProbeCovers(h: Hashes, f: Filter, key: Bytes, i: nat)
    requires 0 < f.numBits <= 8 * |f.bits| && i <= f.numHash && Covers(h, f.bits, f.numBits, key, i)
    ensures Probe(h, f, key, i) == if Covers(h, f.bits, f.numBits, key, f.numHash) then Yes else No
    decreases f.numHash - i
  {
    hide IsSet, BitIndex;
    if i < f.numHash && IsSet(f.bits, BitIndex(h, key, i, f.numBits)) {
      ProbeCovers(h, f, key, i + 1);
    }
  }

  /** A filter with a byte for each of its bits never panics, and says yes exactly if all bits are set. */
  lemma AskSound(h: Hashes, f: Filter, key: Bytes)
    requires f.numBits <= 8 * |f.bits|
    ensures Ask(h, f, key) == if Claims(h, f, key) then Yes else No
  {
    if f.numBits > 0 {
      ProbeCovers(h, f, key, 0);
    }
  }

  /** MayContain on a decoded filter. */
  method AskFilter(h: Hashes, f: Filter, key: Bytes) returns (v: Verdict)
    ensures v == Ask(h, f, key)
  {
    hide IsSet, BitIndex;
    if f.numBits == 0 || |f.bits| == 0 {
      return Yes;
    }
    for i := 0 to f.numHash
      invariant Probe(h, f, key, i) == Probe(h, f, key, 0)
    {
      var bitIdx := BitIndex(h, key, i, f.numBits);
      if bitIdx / 8 >= |f.bits| {
        return Panic;
      }
      if !IsSet(f.bits, bitIdx) {
        return No;
      }
    }
    return Yes;
  }

  lemma MaskSet(x: bv8, i: nat)
    requires i < 8
    ensures (x | Mask(i)) & Mask(i) != 0
  {
    assert i == 0 || i == 1 || i == 2 || i == 3 || i == 4 || i == 5 || i == 6 || i == 7;
  }

  lemma MasksDisjoint(i: nat, j: nat)
    requires i < 8 && j < 8 && i != j
    ensures Mask(i) & Mask(j) == 0
  {
    assert i == 0 || i == 1 || i == 2 || i == 3 || i == 4 || i == 5 || i == 6 || i == 7;
    assert j == 0 || j == 1 || j == 2 || j == 3 || j == 4 || j == 5 || j == 6 || j == 7;
  }

  lemma MaskKeeps(x: bv8, m: bv8, n: bv8)
    requires m & n == 0
    ensures (x | m) & n == x & n
  {}

  lemma TestOr(x: bv8, i: nat, j: nat)
    requires i < 8 && j < 8
    ensures TestBit(OrBit(x, i), j) <==> TestBit(x, j) || i == j
  {
    hide Mask;
    if i == j {
      MaskSet(x, i);
    } else {
      MasksDisjoint(i, j);
      MaskKeeps(x, Mask(i), Mask(j));
    }
  }

  function WithBit(bits: seq<bv8>, b: nat): seq<bv8>
    requires b / 8 < |bits|
  {
    bits[b / 8 := OrBit(bits[b / 8], b % 8)]
  }

  /** Setting a bit changes that bit and no other. */
  lemma SetBit(bits: seq<bv8>, b: nat, c: nat)
    requires b / 8 < |bits| && c / 8 < |bits|
    ensures IsSet(WithBit(bits, b), c) <==> IsSet(bits, c) || c == b
  {
    hide TestBit, OrBit;
    if c / 8 == b / 8 {
      TestOr(bits[b / 8], b % 8, c % 8);
    }
  }

  /** c is one of the key's first n bits. */
  ghost predicate Chosen(h: Hashes, key: Bytes, numBits: nat, n: nat, c: nat)
    requires numBits > 0
  {
    exists i: nat :: i < n && BitIndex(h, key, i, numBits) == c
  }

  lemma NoneChosen(h: Hashes, key: Bytes, numBits: nat)
    requires numBits > 0
    ensures forall c: nat :: !Chosen(h, key, numBits, 0, c)
  {}

  lemma ChosenStep(h: Hashes, key: Bytes, numBits: nat, n: nat, c: nat)
    requires numBits > 0
    ensures Chosen(h, key, numBits, n + 1, c) <==>
            Chosen(h, key, numBits, n, c) || c == BitIndex(h, key, n, numBits)
  {
    hide BitIndex;
    if Chosen(h, key, numBits, n + 1, c) {
      var i: nat :| i < n + 1 && BitIndex(h, key, i, numBits) == c;
      assert i == n || Chosen(h, key, numBits, n, c);
    }
  }

  lemma CoversItsBits(h: Hashes, bits: seq<bv8>, numBits: nat, key: Bytes, n: nat)
    requires 0 < numBits <= 8 * |bits|
    requires forall c: nat :: c / 8 < |bits| && Chosen(h, key, numBits, n, c) ==> IsSet(bits, c)
    ensures Covers(h, bits, numBits, key, n)
  {
    hide BitIndex, IsSet;
    forall i: nat | i < n ensures IsSet(bits, BitIndex(h, key, i, numBits)) {
      assert Chosen(h, key, numBits, n, BitIndex(h, key, i, numBits));
    }
  }

  class BloomFilter {
    const h: Hashes
    var bits: array<bv8>
    var numBits: nat
    var numHash: nat
    var keyCount: nat
    /** Every key added so far. */
    ghost var added: set<Bytes>

    function Fields(): Filter
      reads this, bits
    {
      Filter(bits[..], numBits, numHash, keyCount)
    }

    /** No added key is denied. */
    ghost predicate Valid()
      reads this, bits
    {
      Fields().Valid() && forall k :: k in added ==> Claims(h, Fields(), k)
    }

    /** An empty filter; the float formulas that choose the two sizes are parameters. The uint32 sum that
        rounds up to bytes wraps for the seven largest sizes, and leaves no room for the bits. */
    constructor (h: Hashes, numBits: nat, numHash: nat)
      requires 64 <= numBits < U32 && 1 <= numHash < U32
      ensures Valid() <==> numBits <= U32 - 8
      ensures fresh(bits) && this.h == h && added == {} && forall i :: 0 <= i < bits.Length ==> bits[i] == 0
      ensures this.numBits == numBits && this.numHash == numHash && keyCount == 0
    {
      this.h, this.numBits, this.numHash, keyCount := h, numBits, numHash, 0;
      bits := new bv8[(numBits + 7) % U32 / 8](_ => 0);
      added := {};
    }

    /** Add sets the key's bits and keeps every other key's. */
    method Add(key: Bytes)
      requires Valid()
      modifies this`keyCount, this`added, bits
      ensures Valid() && added == old(added) + {key}
      ensures forall c: nat :: c / 8 < bits.Length ==>
                (IsSet(bits[..], c) <==> IsSet(old(bits[..]), c) || Chosen(h, key, numBits, numHash, c))
      ensures keyCount == (old(keyCount) + 1) % U32
    {
      hide OrBit, IsSet, BitIndex, Chosen;
      NoneChosen(h, key, numBits);
      for i := 0 to numHash
        invariant keyCount == old(keyCount) && added == old(added)
        invariant forall c: nat :: c / 8 < bits.Length ==>
                    (IsSet(bits[..], c) <==> IsSet(old(bits[..]), c) || Chosen(h, key, numBits, i, c))
      {
        ghost var before := bits[..];
        var bitIdx := BitIndex(h, key, i, numBits);
        bits[bitIdx / 8] := OrBit(bits[bitIdx / 8], bitIdx % 8);
        assert bits[..] == WithBit(before, bitIdx);
        forall c: nat | c / 8 < bits.Length
          ensures IsSet(bits[..], c) <==> IsSet(old(bits[..]), c) || Chosen(h, key, numBits, i + 1, c)
        {
          SetBit(before, bitIdx, c);
          ChosenStep(h, key, numBits, i, c);
        }
      }
      keyCount := (keyCount + 1) % U32;
      CoversItsBits(h, bits[..], numBits, key, numHash);
      added := added + {key};
    }

    /** The early-exit loop. */
    method MayContain(key: Bytes) returns (r: bool)
      requires Valid()
      ensures r == Claims(h, Fields(), key)
      ensures key in added ==> r
    {
      hide TestBit, BitIndex;
      if numBits == 0 || bits.Length == 0 {
        return true;
      }
      for i := 0 to numHash
        invariant Covers(h, bits[..], numBits, key, i)
      {
        var bitIdx := BitIndex(h, key, i, numBits);
        if !TestBit(bits[bitIdx / 8], bitIdx % 8) {
          assert !IsSet(bits[..], bitIdx);
          return false;
        }
      }
      return true;
    }
  }

  // ----- the filter block of a table file

  function Encode(f: Filter): Bytes
  {
    Le(f.numBits, 4) + Le(f.numHash, 4) + Le(f.keyCount, 4) + Bits(f.bits)
  }

  /** bit i of a byte's value, as bytes in a file. */
  function Bits(bits: seq<bv8>): (r: Bytes)
    ensures |r| == |bits|
  {
    seq(|bits|, i requires 0 <= i < |bits| => bits[i] as byte)
  }

  function Decode(data: Bytes): Option<Filter>
  {
    if |data| < 12 then None
    else Some(Filter(Unbits(data[12..]), FromLe(data[0..4]), FromLe(data[4..8]), FromLe(data[8..12])))
  }

  function Unbits(data: Bytes): (r: seq<bv8>)
    ensures |r| == |data|
  {
    seq(|data|, i requires 0 <= i < |data| => data[i] as bv8)
  }

  lemma ByteRoundTrip(b: bv8)
    ensures (b as byte) as bv8 == b
  {}

  /** Decoding the encoding restores every field, so a reopened filter claims the same keys. */
  lemma DecodeEncode(f: Filter)
    requires f.Valid()
    ensures Decode(Encode(f)) == Some(f)
  {
    hide Le, FromLe;
    Le4(f.numBits);
    Le4(f.numHash);
    Le4(f.keyCount);
    var data := Encode(f);
    assert data[0..4] == Le(f.numBits, 4) && data[4..8] == Le(f.numHash, 4) && data[8..12] == Le(f.keyCount, 4);
    assert data[12..] == Bits(f.bits);
    forall i | 0 <= i < |f.bits| ensures Unbits(Bits(f.bits))[i] == f.bits[i] {
      ByteRoundTrip(f.bits[i]);
    }
    assert Unbits(Bits(f.bits)) == f.bits;
  }
}
