/** CRC-32 as src/engine/crc32.ts computes it and hash/crc32.ChecksumIEEE promises it:
    the reflected polynomial 0xedb88320 of section 8 of RFC 1952.

    Exclusive or goes by the name Xor, so that a proof can hide its bits (`hide Xor`)
    and work with its algebra instead. */
module Crc32 {
  import opened Bytes

  const POLY: bv32 := 0xedb8_8320
  const ALL_ONES: bv32 := 0xffff_ffff

  function Xor(a: bv32, b: bv32): bv32 { a ^ b }

  lemma XorRegroups(a: bv32, b: bv32, c: bv32)
    ensures Xor(Xor(a, b), c) == Xor(Xor(a, c), b)
    ensures Xor(Xor(a, b), c) == Xor(a, Xor(b, c))
  {}

  // ----- reference: one message bit at a time, least significant bit of each byte first

  /** Shift the register right once; a one leaving it subtracts the polynomial. */
  function Shift(c: bv32): bv32 { if c & 1 == 1 then POLY ^ (c >> 1) else c >> 1 }

  function BitStep(reg: bv32, bit: bool): bv32 { Shift(if bit then Xor(reg, 1) else reg) }

  function Run(reg: bv32, bits: seq<bool>): bv32
    decreases |bits|
  {
    if bits == [] then reg else Run(BitStep(reg, bits[0]), bits[1..])
  }

  function LowBits(w: bv32, n: nat): seq<bool>
    decreases n
  {
    if n == 0 then [] else [w & 1 == 1] + LowBits(w >> 1, n - 1)
  }

  /** Bit i of a byte, for i below 8. */
  predicate Bit(n: nat, i: nat)
  {
    if i == 0 then n % 2 == 1 else Bit(n / 2, i - 1)
  }

  function Pack(a7: bool, a6: bool, a5: bool, a4: bool, a3: bool, a2: bool, a1: bool, a0: bool): bv32
  {
    (if a0 then 0x01 else 0) | (if a1 then 0x02 else 0) | (if a2 then 0x04 else 0) | (if a3 then 0x08 else 0) |
    (if a4 then 0x10 else 0) | (if a5 then 0x20 else 0) | (if a6 then 0x40 else 0) | (if a7 then 0x80 else 0)
  }

  /** A byte as a register value. */
  function Word(b: byte): bv32
  {
    var n := b as int;
    Pack(Bit(n, 7), Bit(n, 6), Bit(n, 5), Bit(n, 4), Bit(n, 3), Bit(n, 2), Bit(n, 1), Bit(n, 0))
  }

  function MessageBits(data: Bytes): seq<bool>
  {
    if data == [] then [] else MessageBits(data[..|data| - 1]) + LowBits(Word(data[|data| - 1]), 8)
  }

  function Checksum(data: Bytes): bv32 { Xor(Run(ALL_ONES, MessageBits(data)), ALL_ONES) }

  // ----- the shift is linear over exclusive or, and injective

  lemma ShiftOddOdd(a: bv32, b: bv32)
    requires a & 1 == 1 && b & 1 == 1
    ensures Shift(Xor(a, b)) == Xor(Shift(a), Shift(b))
  {}

  lemma ShiftOddEven(a: bv32, b: bv32)
    requires a & 1 == 1 && b & 1 != 1
    ensures Shift(Xor(a, b)) == Xor(Shift(a), Shift(b))
    ensures Shift(Xor(b, a)) == Xor(Shift(b), Shift(a))
  {}

  lemma ShiftEvenEven(a: bv32, b: bv32)
    requires a & 1 != 1 && b & 1 != 1
    ensures Shift(Xor(a, b)) == Xor(Shift(a), Shift(b))
  {}

  lemma ShiftLinear(a: bv32, b: bv32)
    ensures Shift(Xor(a, b)) == Xor(Shift(a), Shift(b))
  {
    hide Shift, Xor;
    if a & 1 == 1 && b & 1 == 1 {
      ShiftOddOdd(a, b);
    } else if a & 1 == 1 {
      ShiftOddEven(a, b);
    } else if b & 1 == 1 {
      ShiftOddEven(b, a);
    } else {
      ShiftEvenEven(a, b);
    }
  }

  lemma ShiftInjective(a: bv32, b: bv32)
    requires Shift(a) == Shift(b)
    ensures a == b
  {}

  function Shifts(c: bv32, n: nat): bv32
    decreases n
  {
    if n == 0 then c else Shifts(Shift(c), n - 1)
  }

  lemma {:induction false} ShiftsLinear(a: bv32, b: bv32, n: nat)
    ensures Shifts(Xor(a, b), n) == Xor(Shifts(a, n), Shifts(b, n))
    decreases n
  {
    hide Shift, Xor;
    if n > 0 {
      ShiftLinear(a, b);
      ShiftsLinear(Shift(a), Shift(b), n - 1);
    }
  }

  lemma {:induction false} ShiftsInjective(a: bv32, b: bv32, n: nat)
    requires Shifts(a, n) == Shifts(b, n)
    ensures a == b
    decreases n
  {
    hide Shift;
    if n > 0 {
      ShiftsInjective(Shift(a), Shift(b), n - 1);
      ShiftInjective(a, b);
    }
  }

  lemma {:induction false} ShiftsLast(c: bv32, n: nat)
    requires n > 0
    ensures Shifts(c, n) == Shift(Shifts(c, n - 1))
    decreases n
  {
    hide Shift;
    if n > 1 {
      ShiftsLast(Shift(c), n - 1);
    }
  }

  // ----- eight bits at once

  /** The register after one whole byte. */
  function ByteStep(reg: bv32, b: byte): bv32 { Shifts(Xor(reg, Word(b)), 8) }

  lemma SplitLowBit(reg: bv32, w: bv32)
    ensures w & 1 == 1 ==> Xor(reg, w) == Xor(Xor(reg, 1), w & 0xffff_fffe)
    ensures w & 1 != 1 ==> Xor(reg, w) == Xor(reg, w & 0xffff_fffe)
  {
    hide Xor;
    if w & 1 == 1 {
      assert w == Xor(1, w & 0xffff_fffe) by { LowBitSet(w); }
      XorRegroups(reg, 1, w & 0xffff_fffe);
    } else {
      assert w == w & 0xffff_fffe;
    }
  }

  lemma LowBitSet(w: bv32)
    requires w & 1 == 1
    ensures w == Xor(1, w & 0xffff_fffe)
  {}

  lemma ShiftEven(w: bv32)
    ensures Shift(w & 0xffff_fffe) == w >> 1
  {}

  /** Reading the low bit of w into the register, seen from the register with all of w mixed in. */
  lemma BitStepAbsorbs(reg: bv32, w: bv32)
    ensures Shift(Xor(reg, w)) == Xor(BitStep(reg, w & 1 == 1), w >> 1)
  {
    hide Shift, Xor;
    var bitIn := if w & 1 == 1 then Xor(reg, 1) else reg;
    SplitLowBit(reg, w);
    ShiftLinear(bitIn, w & 0xffff_fffe);
    ShiftEven(w);
  }

  /** What is left of w after n bits have been read from it. */
  function Drop(w: bv32, n: nat): bv32
    decreases n
  {
    if n == 0 then w else Drop(w >> 1, n - 1)
  }

  lemma {:induction false} RunLowBits(reg: bv32, w: bv32, n: nat)
    ensures Xor(Run(reg, LowBits(w, n)), Drop(w, n)) == Shifts(Xor(reg, w), n)
    decreases n
  {
    hide Shift, BitStep, Xor;
    if n > 0 {
      var reg' := BitStep(reg, w & 1 == 1);
      RunLowBits(reg', w >> 1, n - 1);
      BitStepAbsorbs(reg, w);
      assert LowBits(w, n)[0] == (w & 1 == 1) && LowBits(w, n)[1..] == LowBits(w >> 1, n - 1);
    }
  }

  lemma Drop2(w: bv32, n: nat)
    requires n >= 2
    ensures Drop(w, n) == Drop(w >> 2, n - 2)
  {
    assert w >> 1 >> 1 == w >> 2;
  }

  lemma DropByte(b: byte)
    ensures Drop(Word(b), 8) == 0
  {
    var w := Word(b);
    Drop2(w, 8);
    Drop2(w >> 2, 6);
    Drop2(w >> 2 >> 2, 4);
    Drop2(w >> 2 >> 2 >> 2, 2);
  }

  lemma RunByte(reg: bv32, b: byte)
    ensures Run(reg, LowBits(Word(b), 8)) == ByteStep(reg, b)
  {
    hide Run, LowBits, Shifts, Word, Drop, Xor;
    RunLowBits(reg, Word(b), 8);
    DropByte(b);
    XorZero(Run(reg, LowBits(Word(b), 8)));
  }

  lemma XorZero(a: bv32)
    ensures Xor(a, 0) == a
  {}

  lemma {:induction false} RunConcat(reg: bv32, a: seq<bool>, b: seq<bool>)
    ensures Run(reg, a + b) == Run(Run(reg, a), b)
    decreases |a|
  {
    hide BitStep;
    if a == [] {
      assert a + b == b;
    } else {
      RunConcat(BitStep(reg, a[0]), a[1..], b);
      assert (a + b)[1..] == a[1..] + b;
    }
  }

  /** The register after a whole message: the byte-at-a-time form of Run over its bits. */
  function Register(data: Bytes): bv32
  {
    if data == [] then ALL_ONES else ByteStep(Register(data[..|data| - 1]), data[|data| - 1])
  }

  lemma {:induction false} RegisterIsRun(data: Bytes)
    ensures Register(data) == Run(ALL_ONES, MessageBits(data))
    ensures Checksum(data) == Xor(Register(data), ALL_ONES)
  {
    hide ByteStep, LowBits, Word, Xor;
    if data != [] {
      var front, last := data[..|data| - 1], data[|data| - 1];
      RegisterIsRun(front);
      RunConcat(ALL_ONES, MessageBits(front), LowBits(Word(last), 8));
      RunByte(Register(front), last);
    }
  }

  // ----- the table and the loops that use it

  function TableEntry(i: bv32): bv32 { Shifts(i, 8) }

  /** Entry i of the table. */
  function EntryAt(i: nat): bv32
    requires i < 256
  {
    TableEntry(i as bv32)
  }

  lemma ShiftsHighPair(c: bv32, n: nat)
    requires n >= 2 && c & 3 == 0
    ensures Shifts(c, n) == Shifts(c >> 2, n - 2)
  {
    assert Shift(c) == c >> 1;
    assert (c >> 1) & 1 == 0 && Shift(c >> 1) == c >> 2;
  }

  lemma ShiftsHigh(c: bv32)
    requires c & 0xff == 0
    ensures Shifts(c, 8) == c >> 8
  {
    ShiftsHighPair(c, 8);
    ShiftsHighPair(c >> 2, 6);
    ShiftsHighPair(c >> 4, 4);
    ShiftsHighPair(c >> 6, 2);
  }

  lemma SplitHigh(c: bv32)
    ensures c == Xor(c & 0xff, c & 0xffff_ff00)
    ensures (c & 0xffff_ff00) & 0xff == 0 && (c & 0xffff_ff00) >> 8 == c >> 8
  {}

  /** One table lookup does the work of eight shifts. */
  lemma TableStep(c: bv32)
    ensures Shifts(c, 8) == Xor(TableEntry(c & 0xff), c >> 8)
  {
    hide *;
    SplitHigh(c);
    TableStepSplit(c & 0xff, c & 0xffff_ff00);
  }

  lemma TableStepSplit(low: bv32, high: bv32)
    requires high & 0xff == 0
    ensures Shifts(Xor(low, high), 8) == Xor(TableEntry(low), high >> 8)
  {
    hide Shifts, Xor;
    ShiftsLinear(low, high, 8);
    ShiftsHigh(high);
  }

  lemma HighBytesOfStep(reg: bv32, b: byte)
    ensures Xor(reg, Word(b)) >> 8 == reg >> 8
  {}

  ghost predicate IsTable(t: seq<bv32>)
  {
    |t| == 256 && forall i: nat :: i < 256 ==> t[i] == EntryAt(i)
  }

  lemma IntOfIndex(i: bv32)
    requires i < 256
    ensures i as int < 256 && (i as int) as bv32 == i
  {}

  /** The nested loops that fill CRC32_TABLE. */
  method BuildTable() returns (t: array<bv32>)
    ensures fresh(t) && IsTable(t[..])
  {
    hide Shift;
    t := new bv32[256];
    for i := 0 to 256
      invariant forall j: nat :: j < i ==> t[j] == EntryAt(j)
    {
      var c := i as bv32;
      for j := 0 to 8
        invariant c == Shifts(i as bv32, j)
        invariant forall k: nat :: k < i ==> t[k] == EntryAt(k)
      {
        ShiftsLast(i as bv32, j + 1);
        c := NextEntry(c);
      }
      t[i] := c;
    }
  }

  /** The conditional expression in the inner loop. */
  function NextEntry(c: bv32): (r: bv32)
    ensures r == Shift(c)
  {
    if c & 1 == 1 then POLY ^ (c >> 1) else c >> 1
  }

  /** crc32IEEE: the byte-at-a-time loop computes the bit-at-a-time checksum of every message. */
  method Crc32Ieee(table: array<bv32>, data: Bytes) returns (r: bv32)
    requires IsTable(table[..])
    ensures r == Checksum(data)
  {
    hide Xor, TableEntry, Word, Shifts;
    var crc := ALL_ONES;
    for i := 0 to |data|
      invariant crc == Register(data[..i])
    {
      assert data[..i + 1][..i] == data[..i];
      var mixed := Xor(crc, Word(data[i]));
      var tableIndex := mixed & 0xff;
      HighBytesOfStep(crc, data[i]);
      TableStep(mixed);
      IntOfIndex(tableIndex);
      assert table[tableIndex as int] == table[..][tableIndex as int];
      crc := Xor(table[tableIndex as int], crc >> 8);
    }
    assert data[..|data|] == data;
    RegisterIsRun(data);
    r := Xor(crc, ALL_ONES);
  }

  // ----- the checksum as an unsigned integer

  /** The number whose low n binary digits are those of c. */
  function Value(c: bv32, n: nat): nat
    decreases n
  {
    if n == 0 then 0 else (if c & 1 == 1 then 1 else 0) + 2 * Value(c >> 1, n - 1)
  }

  lemma {:induction false} ValueBound(c: bv32, n: nat)
    ensures Value(c, n) < Power2(n)
    ensures Power2(32) == 0x1_0000_0000
    decreases n
  {
    if n > 0 {
      ValueBound(c >> 1, n - 1);
    }
    Power2Of32();
  }

  lemma {:induction false} ValueInjective(a: bv32, b: bv32, n: nat)
    requires Value(a, n) == Value(b, n) && Drop(a, n) == Drop(b, n)
    ensures a == b
    decreases n
  {
    if n > 0 {
      ValueInjective(a >> 1, b >> 1, n - 1);
      assert a & 1 == b & 1;
    }
  }

  lemma Drop4(w: bv32, n: nat)
    requires n >= 4
    ensures Drop(w, n) == Drop(w >> 4, n - 4)
  {
    hide Drop;
    ShiftTwice(w);
    Drop2(w, n);
    Drop2(w >> 2, n - 2);
  }

  lemma ShiftTwice(w: bv32)
    ensures w >> 2 >> 2 == w >> 4
    ensures w >> 4 >> 4 == w >> 8
    ensures w >> 8 >> 8 >> 8 >> 8 == 0
  {}

  lemma Drop8(w: bv32, n: nat)
    requires n >= 8
    ensures Drop(w, n) == Drop(w >> 8, n - 8)
  {
    hide Drop;
    ShiftTwice(w);
    Drop4(w, n);
    Drop4(w >> 4, n - 4);
  }

  lemma DropAll(c: bv32)
    ensures Drop(c, 32) == 0
  {
    ShiftTwice(c);
    Drop8(c, 32);
    Drop8(c >> 8, 24);
    Drop8(c >> 8 >> 8, 16);
    Drop8(c >> 8 >> 8 >> 8, 8);
  }

  lemma SameValue(a: bv32, b: bv32)
    requires Value(a, 32) == Value(b, 32)
    ensures a == b
  {
    hide Value, Drop;
    DropAll(a);
    DropAll(b);
    ValueInjective(a, b, 32);
  }

  // ----- burst errors: the checksum separates messages that differ within four bytes

  lemma XorInjective(a: bv32, b: bv32, c: bv32)
    requires Xor(a, c) == Xor(b, c) || Xor(c, a) == Xor(c, b)
    ensures a == b
  {}

  lemma PackInjective(a7: bool, a6: bool, a5: bool, a4: bool, a3: bool, a2: bool, a1: bool, a0: bool,
                      b7: bool, b6: bool, b5: bool, b4: bool, b3: bool, b2: bool, b1: bool, b0: bool)
    requires Pack(a7, a6, a5, a4, a3, a2, a1, a0) == Pack(b7, b6, b5, b4, b3, b2, b1, b0)
    ensures a7 == b7 && a6 == b6 && a5 == b5 && a4 == b4 && a3 == b3 && a2 == b2 && a1 == b1 && a0 == b0
  {}

  lemma {:induction false} SameBits(m: nat, n: nat, k: nat)
    requires m < Power2(k) && n < Power2(k)
    requires forall i: nat :: i < k ==> Bit(m, i) == Bit(n, i)
    ensures m == n
  {
    if k > 0 {
      forall i: nat | i < k - 1 ensures Bit(m / 2, i) == Bit(n / 2, i) {
        assert Bit(m, i + 1) == Bit(m / 2, i) && Bit(n, i + 1) == Bit(n / 2, i);
      }
      SameBits(m / 2, n / 2, k - 1);
      assert Bit(m, 0) == Bit(n, 0);
    }
  }

  function Power2(k: nat): nat { if k == 0 then 1 else 2 * Power2(k - 1) }

  lemma WordInjective(a: byte, b: byte)
    requires Word(a) == Word(b)
    ensures a == b
  {
    var m, n := a as int, b as int;
    hide Pack, Bit, Power2;
    PackInjective(Bit(m, 7), Bit(m, 6), Bit(m, 5), Bit(m, 4), Bit(m, 3), Bit(m, 2), Bit(m, 1), Bit(m, 0),
                  Bit(n, 7), Bit(n, 6), Bit(n, 5), Bit(n, 4), Bit(n, 3), Bit(n, 2), Bit(n, 1), Bit(n, 0));
    forall i: nat | i < 8 ensures Bit(m, i) == Bit(n, i) {
      assert i == 0 || i == 1 || i == 2 || i == 3 || i == 4 || i == 5 || i == 6 || i == 7;
    }
    Power2Of8();
    SameBits(m, n, 8);
  }

  lemma Power2Plus4(k: nat)
    ensures Power2(k + 4) == 16 * Power2(k)
  {
    assert Power2(k + 4) == 2 * Power2(k + 3) == 4 * Power2(k + 2) == 8 * Power2(k + 1);
  }

  lemma Power2Of8()
    ensures Power2(8) == 0x100
  {
    Power2Plus4(0);
    Power2Plus4(4);
  }

  lemma Power2Of32()
    ensures Power2(32) == 0x1_0000_0000
  {
    Power2Of8();
    Power2Plus4(8);
    Power2Plus4(12);
    Power2Plus4(16);
    Power2Plus4(20);
    Power2Plus4(24);
    Power2Plus4(28);
  }

  lemma ByteStepInjective(r: bv32, s: bv32, b: byte)
    requires ByteStep(r, b) == ByteStep(s, b)
    ensures r == s
  {
    hide Xor, Word, Shifts;
    ShiftsInjective(Xor(r, Word(b)), Xor(s, Word(b)), 8);
    XorInjective(r, s, Word(b));
  }

  /** Feeding bytes on from a register that already holds a prefix. */
  function Feed(reg: bv32, data: Bytes): bv32
    decreases |data|
  {
    if data == [] then reg else Feed(ByteStep(reg, data[0]), data[1..])
  }

  lemma {:induction false} RegisterConcat(a: Bytes, b: Bytes)
    ensures Register(a + b) == Feed(Register(a), b)
    decreases |b|
  {
    hide ByteStep;
    if b == [] {
      assert a + b == a;
    } else {
      var a' := a + [b[0]];
      assert a + b == a' + b[1..] && a'[..|a|] == a;
      RegisterConcat(a', b[1..]);
    }
  }

  lemma {:induction false} FeedConcat(reg: bv32, a: Bytes, b: Bytes)
    ensures Feed(reg, a + b) == Feed(Feed(reg, a), b)
    decreases |a|
  {
    hide ByteStep;
    if a == [] {
      assert a + b == b;
    } else {
      FeedConcat(ByteStep(reg, a[0]), a[1..], b);
      assert (a + b)[1..] == a[1..] + b;
    }
  }

  lemma {:induction false} FeedInjective(r: bv32, s: bv32, data: Bytes)
    requires Feed(r, data) == Feed(s, data)
    ensures r == s
    decreases |data|
  {
    hide ByteStep;
    if data != [] {
      FeedInjective(ByteStep(r, data[0]), ByteStep(s, data[0]), data[1..]);
      ByteStepInjective(r, s, data[0]);
    }
  }

  /** Up to four bytes as they lie in the register: the first in the low bits. */
  function Window(x: Bytes): bv32
    decreases |x|
  {
    if x == [] then 0 else Xor(Word(x[0]), Window(x[1..]) << 8)
  }

  /** A byte step leaves alone what lies above the byte it consumes, but for moving it down. */
  lemma ShiftsMovesHigh(low: bv32, high: bv32)
    requires high & 0xff00_0000 == 0
    ensures Shifts(Xor(low, high << 8), 8) == Xor(Shifts(low, 8), high)
  {
    hide Xor, Shifts;
    ShiftLeftRight(high);
    TableStepSplit(low, high << 8);
  }

  lemma ShiftLeftRight(high: bv32)
    requires high & 0xff00_0000 == 0
    ensures (high << 8) & 0xff == 0 && (high << 8) >> 8 == high
  {}

  lemma {:induction false} WindowSize(x: Bytes)
    requires |x| <= 4
    ensures |x| <= 3 ==> Window(x) & 0xff00_0000 == 0
    ensures |x| <= 2 ==> Window(x) & 0xffff_0000 == 0
    ensures |x| <= 1 ==> Window(x) & 0xffff_ff00 == 0
    ensures |x| == 0 ==> Window(x) == 0
    decreases |x|
  {
    if x != [] {
      WindowSize(x[1..]);
      WindowSizeStep(Word(x[0]), Window(x[1..]));
      assert Word(x[0]) & 0xffff_ff00 == 0;
    }
  }

  lemma WindowSizeStep(b: bv32, w: bv32)
    requires b & 0xffff_ff00 == 0
    ensures w & 0xffff_0000 == 0 ==> Xor(b, w << 8) & 0xff00_0000 == 0
    ensures w & 0xffff_ff00 == 0 ==> Xor(b, w << 8) & 0xffff_0000 == 0
    ensures w == 0 ==> Xor(b, w << 8) & 0xffff_ff00 == 0
  {}

  /** Mixing the whole window in at once and shifting is the same as feeding its bytes. */
  lemma {:induction false} FeedWindow(reg: bv32, x: Bytes)
    requires |x| <= 4
    ensures Feed(reg, x) == ShiftBytes(Xor(reg, Window(x)), |x|)
    decreases |x|
  {
    hide Xor, Shifts, Word;
    if x == [] {
      XorZero(reg);
    } else {
      WindowSize(x[1..]);
      var b, w := Word(x[0]), Window(x[1..]);
      XorRegroups(reg, b, w << 8);
      ShiftsMovesHigh(Xor(reg, b), w);
      FeedWindow(ByteStep(reg, x[0]), x[1..]);
    }
  }

  function ShiftBytes(c: bv32, n: nat): bv32
    decreases n
  {
    if n == 0 then c else ShiftBytes(Shifts(c, 8), n - 1)
  }

  lemma {:induction false} ShiftBytesInjective(a: bv32, b: bv32, n: nat)
    requires ShiftBytes(a, n) == ShiftBytes(b, n)
    ensures a == b
    decreases n
  {
    hide Shifts;
    if n > 0 {
      ShiftBytesInjective(Shifts(a, 8), Shifts(b, 8), n - 1);
      ShiftsInjective(a, b, 8);
    }
  }

  lemma SplitWindow(b: bv32, c: bv32, v: bv32, w: bv32)
    requires b & 0xffff_ff00 == 0 && c & 0xffff_ff00 == 0
    requires v & 0xff00_0000 == 0 && w & 0xff00_0000 == 0
    requires Xor(b, v << 8) == Xor(c, w << 8)
    ensures b == c && v == w
  {}

  lemma {:induction false} WindowInjective(x: Bytes, y: Bytes)
    requires |x| == |y| <= 4
    requires Window(x) == Window(y)
    ensures x == y
    decreases |x|
  {
    hide Xor, Word;
    if x != [] {
      WindowSize(x[1..]);
      WindowSize(y[1..]);
      WordIsByte(x[0]);
      WordIsByte(y[0]);
      SplitWindow(Word(x[0]), Word(y[0]), Window(x[1..]), Window(y[1..]));
      WordInjective(x[0], y[0]);
      WindowInjective(x[1..], y[1..]);
      assert x == [x[0]] + x[1..] && y == [y[0]] + y[1..];
    }
  }

  lemma WordIsByte(b: byte)
    ensures Word(b) & 0xffff_ff00 == 0
  {}

  /** Two messages that differ only inside one window of at most four bytes have different
      checksums. */
  lemma BurstDetected(p: Bytes, x: Bytes, y: Bytes, s: Bytes)
    requires |x| == |y| <= 4 && x != y
    ensures Checksum(p + x + s) != Checksum(p + y + s)
  {
    hide *;
    if Checksum(p + x + s) == Checksum(p + y + s) {
      RegisterIsRun(p + x + s);
      RegisterIsRun(p + y + s);
      XorInjective(Register(p + x + s), Register(p + y + s), ALL_ONES);
      RegisterConcat(p + x, s);
      RegisterConcat(p + y, s);
      FeedInjective(Register(p + x), Register(p + y), s);
      RegisterConcat(p, x);
      RegisterConcat(p, y);
      FeedWindow(Register(p), x);
      FeedWindow(Register(p), y);
      ShiftBytesInjective(Xor(Register(p), Window(x)), Xor(Register(p), Window(y)), |x|);
      XorInjective(Window(x), Window(y), Register(p));
      WindowInjective(x, y);
    }
  }
}
