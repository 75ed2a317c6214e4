/** The write-ahead log of go/pkg/lsm/wal.go: CRC-framed records in one append-only file.

    Frame: [CRC32 4][Timestamp 8][Key Size 4][Value Size 4][Key][Value], little-endian. */
module Wal {
  import opened Bytes
  import opened Entries
  import Crc32

  const HEADER: nat := 20

  /** How Recover ends: normally, with ErrCorruptWAL, or in a slice-bounds panic. */
  datatype Recovery =
    | Recovered(entries: seq<Entry>)
    | Corrupt(entries: seq<Entry>)
    | Panicked

  // ----- writing

  /** Copying the value is skipped when its size truncates to zero, which leaves zero bytes. */
  function CopiedValue(v: Bytes): Bytes
  {
    if |v| % U32 > 0 then v else seq(|v|, _ => 0)
  }

  function Sizes(e: Entry): Bytes { Le(|e.key|, 4) + Le(|StoredValue(e)|, 4) }

  function Payload(e: Entry): Bytes
  {
    Le(ToU64(e.ts), 8) + Sizes(e) + (e.key + CopiedValue(StoredValue(e)))
  }

  /** The checksum as the unsigned integer that PutUint32 writes. */
  function Sum(data: Bytes): (n: nat)
    ensures n < U32
  {
    Crc32.ValueBound(Crc32.Checksum(data), 32);
    Crc32.Value(Crc32.Checksum(data), 32)
  }

  function Frame(e: Entry): Bytes { Le(Sum(Payload(e)), 4) + Payload(e) }

  /** The file after a list of writes. */
  function Log(ws: seq<Entry>): Bytes
  {
    if ws == [] then [] else Frame(ws[0]) + Log(ws[1..])
  }

  // ----- reading

  function Word32(file: Bytes, at: nat): nat
    requires at + 4 <= |file|
  {
    FromLe(file[at..at + 4])
  }

  /** Sizes are added as uint32, so they wrap. */
  function DataSize(file: Bytes): nat
    requires |file| >= HEADER
  {
    (Word32(file, 12) + Word32(file, 16)) % U32
  }

  function ReadPayload(file: Bytes): Bytes
    requires |file| >= HEADER && |file| - HEADER >= DataSize(file)
  {
    file[4..HEADER + DataSize(file)]
  }

  function ReadEntry(file: Bytes): Entry
    requires |file| >= HEADER && |file| - HEADER >= DataSize(file)
    requires Word32(file, 12) <= DataSize(file)
  {
    var k, n := Word32(file, 12), DataSize(file);
    var v := if Word32(file, 16) > 0 then file[HEADER + k..HEADER + n] else [];
    Entry(file[HEADER..HEADER + k], v, Word32(file, 16) == 0, ToI64(FromLe(file[4..12])))
  }

  function Prepend(es: seq<Entry>, r: Recovery): Recovery
  {
    match r
    case Recovered(fs) => Recovered(es + fs)
    case Corrupt(fs) => Corrupt(es + fs)
    case Panicked => Panicked
  }

  /** One turn of the recovery loop at the front of a file: stop, or take a record of some length. */
  datatype Turn = Stop(result: Recovery) | Take(entry: Entry, length: nat)

  function FirstTurn(file: Bytes): (t: Turn)
    ensures t.Take? ==> HEADER <= t.length <= |file|
  {
    if |file| < HEADER then Stop(Recovered([]))
    else
      var n := DataSize(file);
      if (16 + n) % U32 < 16 then Stop(Panicked)                     // payloadBuf[0:16] out of range
      else if |file| - HEADER < n then Stop(Recovered([]))           // incomplete trailing write
      else if Sum(ReadPayload(file)) != Word32(file, 0) then Stop(Corrupt([]))
      else if Word32(file, 12) > n then Stop(Panicked)               // dataBuf[:kSize] out of range
      else Take(ReadEntry(file), HEADER + n)
  }

  /** What recovery makes of any file whatever. */
  function RecoverFile(file: Bytes): Recovery
    decreases |file|
  {
    var t := FirstTurn(file);
    match t
    case Stop(r) => r
    case Take(e, n) => Prepend([e], RecoverFile(file[n..]))
  }

  /** The log file. */
  class WAL {
    var file: Bytes
    var byteSize: nat

    constructor ()
      ensures file == [] && byteSize == 0
    {
      file, byteSize := [], 0;
    }

    /** Write appends exactly one frame. */
    method Write(table: array<bv32>, key: Bytes, value: Bytes, tombstone: bool, ts: int)
      requires Crc32.IsTable(table[..])
      modifies this
      ensures file == old(file) + Frame(Entry(key, value, tombstone, ts))
      ensures byteSize == old(byteSize) + |Frame(Entry(key, value, tombstone, ts))|
    {
      var vBytes := if tombstone then [] else value;
      var data := if |vBytes| % U32 > 0 then key + vBytes else key + seq(|vBytes|, _ => 0);
      var payload := Le(ToU64(ts), 8) + (Le(|key|, 4) + Le(|vBytes|, 4)) + data;
      var checksum := Crc32.Crc32Ieee(table, payload);
      assert payload == Payload(Entry(key, value, tombstone, ts));
      var frame := Le(Crc32.Value(checksum, 32), 4) + payload;
      file := file + frame;
      byteSize := byteSize + |frame|;
    }

    /** The recovery loop. */
    method Recover(table: array<bv32>) returns (r: Recovery)
      requires Crc32.IsTable(table[..])
      ensures r == RecoverFile(file)
    {
      hide FirstTurn, RecoverFile, Prepend;
      NothingPrepended(RecoverFile(file));
      assert file[0..] == file;
      var entries: seq<Entry> := [];
      var pos := 0;
      while pos + HEADER <= |file|
        invariant pos <= |file|
        invariant RecoverFile(file) == Prepend(entries, RecoverFile(file[pos..]))
      {
        Unfold(file[pos..]);
        var t := ReadTurn(table, file[pos..]);
        if t.Stop? {
          return Prepend(entries, t.result);
        }
        assert file[pos..][t.length..] == file[pos + t.length..];
        PrependTwice(entries, [t.entry], RecoverFile(file[pos + t.length..]));
        entries := entries + [t.entry];
        pos := pos + t.length;
      }
      ShortFile(file[pos..]);
      return Prepend(entries, Recovered([]));
    }

    /** The body of the loop: header, buffers, checksum, record. */
    method ReadTurn(table: array<bv32>, rest: Bytes) returns (t: Turn)
      requires Crc32.IsTable(table[..]) && |rest| >= HEADER
      ensures t == FirstTurn(rest)
    {
      hide Crc32.Checksum, Crc32.Value;
      hide FirstTurn, Sum, ToI64, FromLe, Word32, ReadPayload, ReadEntry;
      var kSize, vSize := Word32(rest, 12), Word32(rest, 16);
      var n := (kSize + vSize) % U32;
      TurnAt(rest);
      if (16 + n) % U32 < 16 {
        return Stop(Panicked);
      }
      if |rest| - HEADER < n {
        return Stop(Recovered([]));
      }
      var dataBuf := rest[HEADER..HEADER + n];
      var payloadBuf := rest[4..HEADER] + dataBuf;
      BufferedRead(rest);
      var actual := Crc32.Crc32Ieee(table, payloadBuf);
      SumIs(payloadBuf);
      if Crc32.Value(actual, 32) != Word32(rest, 0) {
        return Stop(Corrupt([]));
      }
      if kSize > n {
        return Stop(Panicked);
      }
      var val := if vSize > 0 then dataBuf[kSize..] else [];
      return Take(Entry(dataBuf[..kSize], val, vSize == 0, ToI64(FromLe(rest[4..12]))), HEADER + n);
    }

    /** Reset truncates the file. */
    method Reset()
      modifies this
      ensures file == [] && byteSize == 0
    {
      file, byteSize := [], 0;
    }
  }

  lemma TurnAt(file: Bytes)
    requires |file| >= HEADER
    ensures var n := (Word32(file, 12) + Word32(file, 16)) % U32;
      FirstTurn(file) ==
        if (16 + n) % U32 < 16 then Stop(Panicked)
        else if |file| - HEADER < n then Stop(Recovered([]))
        else if Sum(ReadPayload(file)) != Word32(file, 0) then Stop(Corrupt([]))
        else if Word32(file, 12) > n then Stop(Panicked)
        else Take(ReadEntry(file), HEADER + n)
  {
    hide Sum, Word32, ReadEntry;
  }

  lemma Unfold(file: Bytes)
    ensures var t := FirstTurn(file);
      RecoverFile(file) == if t.Stop? then t.result else Prepend([t.entry], RecoverFile(file[t.length..]))
  {
    hide FirstTurn;
  }

  lemma NothingPrepended(r: Recovery)
    ensures Prepend([], r) == r
  {
    assert r.Recovered? || r.Corrupt? ==> [] + r.entries == r.entries;
  }

  lemma ShortFile(file: Bytes)
    requires |file| < 20
    ensures RecoverFile(file) == Recovered([])
  {}

  /** The buffers the loop fills hold the payload and the record of the frame. */
  lemma BufferedRead(rest: Bytes)
    requires |rest| >= HEADER && |rest| - HEADER >= DataSize(rest)
    ensures var k, n := Word32(rest, 12), DataSize(rest);
      var dataBuf := rest[HEADER..HEADER + n];
      && rest[4..HEADER] + dataBuf == ReadPayload(rest)
      && (k <= n ==> ReadEntry(rest) == Entry(dataBuf[..k], if Word32(rest, 16) > 0 then dataBuf[k..] else [],
                                              Word32(rest, 16) == 0, ToI64(FromLe(rest[4..12]))))
  {
    hide Word32, DataSize, FromLe, ToI64;
    var k, n := Word32(rest, 12), DataSize(rest);
    Adjacent(rest, 4, HEADER, HEADER + n);
    if k <= n {
      SliceOfSlice(rest, HEADER, HEADER + k, HEADER + n);
    }
  }

  lemma Adjacent(s: Bytes, i: nat, j: nat, k: nat)
    requires i <= j <= k <= |s|
    ensures s[i..j] + s[j..k] == s[i..k]
  {}

  lemma SliceOfSlice(s: Bytes, i: nat, j: nat, k: nat)
    requires i <= j <= k <= |s|
    ensures s[i..k][..j - i] == s[i..j] && s[i..k][j - i..] == s[j..k]
  {}

  lemma SumIs(data: Bytes)
    ensures Sum(data) == Crc32.Value(Crc32.Checksum(data), 32)
  {}

  lemma PrependTwice(a: seq<Entry>, b: seq<Entry>, r: Recovery)
    ensures Prepend(a, Prepend(b, r)) == Prepend(a + b, r)
  {
    if r.Recovered? || r.Corrupt? {
      assert a + (b + r.entries) == a + b + r.entries;
    }
  }

  // ----- reading back what was written

  /** The size limit under which a frame's length fields mean what they say. */
  predicate Loggable(e: Entry)
  {
    16 + |e.key| + |StoredValue(e)| < U32 && IsInt64(e.ts)
  }

  predicate AllLoggable(ws: seq<Entry>) { forall e :: e in ws ==> Loggable(e) }

  /** The record a frame stands for: an empty live value comes back as a tombstone. */
  function Logged(e: Entry): Entry { Entry(e.key, StoredValue(e), StoredValue(e) == [], e.ts) }

  function AllLogged(ws: seq<Entry>): (r: seq<Entry>)
    ensures |r| == |ws| && forall i :: 0 <= i < |ws| ==> r[i] == Logged(ws[i])
  {
    seq(|ws|, i requires 0 <= i < |ws| => Logged(ws[i]))
  }

  /** Recovery returns the write itself exactly when it is a deletion or has a non-empty value. */
  lemma LoggedIsFaithful(e: Entry)
    requires e.tombstone ==> e.value == []
    ensures Logged(e) == e <==> e.tombstone || e.value != []
  {}

  /** The fields of a frame, found again at their offsets in any file that starts with it. */
  lemma FrameLayout(e: Entry, rest: Bytes)
    requires Loggable(e)
    ensures var f := Frame(e) + rest; var data := e.key + StoredValue(e);
      && |Frame(e)| == HEADER + |data|
      && Word32(f, 0) == Sum(Payload(e))
      && f[4..12] == Le(ToU64(e.ts), 8)
      && Word32(f, 12) == |e.key| && Word32(f, 16) == |StoredValue(e)|
      && f[HEADER..HEADER + |data|] == data
      && f[4..HEADER + |data|] == Payload(e)
      && f[HEADER + |data|..] == rest
  {
    hide Sum, Le, FromLe;
    var f := Frame(e) + rest;
    var data := e.key + StoredValue(e);
    var sum := Le(Sum(Payload(e)), 4);
    var stamp, kSize, vSize := Le(ToU64(e.ts), 8), Le(|e.key|, 4), Le(|StoredValue(e)|, 4);
    assert Payload(e) == stamp + (kSize + vSize) + data;
    assert f == sum + stamp + kSize + vSize + data + rest;
    assert f[0..4] == sum && f[4..12] == stamp && f[12..16] == kSize && f[16..20] == vSize;
    Le4(Sum(Payload(e)));
    Le4(|e.key|);
    Le4(|StoredValue(e)|);
  }

  /** A frame byte by byte: the checksum of all that follows it, the timestamp in two's complement, the two
      lengths modulo 2^32, the key, the value. A deletion is written without a value, and a value whose length
      is a multiple of 2^32 as zeros. */
  lemma FrameBytes(e: Entry)
    requires IsInt64(e.ts)
    ensures var f, v := Frame(e), if e.tombstone then [] else e.value;
      && |f| == 20 + |e.key| + |v|
      && FromLe(f[0..4]) == Crc32.Value(Crc32.Checksum(f[4..]), 32)
      && FromLe(f[4..12]) == (if e.ts >= 0 then e.ts else 0x1_0000_0000_0000_0000 + e.ts)
      && FromLe(f[12..16]) == |e.key| % 0x1_0000_0000 && FromLe(f[16..20]) == |v| % 0x1_0000_0000
      && f[20..20 + |e.key|] == e.key
      && (|v| % 0x1_0000_0000 > 0 ==> f[20 + |e.key|..] == v)
      && (|v| % 0x1_0000_0000 == 0 ==> forall i :: 20 + |e.key| <= i < |f| ==> f[i] == 0)
  {
    hide Le, FromLe, Crc32.Checksum, Crc32.Value, Frame, Payload, ToU64;
    FrameParts(e, StoredValue(e));
    TimestampBytes(e.ts);
    hide IsInt64;
    var f, v, k := Frame(e), StoredValue(e), |e.key|;
    if |v| % 0x1_0000_0000 == 0 {
      var zeros := f[20 + k..];
      forall i | 20 + k <= i < |f| ensures f[i] == 0 {
        assert f[i] == zeros[i - 20 - k];
      }
    }
  }

  lemma FrameParts(e: Entry, v: Bytes)
    requires v == StoredValue(e)
    ensures var f := Frame(e);
      && |f| == 20 + |e.key| + |v|
      && FromLe(f[0..4]) == Crc32.Value(Crc32.Checksum(f[4..]), 32) && f[4..12] == Le(ToU64(e.ts), 8)
      && FromLe(f[12..16]) == |e.key| % U32 && FromLe(f[16..20]) == |v| % U32
      && f[20..20 + |e.key|] == e.key && f[20 + |e.key|..] == CopiedValue(v)
  {
    hide Le, FromLe, Crc32.Checksum, Crc32.Value;
    Le4(Sum(Payload(e)));
    Pow256Values();
    LeTruncates(|e.key|, 4);
    LeTruncates(|v|, 4);
    hide Sum, Pow256;
    Parts(Le(Sum(Payload(e)), 4), Le(ToU64(e.ts), 8), Le(|e.key|, 4), Le(|v|, 4), e.key, CopiedValue(v));
    assert Sum(Payload(e)) == Crc32.Value(Crc32.Checksum(Payload(e)), 32) by { SumIs(Payload(e)); }
  }

  lemma Parts(sum: Bytes, stamp: Bytes, k: Bytes, v: Bytes, key: Bytes, value: Bytes)
    requires |sum| == 4 && |stamp| == 8 && |k| == 4 && |v| == 4
    ensures var f := sum + (stamp + (k + v) + (key + value));
      && f[0..4] == sum && f[4..12] == stamp && f[12..16] == k && f[16..20] == v
      && f[20..20 + |key|] == key && f[20 + |key|..] == value && f[4..] == stamp + (k + v) + (key + value)
  {}

  /** What recovery does at the front of any file, decided by its bytes alone: k and v are the lengths found
      there and n is their sum, which wraps at 2^32, as does the size of the buffer that is made for it. */
  lemma HeaderDecides(file: Bytes, k: nat, v: nat, n: nat)
    requires |file| >= 20
    requires k == FromLe(file[12..16]) && v == FromLe(file[16..20]) && n == (k + v) % 0x1_0000_0000
    ensures n >= 0x1_0000_0000 - 16 ==> RecoverFile(file) == Panicked
    ensures n < 0x1_0000_0000 - 16 && |file| < 20 + n ==> RecoverFile(file) == Recovered([])
    ensures n < 0x1_0000_0000 - 16 && |file| >= 20 + n ==>
              if Crc32.Value(Crc32.Checksum(file[4..20 + n]), 32) != FromLe(file[0..4])
              then RecoverFile(file) == Corrupt([])
              else if k > n
              then RecoverFile(file) == Panicked
              else
                var stamp := FromLe(file[4..12]);
                var ts := if stamp < 0x8000_0000_0000_0000 then stamp else stamp - 0x1_0000_0000_0000_0000;
                var e := Entry(file[20..20 + k], if v > 0 then file[20 + k..20 + n] else [], v == 0, ts);
                RecoverFile(file) == Prepend([e], RecoverFile(file[20 + n..]))
  {
    hide Crc32.Checksum, Crc32.Value, FromLe, Prepend;
  }

  /** Recovery of a file that starts with a whole frame takes that record and goes on. */
  lemma RecoverFrame(e: Entry, rest: Bytes)
    requires Loggable(e)
    ensures RecoverFile(Frame(e) + rest) == Prepend([Logged(e)], RecoverFile(rest))
  {
    hide Sum, Le, FromLe, Frame, Payload, ToU64, ToI64;
    var f := Frame(e) + rest;
    FrameLayout(e, rest);
    var data := e.key + StoredValue(e);
    assert DataSize(f) == |data|;
    var k := |e.key|;
    assert f[HEADER..HEADER + k] == f[HEADER..HEADER + |data|][..k] == e.key;
    assert f[HEADER + k..HEADER + |data|] == f[HEADER..HEADER + |data|][k..] == StoredValue(e);
    TimestampRoundTrip(e.ts);
    assert ReadEntry(f) == Logged(e);
  }

  /** A strict prefix of a frame is taken for an incomplete trailing write. */
  lemma RecoverTorn(e: Entry, n: nat)
    requires Loggable(e) && n < |Frame(e)|
    ensures RecoverFile(Frame(e)[..n]) == Recovered([])
  {
    hide Sum, Le, FromLe, Frame, Payload, ToU64, ToI64;
    FrameLayout(e, []);
    var f := Frame(e);
    assert f + [] == f;
    if n >= HEADER {
      var t := f[..n];
      assert t[12..16] == f[12..16] && t[16..20] == f[16..20];
      assert DataSize(t) == |e.key + StoredValue(e)|;
    }
  }

  lemma {:induction false} RecoverLog(ws: seq<Entry>, rest: Bytes)
    requires AllLoggable(ws)
    ensures RecoverFile(Log(ws) + rest) == Prepend(AllLogged(ws), RecoverFile(rest))
    decreases |ws|
  {
    hide RecoverFile, Frame, Loggable, Logged;
    if ws == [] {
      assert Log(ws) + rest == rest;
      assert AllLogged(ws) == [];
    } else {
      RecoverLog(ws[1..], rest);
      RecoverFrame(ws[0], Log(ws[1..]) + rest);
      assert Log(ws) + rest == Frame(ws[0]) + (Log(ws[1..]) + rest);
      PrependTwice([Logged(ws[0])], AllLogged(ws[1..]), RecoverFile(rest));
      assert AllLogged(ws) == [Logged(ws[0])] + AllLogged(ws[1..]);
    }
  }

  lemma {:induction false} LogConcat(a: seq<Entry>, b: seq<Entry>)
    ensures Log(a + b) == Log(a) + Log(b)
  {
    hide Frame;
    if a == [] {
      assert a + b == b;
    } else {
      LogConcat(a[1..], b);
      ConcatFirst(a, b);
      PlusAssociates(Frame(a[0]), Log(a[1..]), Log(b));
    }
  }

  /** Wherever the file is cut, recovery yields exactly the records whose frames lie wholly
      before the cut. */
  lemma RecoverCut(ws: seq<Entry>, n: nat, cut: nat)
    requires AllLoggable(ws) && n <= |ws|
    requires |Log(ws[..n])| <= cut <= |Log(ws)|
    requires n < |ws| ==> cut < |Log(ws[..n + 1])|
    ensures RecoverFile(Log(ws)[..cut]) == Recovered(AllLogged(ws[..n]))
  {
    hide RecoverFile, Frame, Loggable, Logged;
    LogConcat(ws[..n], ws[n..]);
    assert ws == ws[..n] + ws[n..];
    if n == |ws| {
      assert Log(ws)[..cut] == Log(ws[..n]) + [];
      RecoverLog(ws[..n], []);
      assert RecoverFile([]) == Recovered([]) by { RecoverEmpty(); }
    } else {
      var e, m := ws[n], cut - |Log(ws[..n])|;
      assert ws[n..] == [e] + ws[n + 1..];
      LogConcat([e], ws[n + 1..]);
      LogConcat(ws[..n], [e]);
      assert ws[..n] + [e] == ws[..n + 1];
      assert Log([e]) == Frame(e) + Log([]) == Frame(e);
      assert Log(ws)[..cut] == Log(ws[..n]) + Frame(e)[..m];
      RecoverTorn(e, m);
      RecoverLog(ws[..n], Frame(e)[..m]);
    }
    assert AllLogged(ws[..n]) + [] == AllLogged(ws[..n]);
  }

  lemma RecoverEmpty()
    ensures RecoverFile([]) == Recovered([])
  {}

  /** Every cut falls before, inside or after exactly one frame, so RecoverCut covers them all. */
  lemma {:induction false} CutFallsSomewhere(ws: seq<Entry>, cut: nat) returns (n: nat)
    requires cut <= |Log(ws)|
    ensures n <= |ws| && |Log(ws[..n])| <= cut
    ensures n < |ws| ==> cut < |Log(ws[..n + 1])|
    decreases |ws|
  {
    hide Frame;
    assert ws[..|ws|] == ws;
    n := |ws|;
    while n > 0 && cut < |Log(ws[..n])|
      invariant n <= |ws|
      invariant n < |ws| ==> cut < |Log(ws[..n + 1])|
    {
      n := n - 1;
    }
    assert n == 0 ==> ws[..n] == [];
  }

  /** A torn frame is not cut off before the next append. If its header is whole, it takes what follows
      for its own data, and as long as it is not filled up the next recovery returns none of the writes
      appended since, without an error. */
  lemma TornTailSwallows(ws: seq<Entry>, torn: Entry, n: nat, later: seq<Entry>)
    requires AllLoggable(ws) && Loggable(torn) && HEADER <= n && n + |Log(later)| < |Frame(torn)|
    ensures RecoverFile(Log(ws) + (Frame(torn)[..n] + Log(later))) == Recovered(AllLogged(ws))
  {
    hide Sum, Le, FromLe, Frame, Payload, ToU64, ToI64, Log;
    FrameLayout(torn, []);
    var f, t := Frame(torn), Frame(torn)[..n] + Log(later);
    assert f + [] == f;
    assert t[12..16] == f[12..16] && t[16..20] == f[16..20];
    assert DataSize(t) == |torn.key + StoredValue(torn)|;
    RecoverLog(ws, t);
    assert AllLogged(ws) + [] == AllLogged(ws);
  }

  /** Once later appends fill the torn frame up, recovery stops there as corrupt, so that the engine does
      not open, exactly when the checksum of what fills it differs. */
  lemma TornTailFilled(ws: seq<Entry>, torn: Entry, n: nat, later: seq<Entry>)
    requires AllLoggable(ws) && Loggable(torn) && HEADER <= n < |Frame(torn)| <= n + |Log(later)|
    ensures var t := Frame(torn)[..n] + Log(later);
      RecoverFile(Log(ws) + t) == Corrupt(AllLogged(ws)) <==> Sum(t[4..|Frame(torn)|]) != Sum(Payload(torn))
  {
    hide Sum, Le, FromLe, Frame, Payload, ToU64, ToI64, Log, RecoverFile, ReadEntry;
    FrameLayout(torn, []);
    var f, t := Frame(torn), Frame(torn)[..n] + Log(later);
    assert f + [] == f;
    assert t[0..4] == f[0..4] && t[12..16] == f[12..16] && t[16..20] == f[16..20];
    assert DataSize(t) == |torn.key + StoredValue(torn)|;
    RecoverLog(ws, t);
    TurnAt(t);
    Unfold(t);
    hide FirstTurn, DataSize;
    assert AllLogged(ws) + [] == AllLogged(ws);
  }

  /** Behind a stump shorter than a header, the next recovery reads a header that is part stump and part
      the frames appended since, the first of which it has so lost. What follows depends on the sizes and
      the checksum it reads there: nothing more is recovered, and no error reported, exactly when the sizes
      reach beyond the end of the file; the log is corrupt exactly when they do not and the checksum
      differs; and if it does not, recovery goes on from a record that was never written. */
  lemma TornHeader(ws: seq<Entry>, torn: Entry, n: nat, later: seq<Entry>)
    requires AllLoggable(ws) && n < HEADER && later != []
    ensures var t := Frame(torn)[..n] + Log(later);
      && |t| >= HEADER && t[..n] == Frame(torn)[..n] && t[n..HEADER] == Log(later)[..HEADER - n]
      && RecoverFile(Log(ws) + t) ==
         if (16 + DataSize(t)) % U32 < 16 then Panicked
         else if |t| - HEADER < DataSize(t) then Recovered(AllLogged(ws))
         else if Sum(ReadPayload(t)) != Word32(t, 0) then Corrupt(AllLogged(ws))
         else if Word32(t, 12) > DataSize(t) then Panicked
         else Prepend(AllLogged(ws) + [ReadEntry(t)], RecoverFile(t[HEADER + DataSize(t)..]))
  {
    hide Sum, Frame, Log, RecoverFile, ReadEntry, AllLoggable, Word32;
    FrameIsLong(torn);
    LogIsLong(later);
    var t := Frame(torn)[..n] + Log(later);
    RecoverLog(ws, t);
    TurnAt(t);
    Unfold(t);
    hide FirstTurn, DataSize;
    assert AllLogged(ws) + [] == AllLogged(ws);
    if |t| >= HEADER + DataSize(t) && Word32(t, 12) <= DataSize(t) {
      PrependTwice(AllLogged(ws), [ReadEntry(t)], RecoverFile(t[HEADER + DataSize(t)..]));
    }
  }

  lemma FrameIsLong(e: Entry)
    ensures |Frame(e)| >= HEADER
  {
    hide Sum;
  }

  lemma LogIsLong(ws: seq<Entry>)
    requires ws != []
    ensures |Log(ws)| >= HEADER
  {
    hide Frame;
    FrameIsLong(ws[0]);
  }

  lemma FilledParts(f: Bytes, tail: Bytes, n: nat)
    requires 4 <= n <= |f| <= n + |tail|
    ensures var t := f[..n] + tail;
      && f == f[..4] + f[4..n] + f[n..] && t[..|f|] == f[..4] + f[4..n] + t[n..|f|]
      && f[4..] == f[4..n] + f[n..] && t[4..|f|] == f[4..n] + t[n..|f|]
  {}

  /** It always differs when no more than the last four bytes of the frame are missing, unless what fills
      it happens to be what is missing. */
  lemma TornTailDetected(ws: seq<Entry>, torn: Entry, n: nat, later: seq<Entry>)
    requires AllLoggable(ws) && Loggable(torn)
    requires HEADER <= n < |Frame(torn)| <= n + |Log(later)| && |Frame(torn)| <= n + 4
    ensures var t := Frame(torn)[..n] + Log(later);
      t[..|Frame(torn)|] != Frame(torn) ==> RecoverFile(Log(ws) + t) == Corrupt(AllLogged(ws))
  {
    hide Sum, Le, FromLe, Frame, Payload, Log, RecoverFile, Crc32.Checksum, Word32;
    var f, t := Frame(torn), Frame(torn)[..n] + Log(later);
    assert f + [] == f;
    FrameLayout(torn, []);
    TornTailFilled(ws, torn, n, later);
    var p, x, y := f[4..n], f[n..], t[n..|f|];
    FilledParts(f, Log(later), n);
    assert Payload(torn) == p + x + [] && t[4..|f|] == p + y + [];
    if x != y {
      Crc32.BurstDetected(p, x, y, []);
      SumInjective(p + x + [], p + y + []);
    }
  }

  // ----- damage

  /** f and g differ, but only at positions in [a, b), a window of at most four bytes. */
  predicate DifferWithin(f: Bytes, g: Bytes, a: nat, b: nat)
    requires |f| == |g| && a <= b <= |f|
  {
    b - a <= 4 && f != g && f[..a] == g[..a] && f[b..] == g[b..]
  }

  /** The window lies in the checksum, in the timestamp, or in the key and value bytes. */
  predicate SparesSizes(f: Bytes, a: nat, b: nat)
  {
    b <= 4 || (4 <= a && b <= 12) || HEADER <= a
  }

  /** A damaged frame is caught by its checksum. */
  lemma RecoverDamaged(e: Entry, g: Bytes, a: nat, b: nat, rest: Bytes)
    requires Loggable(e) && |g| == |Frame(e)| && a <= b <= |g|
    requires DifferWithin(Frame(e), g, a, b) && SparesSizes(g, a, b)
    ensures RecoverFile(g + rest) == Corrupt([])
  {
    hide Sum, Le, FromLe, Frame, Payload, ToU64, DifferWithin, SparesSizes, FirstTurn;
    FrameLayout(e, []);
    var f, d := Frame(e), g + rest;
    assert f + [] == f;
    DamageSparesSizes(f, g, a, b, rest);
    assert DataSize(d) == |e.key + StoredValue(e)|;
    assert ReadPayload(d) == g[4..];
    assert d[0..4] == g[..4] && f[0..4] == f[..4];
    DamageCaught(f, g, a, b);
    TurnAt(d);
  }

  /** The damaged frame's checksum and payload no longer agree. */
  lemma DamageCaught(f: Bytes, g: Bytes, a: nat, b: nat)
    requires |f| == |g| >= HEADER && a <= b <= |f|
    requires DifferWithin(f, g, a, b) && SparesSizes(g, a, b)
    requires FromLe(f[..4]) == Sum(f[4..])
    ensures FromLe(g[..4]) != Sum(g[4..])
  {
    hide Sum, FromLe;
    var p, q := f[4..], g[4..];
    if b <= 4 {
      assert p == f[b..][4 - b..] && q == g[b..][4 - b..];
      assert f == f[..4] + p && g == g[..4] + q;
      FromLeInjective(f[..4], g[..4]);
    } else {
      assert f[..4] == f[..a][..4] && g[..4] == g[..a][..4];
      assert f[4..a] == f[..a][4..] == g[..a][4..] == g[4..a];
      assert p == f[4..a] + f[a..b] + f[b..] && q == g[4..a] + g[a..b] + g[b..];
      assert f == f[..a] + f[a..b] + f[b..] && g == g[..a] + g[a..b] + g[b..];
      Crc32.BurstDetected(f[4..a], f[a..b], g[a..b], f[b..]);
      SumInjective(p, q);
    }
  }

  lemma DamageSparesSizes(f: Bytes, g: Bytes, a: nat, b: nat, rest: Bytes)
    requires |f| == |g| >= HEADER && a <= b <= |f|
    requires DifferWithin(f, g, a, b) && SparesSizes(g, a, b)
    ensures (g + rest)[12..16] == f[12..16] && (g + rest)[16..20] == f[16..20]
  {
    forall i | 12 <= i < 20 ensures f[i] == g[i] {
      if i < a {
        assert f[i] == f[..a][i] && g[i] == g[..a][i];
      } else {
        assert f[i] == f[b..][i - b] && g[i] == g[b..][i - b];
      }
    }
  }

  lemma SumInjective(p: Bytes, q: Bytes)
    requires Crc32.Checksum(p) != Crc32.Checksum(q)
    ensures Sum(p) != Sum(q)
  {
    hide Crc32.Checksum, Crc32.Value;
    if Sum(p) == Sum(q) {
      Crc32.SameValue(Crc32.Checksum(p), Crc32.Checksum(q));
    }
  }

  lemma {:induction false} FromLeInjective(a: Bytes, b: Bytes)
    requires |a| == |b| && a != b
    ensures FromLe(a) != FromLe(b)
    decreases |a|
  {
    if a != [] {
      assert a == [a[0]] + a[1..] && b == [b[0]] + b[1..];
      if a[1..] != b[1..] {
        FromLeInjective(a[1..], b[1..]);
      }
    }
  }

  /** Damage of at most four consecutive bytes anywhere in one frame but its size fields is always
      caught: recovery returns exactly the records before it, and reports corruption. */
  lemma CorruptionDetected(ws: seq<Entry>, i: nat, g: Bytes, a: nat, b: nat)
    requires AllLoggable(ws) && i < |ws|
    requires |g| == |Frame(ws[i])| && a <= b <= |g|
    requires DifferWithin(Frame(ws[i]), g, a, b) && SparesSizes(g, a, b)
    ensures Log(ws) == Log(ws[..i]) + Frame(ws[i]) + Log(ws[i + 1..])
    ensures RecoverFile(Log(ws[..i]) + g + Log(ws[i + 1..])) == Corrupt(AllLogged(ws[..i]))
  {
    hide RecoverFile, Frame, Loggable, Logged, DifferWithin, SparesSizes, Log;
    var rest := Log(ws[i + 1..]);
    LogSplit(ws, i);
    RecoverDamaged(ws[i], g, a, b, rest);
    RecoverLog(ws[..i], g + rest);
    assert Log(ws[..i]) + g + rest == Log(ws[..i]) + (g + rest);
    assert AllLogged(ws[..i]) + [] == AllLogged(ws[..i]);
  }

  lemma LogSplit(ws: seq<Entry>, i: nat)
    requires i < |ws|
    ensures Log(ws) == Log(ws[..i]) + (Frame(ws[i]) + Log(ws[i + 1..]))
  {
    hide Frame, Log;
    SplitAt(ws, i);
    LogFirst(ws[i..]);
    LogConcat(ws[..i], ws[i..]);
  }

  lemma LogFirst(ws: seq<Entry>)
    requires ws != []
    ensures Log(ws) == Frame(ws[0]) + Log(ws[1..])
  {
    hide Frame;
  }
}
