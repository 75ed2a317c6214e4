/** The replicated log of go/pkg/raft/log.go: one slice whose entry 0 is a base for 1-based indexing. */
module RaftLog {
  import opened Bytes

  datatype LogEntry = LogEntry(term: nat, index: nat, command: string, key: Bytes, value: Bytes)

  const BASE := LogEntry(0, 0, "", [], [])

  /** Entry i has index i, from the base on, and terms never decrease. */
  predicate Indexed(log: seq<LogEntry>)
  {
    && log != [] && log[0] == BASE
    && (forall i :: 0 <= i < |log| ==> log[i].index == i)
    && (forall i, j :: 0 <= i <= j < |log| ==> log[i].term <= log[j].term)
  }

  class ReplicatedLog {
    var entries: seq<LogEntry>

    constructor ()
      ensures entries == [BASE] && Indexed(entries)
    {
      entries := [BASE];
    }

    method Append(more: seq<LogEntry>)
      modifies this
      ensures entries == old(entries) + more
    {
      entries := entries + more;
    }

    /** Dropping from index 0 on takes the base as well. */
    method TruncateFrom(index: nat)
      modifies this
      ensures entries == if index < |old(entries)| then old(entries)[..index] else old(entries)
      ensures Indexed(old(entries)) ==> (Indexed(entries) <==> index > 0)
    {
      if index < |entries| {
        entries := entries[..index];
      }
    }

    method GetEntry(index: nat) returns (entry: LogEntry, found: bool)
      ensures found == (index < |entries|)
      ensures found && Indexed(entries) ==> entry.index == index
      ensures entry == if found then entries[index] else BASE
    {
      if index >= |entries| {
        return BASE, false;
      }
      return entries[index], true;
    }

    method GetEntriesFrom(index: nat) returns (copied: seq<LogEntry>)
      ensures index <= |entries| ==> entries[..index] + copied == entries
      ensures index > |entries| ==> copied == []
    {
      if index >= |entries| {
        return [];
      }
      copied := entries[index..];
    }

    /** No result where the code would index an empty slice. */
    method LastLogInfo() returns (info: Option<(nat, nat)>)
      ensures info.None? <==> entries == []
      ensures Indexed(entries) ==> info == Some((|entries| - 1, entries[|entries| - 1].term))
      ensures Indexed(entries) ==> forall i :: 0 <= i < |entries| ==> entries[i].term <= info.value.1
    {
      if entries == [] {
        return None;
      }
      var last := entries[|entries| - 1];
      info := Some((last.index, last.term));
    }

    /** len - 1 as an unsigned 64-bit number. */
    method LastIndex() returns (index: nat)
      ensures 0 < |entries| <= U64 ==> index == |entries| - 1
      ensures entries == [] ==> index == U64 - 1
    {
      index := (|entries| - 1) % U64;
    }

    method EntriesSnapshot() returns (copied: seq<LogEntry>)
      ensures copied == entries
    {
      copied := entries;
    }
  }

  /** A proposal at the end of the log keeps it indexed. */
  lemma AppendKeepsIndexed(log: seq<LogEntry>, e: LogEntry)
    requires Indexed(log)
    ensures Indexed(log + [e]) <==> e.index == |log| && e.term >= log[|log| - 1].term
  {
    var grown := log + [e];
    assert grown[|log|] == e && grown[|log| - 1] == log[|log| - 1];
    if e.index == |log| && e.term >= log[|log| - 1].term {
      forall i, j | 0 <= i <= j < |grown| ensures grown[i].term <= grown[j].term {
        assert i < |log| ==> log[i].term <= log[|log| - 1].term;
      }
    }
  }
}
