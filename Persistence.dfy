/** The plugin's save-game persistence: one fixed-size snapshot buffer that
    the host's save callback writes as a single 'DATA' record, the load
    callback refills from the records it finds, and the revert callback
    clears. */
module Persistence {
  import opened RecordStream

  /** The record type tag 'DATA', as the compiler packs a four-character
      literal: the first character in the most significant byte. */
  const DataTag: u32 := 0x4441_5441

  /** serializationDataVersion. */
  const DataVersion: u32 := 1

  /** The snapshot's size, sizeof(RE::TESObjectWEAP). The value belongs to
      a host header that is not part of this model; no proof depends on it. */
  const SnapshotSize: nat := 0x220

  /** A record the reader recognises: type 'DATA' at the current version.
      Any other record ends the load with an error. */
  predicate Accepted(r: Record)
  {
    r.tag == DataTag && r.version == DataVersion
  }

  /** A recognised record whose payload is exactly one snapshot. */
  predicate Fits(r: Record)
  {
    Accepted(r) && r.Length() == SnapshotSize
  }

  /** What a load leaves behind: the snapshot, the error flag and the
      reader's cursor (how many headers were taken from the stream). */
  datatype LoadResult = LoadResult(snapshot: seq<byte>, error: bool, cursor: nat)

  /** The load loop, record by record, starting at index `i` of the stream
      with snapshot `b`. */
  function LoadFrom(rs: seq<Record>, i: nat, b: seq<byte>): (r: LoadResult)
    requires i <= |rs|
    ensures i <= r.cursor <= |rs|
    ensures !r.error ==> r.cursor == |rs|
    ensures r.error ==> i < r.cursor && !Accepted(rs[r.cursor - 1])
    ensures r.snapshot == b || exists k :: i <= k < r.cursor && Fits(rs[k]) && r.snapshot == rs[k].payload
    decreases |rs| - i
  {
    if i == |rs| then LoadResult(b, false, i)
    else if !Accepted(rs[i]) then LoadResult(b, true, i + 1)
    else if rs[i].Length() != SnapshotSize then LoadFrom(rs, i + 1, b)
    else LoadFrom(rs, i + 1, rs[i].payload)
  }

  /** Reference definition: the payload of the last fitting record of `s`,
      or `b` when there is none. */
  function LastFitting(s: seq<Record>, b: seq<byte>): (p: seq<byte>)
    ensures p == b || exists k :: 0 <= k < |s| && Fits(s[k]) && p == s[k].payload
  {
    if s == [] then b
    else if Fits(s[|s| - 1]) then s[|s| - 1].payload
    else LastFitting(s[..|s| - 1], b)
  }

  /** Index of the first record at or after `i` that the reader rejects, or
      |rs| when it accepts them all. */
  function FirstRejected(rs: seq<Record>, i: nat): (j: nat)
    requires i <= |rs|
    ensures i <= j <= |rs|
    ensures j < |rs| ==> !Accepted(rs[j])
    ensures forall k :: i <= k < j ==> Accepted(rs[k])
    decreases |rs| - i
  {
    if i == |rs| || !Accepted(rs[i]) then i else FirstRejected(rs, i + 1)
  }

  /** The records one save writes: the whole snapshot under 'DATA' version 1
      when the host opens the record, nothing when it refuses. */
  function SavedRecords(b: seq<byte>, accepted: bool): (out: seq<Record>)
    ensures |out| <= 1
    ensures accepted <==> out != []
    ensures accepted ==> (Fits(out[0]) <==> |b| == SnapshotSize)
  {
    if accepted then [Record(DataTag, DataVersion, b)] else []
  }

  lemma {:induction false} LastFittingPrepend(r: Record, s: seq<Record>, b: seq<byte>)
    ensures LastFitting([r] + s, b) == LastFitting(s, if Fits(r) then r.payload else b)
    decreases |s|
  {
    if s == [] {
      assert [r] + s == [r];
      assert [r][..0] == [];
    } else {
      var t := [r] + s;
      assert t[|t| - 1] == s[|s| - 1];
      assert t[..|t| - 1] == [r] + s[..|s| - 1];
      LastFittingPrepend(r, s[..|s| - 1], b);
    }
  }

  /** The load loop, summed up: it reads up to and including the first
      rejected record, sets the error flag exactly when there is one, and
      leaves the payload of the last fitting record before it (or the prior
      snapshot when none fits). */
  lemma {:induction false} LoadCharacterised(rs: seq<Record>, i: nat, b: seq<byte>)
    requires i <= |rs|
    ensures var j := FirstRejected(rs, i);
      LoadFrom(rs, i, b) == LoadResult(LastFitting(rs[i..j], b), j < |rs|, if j < |rs| then j + 1 else |rs|)
    decreases |rs| - i
  {
    var j := FirstRejected(rs, i);
    if i == |rs| || !Accepted(rs[i]) {
      assert j == i && rs[i..j] == [];
    } else {
      LoadCharacterised(rs, i + 1, if Fits(rs[i]) then rs[i].payload else b);
      assert j == FirstRejected(rs, i + 1);
      assert rs[i..j] == [rs[i]] + rs[i + 1..j];
      LastFittingPrepend(rs[i], rs[i + 1..j], b);
    }
  }

  /** The error flag is set exactly when some remaining record has an
      unknown type or a wrong version. */
  lemma LoadErrorIffRejected(rs: seq<Record>, i: nat, b: seq<byte>)
    requires i <= |rs|
    ensures LoadFrom(rs, i, b).error <==> exists k :: i <= k < |rs| && !Accepted(rs[k])
  {
    LoadCharacterised(rs, i, b);
  }

  /** Without an error the loop runs to the end of the stream, and the
      snapshot is the last fitting record's payload, or the prior one. */
  lemma LoadWithoutErrorConsumesAll(rs: seq<Record>, i: nat, b: seq<byte>)
    requires i <= |rs|
    requires !LoadFrom(rs, i, b).error
    ensures LoadFrom(rs, i, b).cursor == |rs|
    ensures LoadFrom(rs, i, b).snapshot == LastFitting(rs[i..], b)
  {
    LoadCharacterised(rs, i, b);
    assert rs[i..FirstRejected(rs, i)] == rs[i..];
  }

  /** A rejected record (unknown type or wrong version) after records the
      reader accepted ends the load right after it, with the error flag
      set, and the snapshot keeps what those earlier records left in it:
      the rejected record touches nothing. */
  lemma {:induction false} RejectedRecordEndsLoad(rs: seq<Record>, i: nat, j: nat, b: seq<byte>)
    requires i <= j < |rs|
    requires forall k :: i <= k < j ==> Accepted(rs[k])
    requires !Accepted(rs[j])
    ensures LoadFrom(rs, i, b) == LoadResult(LoadFrom(rs[..j], i, b).snapshot, true, j + 1)
    decreases j - i
  {
    if i < j {
      var b' := if Fits(rs[i]) then rs[i].payload else b;
      RejectedRecordEndsLoad(rs, i + 1, j, b');
      assert rs[..j][i] == rs[i];
    }
  }

  /** A record of another type sets the error flag and leaves the snapshot
      as it was. */
  lemma UnknownTypeStops(rs: seq<Record>, i: nat, b: seq<byte>)
    requires i < |rs| && rs[i].tag != DataTag
    ensures LoadFrom(rs, i, b) == LoadResult(b, true, i + 1)
  {
  }

  /** A 'DATA' record of another version sets the error flag and leaves the
      snapshot as it was. */
  lemma VersionMismatchStops(rs: seq<Record>, i: nat, b: seq<byte>)
    requires i < |rs| && rs[i].tag == DataTag && rs[i].version != DataVersion
    ensures LoadFrom(rs, i, b) == LoadResult(b, true, i + 1)
  {
  }

  /** A 'DATA' version-1 record of the wrong length is skipped: the loop
      goes on with the next record and the same snapshot. */
  lemma WrongLengthSkipped(rs: seq<Record>, i: nat, b: seq<byte>)
    requires i < |rs| && Accepted(rs[i]) && rs[i].Length() != SnapshotSize
    ensures LoadFrom(rs, i, b) == LoadFrom(rs, i + 1, b)
  {
  }

  /** A fitting record replaces the whole snapshot before the loop goes on. */
  lemma FittingRecordOverwrites(rs: seq<Record>, i: nat, b: seq<byte>)
    requires i < |rs| && Fits(rs[i])
    ensures LoadFrom(rs, i, b) == LoadFrom(rs, i + 1, rs[i].payload)
  {
  }

  /** Save then load: the record one save writes brings back the snapshot
      it was written from, whatever the loading side held before. When the
      host refused the record nothing is written and the load changes
      nothing. */
  lemma SaveLoadRoundTrip(b: seq<byte>, prior: seq<byte>, accepted: bool)
    requires |b| == SnapshotSize
    ensures LoadFrom(SavedRecords(b, accepted), 0, prior) ==
            if accepted then LoadResult(b, false, 1) else LoadResult(prior, false, 0)
  {
  }

  /** The plugin's snapshot buffer (the global `myWeap`) and the three
      serialization callbacks that work on it. */
  class Snapshot {
    var bytes: array<byte>

    ghost predicate Valid()
      reads this
    {
      bytes.Length == SnapshotSize
    }

    constructor ()
      ensures Valid() && fresh(bytes)
      ensures forall k :: 0 <= k < bytes.Length ==> bytes[k] == 0
    {
      bytes := new byte[SnapshotSize](_ => 0);
    }

    /** Serialization_Revert: every byte of the buffer becomes zero,
        whatever it held. */
    method Revert()
      requires Valid()
      modifies bytes
      ensures Valid()
      ensures forall k :: 0 <= k < bytes.Length ==> bytes[k] == 0
    {
      forall k | 0 <= k < bytes.Length {
        bytes[k] := 0;
      }
    }

    /** Serialization_Save: opens one 'DATA' version-1 record and, only if
        the host accepts it, writes the whole buffer into it. */
    method Save(w: RecordWriter)
      requires Valid() && w.Valid()
      modifies w`written, w`open
      ensures Valid() && w.Valid()
      ensures w.written == old(w.written) + SavedRecords(bytes[..], w.accepting)
      ensures w.open == (old(w.open) || w.accepting)
    {
      var isOpen := w.OpenRecord(DataTag, DataVersion);
      if isOpen {
        var ok := w.WriteRecordData(bytes, SnapshotSize);
        assert [] + bytes[..SnapshotSize] == bytes[..];
        assert w.written == old(w.written) + [Record(DataTag, DataVersion, bytes[..])];
      }
    }

    /** Serialization_Load: reads records until the stream runs out or one
        is rejected. The result is the load loop of LoadFrom, started at
        the reader's cursor with the buffer's old contents; `error` is the
        loop's error flag. */
    method Load(r: RecordReader) returns (error: bool)
      requires Valid() && r.Valid()
      modifies bytes, r`cursor, r`offset
      ensures Valid() && r.Valid()
      ensures LoadFrom(r.records, old(r.cursor), old(bytes[..])) == LoadResult(bytes[..], error, r.cursor)
    {
      ghost var start := LoadFrom(r.records, r.cursor, bytes[..]);
      error := false;
      var exhausted := false;
      while !error && !exhausted
        invariant r.Valid() && Valid()
        invariant old(r.cursor) <= r.cursor
        invariant error ==> !exhausted && start == LoadResult(bytes[..], true, r.cursor)
        invariant exhausted ==> r.cursor == |r.records|
        invariant !error ==> start == LoadFrom(r.records, r.cursor, bytes[..])
        decreases |r.records| - r.cursor, if error || exhausted then 0 else 1
      {
        var found, tag, version, length := r.GetNextRecordInfo();
        if !found {
          exhausted := true;
        } else if tag == DataTag {
          if version == DataVersion {
            if length == SnapshotSize {
              var read := r.ReadRecordData(bytes, length);
              assert bytes[..] == bytes[..read] == r.records[r.cursor - 1].payload;
            }
          } else {
            error := true;
          }
        } else {
          error := true;
        }
      }
    }
  }

  /** A save followed by a load of what it wrote: the loading buffer ends
      up equal to the saved one, or unchanged when the host refused to
      open the record. */
  method SaveThenLoad(saved: Snapshot, loaded: Snapshot, accepting: bool) returns (error: bool)
    requires saved.Valid() && loaded.Valid()
    modifies loaded.bytes
    ensures loaded.Valid() && !error
    ensures loaded.bytes[..] == if accepting then saved.bytes[..] else old(loaded.bytes[..])
  {
    var w := new RecordWriter(accepting);
    saved.Save(w);
    var r := new RecordReader(w.written);
    error := loaded.Load(r);
    SaveLoadRoundTrip(saved.bytes[..], old(loaded.bytes[..]), accepting);
  }
}
