/** The host's save-game serialization interface, as seen by one plugin.
    On load the host hands the plugin the records it wrote, one header at a
    time (GetNextRecordInfo) and the payload of the current record on request
    (ReadRecordData). On save the plugin opens a typed, versioned record
    (OpenRecord) and appends bytes to it (WriteRecordData). */
module RecordStream {

  newtype byte = x: int | 0 <= x < 0x100
  newtype u32 = x: int | 0 <= x < 0x1_0000_0000

  /** One record of the plugin's part of a save: a four-character type tag,
      a version and the bytes written under that header. The header's length
      field is the number of bytes in the record, so it is derived here. */
  datatype Record = Record(tag: u32, version: u32, payload: seq<byte>)
  {
    function Length(): nat { |payload| }
  }

  function Min(a: nat, b: nat): (m: nat)
    ensures m <= a && m <= b && (m == a || m == b)
  {
    if a <= b then a else b
  }

  /** The load side: a cursor over the records of the plugin's stream. */
  class RecordReader {
    const records: seq<Record>
    var cursor: nat   // number of headers already handed out
    var offset: nat   // bytes of the current record already read

    ghost predicate Valid()
      reads this
    {
      cursor <= |records| &&
      (cursor == 0 ==> offset == 0) &&
      (cursor > 0 ==> offset <= records[cursor - 1].Length())
    }

    constructor (records: seq<Record>)
      ensures Valid()
      ensures this.records == records && cursor == 0 && offset == 0
    {
      this.records := records;
      cursor := 0;
      offset := 0;
    }

    /** Moves to the next record and reports its header; `found` is false
        once the stream is exhausted. */
    method GetNextRecordInfo() returns (found: bool, tag: u32, version: u32, length: nat)
      requires Valid()
      modifies this`cursor, this`offset
      ensures Valid()
      ensures found <==> old(cursor) < |records|
      ensures found ==> cursor == old(cursor) + 1 && offset == 0
      ensures found ==> tag == records[old(cursor)].tag && version == records[old(cursor)].version
      ensures found ==> length == records[old(cursor)].Length()
      ensures !found ==> cursor == old(cursor) && offset == old(offset)
    {
      if cursor < |records| {
        var r := records[cursor];
        found, tag, version, length := true, r.tag, r.version, r.Length();
        cursor := cursor + 1;
        offset := 0;
      } else {
        found, tag, version, length := false, 0, 0, 0;
      }
    }

    /** Copies up to `length` of the current record's unread bytes to the
        front of `dst` and returns how many were copied. */
    method ReadRecordData(dst: array<byte>, length: nat) returns (read: nat)
      requires Valid() && cursor > 0
      requires length <= dst.Length
      modifies dst, this`offset
      ensures Valid() && cursor == old(cursor)
      ensures read == Min(length, records[cursor - 1].Length() - old(offset))
      ensures offset == old(offset) + read
      ensures dst[..read] == records[cursor - 1].payload[old(offset)..offset]
      ensures dst[read..] == old(dst[read..])
    {
      var p := records[cursor - 1].payload;
      read := Min(length, |p| - offset);
      forall i | 0 <= i < read {
        dst[i] := p[offset + i];
      }
      offset := offset + read;
    }
  }

  /** The save side: the records written so far. Whether the host accepts a
      new record is outside the plugin's control, so it is fixed when the
      writer is created. */
  class RecordWriter {
    const accepting: bool
    var written: seq<Record>
    var open: bool   // a record has been opened and takes data

    ghost predicate Valid()
      reads this
    {
      open ==> |written| > 0
    }

    constructor (accepting: bool)
      ensures Valid()
      ensures this.accepting == accepting && written == [] && !open
    {
      this.accepting := accepting;
      written := [];
      open := false;
    }

    /** Starts a new, empty record under the given header. */
    method OpenRecord(tag: u32, version: u32) returns (ok: bool)
      requires Valid()
      modifies this`written, this`open
      ensures Valid()
      ensures ok == accepting
      ensures ok ==> open && written == old(written) + [Record(tag, version, [])]
      ensures !ok ==> open == old(open) && written == old(written)
    {
      ok := accepting;
      if ok {
        written := written + [Record(tag, version, [])];
        open := true;
      }
    }

    /** Appends the first `length` bytes of `src` to the open record. */
    method WriteRecordData(src: array<byte>, length: nat) returns (ok: bool)
      requires Valid()
      requires length <= src.Length
      modifies this`written
      ensures Valid()
      ensures ok == open
      ensures ok ==> |written| == |old(written)| &&
                     written[..|written| - 1] == old(written)[..|written| - 1] &&
                     written[|written| - 1] == old(written)[|written| - 1].(payload := old(written)[|written| - 1].payload + src[..length])
      ensures !ok ==> written == old(written)
    {
      ok := open;
      if ok {
        var last := written[|written| - 1];
        written := written[..|written| - 1] + [last.(payload := last.payload + src[..length])];
      }
    }
  }
}
