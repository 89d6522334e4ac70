/**
 * composer/process/process_interface.py: ProcMaps parses /proc/<pid>/maps
 * into records, ProcessMemory indexes them, and a MemoryChunk reads and
 * writes one mapping through /proc/<pid>/mem.
 *
 * The maps file is given as its lines (None when the process directory is
 * missing or the file cannot be opened); the mem file is a DiskFile whose
 * bytes are indexed by address.
 */
module ProcessInterface {
  import opened Bytes
  import opened Outcomes
  import opened Files
  import opened MapsLine
  import ElfLib

  /** ProcMaps stores the inode under "inode". */
  const INODE_KEY: string := "inode"

  /** The chunks `__get_chunks` returns for the lines of a maps file. */
  function Chunks(lines: seq<string>): (r: seq<seq<string>>)
    ensures |r| == |lines|
  {
    seq(|lines|, i requires 0 <= i < |lines| => SplitN(Collapse(lines[i]), ' ', 5))
  }

  /**
   * What iterating over ProcMaps yields: `__get_chunks` runs to completion
   * before the first record (so a missing process raises before any
   * record), then the records follow one by one until one raises.
   */
  function MapsRecords(lines: Option<seq<string>>, inodeKey: string): (seq<Record>, Option<Error>)
    requires InodeKey(inodeKey)
  {
    match lines
    case None => ([], Some(IOError))
    case Some(ls) => Records(Chunks(ls), inodeKey)
  }

  /** `__iter__`, with the records it yields collected, and the error that ended it. */
  method Iter(lines: Option<seq<string>>, inodeKey: string) returns (records: seq<Record>, err: Option<Error>)
    requires InodeKey(inodeKey)
    ensures (records, err) == MapsRecords(lines, inodeKey)
  {
    var chunks := GetChunks(lines);
    if chunks.Err? {
      return [], Some(chunks.error);
    }
    var cs := chunks.value;
    assert cs == Chunks(lines.value);
    ghost var spec := Records(cs, inodeKey);
    assert MapsRecords(lines, inodeKey) == spec;
    records := [];
    var i := 0;
    while i < |cs|
      invariant 0 <= i <= |cs| && |records| == i
      invariant forall j :: 0 <= j < i ==> MakeRecord(cs[j], inodeKey) == Ok(records[j])
      decreases |cs| - i
    {
      var rec := MakeRecord(cs[i], inodeKey);
      if rec.Err? {
        RecordsStopAt(cs, inodeKey, records);
        return records, Some(rec.error);
      }
      ParsedExtend(cs, inodeKey, records, rec.value);
      records := records + [rec.value];
      i := i + 1;
    }
    RecordsStopAt(cs, inodeKey, records);
    err := None;
  }

  lemma ParsedExtend(cs: seq<seq<string>>, inodeKey: string, records: seq<Record>, rec: Record)
    requires InodeKey(inodeKey) && |records| < |cs|
    requires forall j :: 0 <= j < |records| ==> MakeRecord(cs[j], inodeKey) == Ok(records[j])
    requires MakeRecord(cs[|records|], inodeKey) == Ok(rec)
    ensures forall j :: 0 <= j < |records| + 1 ==> MakeRecord(cs[j], inodeKey) == Ok((records + [rec])[j])
  {
    var next := records + [rec];
    assert forall j :: 0 <= j < |records| ==> next[j] == records[j];
  }

  /**
   * The generator's records are determined by the chunks: when the first
   * `|records|` chunks parse to `records`, the generator yields those and
   * then stops at the next chunk, or ends there.
   */
  lemma {:induction false} RecordsStopAt(cs: seq<seq<string>>, inodeKey: string, records: seq<Record>)
    requires InodeKey(inodeKey) && |records| <= |cs|
    requires forall j :: 0 <= j < |records| ==> MakeRecord(cs[j], inodeKey) == Ok(records[j])
    requires |records| < |cs| ==> MakeRecord(cs[|records|], inodeKey).Err?
    ensures Records(cs, inodeKey) ==
            (records, if |records| < |cs| then Some(MakeRecord(cs[|records|], inodeKey).error) else None)
  {
    if |records| > 0 {
      var rest := records[1..];
      assert MakeRecord(cs[0], inodeKey) == Ok(records[0]);
      forall j | 0 <= j < |rest|
        ensures MakeRecord(cs[1..][j], inodeKey) == Ok(rest[j])
      {
        assert cs[1..][j] == cs[j + 1] && rest[j] == records[j + 1];
      }
      if |rest| < |cs| - 1 { assert cs[1..][|rest|] == cs[|records|]; }
      RecordsStopAt(cs[1..], inodeKey, rest);
      RecordsStep(cs, inodeKey);
      assert [records[0]] + rest == records;
    } else if |cs| > 0 {
      RecordsStep(cs, inodeKey);
    }
  }

  /** `ProcMaps[index]`: `list(self)[index]`, so any error in the whole file raises, then Python indexing applies. */
  function GetItem(lines: Option<seq<string>>, inodeKey: string, index: int): (r: Result<Record>)
    requires InodeKey(inodeKey)
    ensures var (records, err) := MapsRecords(lines, inodeKey);
            (err.Some? ==> r == Err(err.value)) &&
            (err.None? ==> (r.Ok? <==> -|records| <= index < |records|)) &&
            (r.Ok? ==> r.value in records)
  {
    var (records, err) := MapsRecords(lines, inodeKey);
    if err.Some? then Err(err.value)
    else
      match ElfLib.PyIndex(index, |records|)
      case None => Err(IndexError)
      case Some(k) => Ok(records[k])
  }

  /** `len(ProcessMemory)`: the number of records, or the error that stops the listing. */
  function Length(lines: Option<seq<string>>): (r: Result<nat>)
    ensures r.Ok? <==> lines.Some? && MapsRecords(lines, INODE_KEY).1.None?
    ensures r.Ok? ==> r.value == |lines.value|
  {
    var (records, err) := MapsRecords(lines, INODE_KEY);
    if err.Some? then Err(err.value) else Ok(|records|)
  }

  // ---------------------------------------------------------------------
  // MemoryChunk
  // ---------------------------------------------------------------------

  /** `read(length)`: opened "rb", positioned at the chunk's start; a negative length reads `end - start` bytes. */
  function ChunkReadSpec(mem: seq<byte>, access: Access, start: int, end: int, length: int): Result<seq<byte>> {
    ElfLib.ReadAtSpec(mem, access, start, if length >= 0 then length else end - start)
  }

  /**
   * `write(offset, data)` as written: the assertions demand
   * `offset + len(data) < end - start` and `offset >= 0`, then the file is
   * opened "r+b" and `data` is written at `start + offset`.
   */
  function ChunkWriteSpec(mem: seq<byte>, access: Access, start: nat, end: nat, offset: int, data: seq<byte>): Result<seq<byte>> {
    if !(offset + |data| < end - start) then Err(AssertionError)
    else if offset < 0 then Err(AssertionError)
    else if !(access.readable && access.writable) then Err(IOError)
    else Ok(Overlay(mem, start + offset, data))
  }

  /** The write with the bound the chunk evidently intends: `data` may run up to the chunk's end. */
  function CorrectedChunkWriteSpec(mem: seq<byte>, access: Access, start: nat, end: nat, offset: int, data: seq<byte>): Result<seq<byte>> {
    if !(offset + |data| <= end - start) then Err(AssertionError)
    else if offset < 0 then Err(AssertionError)
    else if !(access.readable && access.writable) then Err(IOError)
    else Ok(Overlay(mem, start + offset, data))
  }

  /** A MemoryChunk: the process's mem file and the address range of its map record. */
  class MemoryChunk {
    const mem: DiskFile
    const start: nat
    const end: nat

    constructor (mem: DiskFile, start: nat, end: nat)
      ensures this.mem == mem && this.start == start && this.end == end
    {
      this.mem := mem;
      this.start := start;
      this.end := end;
    }

    method Read(length: int) returns (r: Result<seq<byte>>)
      ensures r == ChunkReadSpec(mem.contents, mem.access, start, end, length)
    {
      if !mem.access.readable {
        return Err(IOError);
      }
      var n := if length >= 0 then length else end - start;
      var s := mem.contents;
      var from := if start <= |s| then start else |s|;
      var stop := if n < 0 || from + n > |s| then |s| else from + n;
      r := Ok(s[from..stop]);
    }

    /** `write`: on success the result is the number of bytes written. */
    method Write(offset: int, data: seq<byte>) returns (r: Result<nat>)
      modifies mem
      ensures var spec := ChunkWriteSpec(old(mem.contents), mem.access, start, end, offset, data);
              (spec.Ok? ==> r == Ok(|data|) && mem.contents == spec.value) &&
              (spec.Err? ==> r == Err(spec.error) && mem.contents == old(mem.contents))
    {
      if !(offset + |data| < end - start) {
        return Err(AssertionError);
      }
      if offset < 0 {
        return Err(AssertionError);
      }
      if !(mem.access.readable && mem.access.writable) {
        return Err(IOError);
      }
      WriteAt(mem, start + offset, data);
      r := Ok(|data|);
    }
  }

  /**
   * `ProcessMemory[index]`: the MemoryChunk of the record `ProcMaps[index]`,
   * with the address range the record holds.
   */
  method ChunkAt(mem: DiskFile, lines: Option<seq<string>>, index: int) returns (r: Result<MemoryChunk>)
    ensures var rec := GetItem(lines, INODE_KEY, index);
            (r.Err? <==> rec.Err?) && (r.Err? ==> r.error == rec.error) &&
            (r.Ok? ==> (fresh(r.value) && r.value.mem == mem &&
                        rec.value["address"] == Range(r.value.start, r.value.end)))
  {
    var rec := GetItem(lines, INODE_KEY, index);
    if rec.Err? {
      return Err(rec.error);
    }
    var (records, _) := MapsRecords(lines, INODE_KEY);
    var k :| 0 <= k < |records| && records[k] == rec.value;
    var address := rec.value["address"];
    var chunk := new MemoryChunk(mem, address.lo, address.hi);
    r := Ok(chunk);
  }

  // ---------------------------------------------------------------------
  // Properties
  // ---------------------------------------------------------------------

  /** A read with the default length returns exactly the chunk's bytes when the mem file covers the chunk. */
  lemma ReadWholeChunk(mem: seq<byte>, access: Access, start: nat, end: nat)
    requires access.readable && start <= end <= |mem|
    ensures ChunkReadSpec(mem, access, start, end, -1) == Ok(mem[start..end])
  {
  }

  /** A read of `length` bytes inside the mem file returns the `length` bytes at the chunk's start. */
  lemma ReadPrefix(mem: seq<byte>, access: Access, start: nat, end: nat, length: nat)
    requires access.readable && start + length <= |mem|
    ensures ChunkReadSpec(mem, access, start, end, length) == Ok(mem[start..start + length])
  {
  }

  /** The as-written write succeeds exactly when the data ends strictly before the chunk's end and the file opens for update. */
  lemma WriteAccepts(mem: seq<byte>, access: Access, start: nat, end: nat, offset: int, data: seq<byte>)
    ensures ChunkWriteSpec(mem, access, start, end, offset, data).Ok?
            <==> 0 <= offset && offset + |data| < end - start && access.readable && access.writable
  {
  }

  /** The as-written write rejects a write that ends at the chunk's end: here, one byte into the chunk's last byte. */
  lemma LastByteRejected(mem: seq<byte>, access: Access, start: nat, end: nat, x: byte)
    requires start < end
    ensures ChunkWriteSpec(mem, access, start, end, end - start - 1, [x]) == Err(AssertionError)
    ensures access.readable && access.writable ==>
              CorrectedChunkWriteSpec(mem, access, start, end, end - start - 1, [x]) == Ok(Overlay(mem, end - 1, [x]))
  {
  }

  /** The corrected write accepts every write that stays within the chunk. */
  lemma CorrectedWriteAccepts(mem: seq<byte>, access: Access, start: nat, end: nat, offset: int, data: seq<byte>)
    ensures CorrectedChunkWriteSpec(mem, access, start, end, offset, data).Ok?
            <==> 0 <= offset && offset + |data| <= end - start && access.readable && access.writable
  {
  }

  /**
   * A corrected write lies inside the chunk, can be read back at
   * `start + offset`, and changes no byte of the mem file outside it.
   */
  lemma CorrectedWriteInChunk(mem: seq<byte>, access: Access, start: nat, end: nat, offset: int, data: seq<byte>)
    requires start + (end - start) <= |mem|
    requires CorrectedChunkWriteSpec(mem, access, start, end, offset, data).Ok?
    ensures var t := CorrectedChunkWriteSpec(mem, access, start, end, offset, data).value;
            start <= start + offset && start + offset + |data| <= end &&
            |t| == |mem| &&
            ElfLib.ReadAtSpec(t, access, start + offset, |data|) == Ok(data) &&
            (forall i :: 0 <= i < |mem| && !(start + offset <= i < start + offset + |data|) ==> t[i] == mem[i])
  {
    var t := CorrectedChunkWriteSpec(mem, access, start, end, offset, data).value;
    var at := start + offset;
    assert t[at..at + |data|] == data by {
      forall i | 0 <= i < |data|
        ensures t[at..at + |data|][i] == data[i]
      {
        assert t[at + i] == data[i];
      }
    }
  }

  /** Every write the as-written check lets through is one the corrected check lets through, with the same effect. */
  lemma WriteRefinesCorrected(mem: seq<byte>, access: Access, start: nat, end: nat, offset: int, data: seq<byte>)
    requires ChunkWriteSpec(mem, access, start, end, offset, data).Ok?
    ensures CorrectedChunkWriteSpec(mem, access, start, end, offset, data) == ChunkWriteSpec(mem, access, start, end, offset, data)
  {
  }

  /** Iterating over the maps lines of well-formed mappings yields their records, with "inode" as the key. */
  lemma {:induction false} FormattedMapsParse(ms: seq<Mapping>)
    requires forall i :: 0 <= i < |ms| ==> WellFormed(ms[i])
    ensures MapsRecords(Some(seq(|ms|, i requires 0 <= i < |ms| => FormatLine(ms[i]))), INODE_KEY)
            == (seq(|ms|, i requires 0 <= i < |ms| => RecordOf(ms[i], INODE_KEY)), None)
  {
    var lines := seq(|ms|, i requires 0 <= i < |ms| => FormatLine(ms[i]));
    var cs := Chunks(lines);
    var records := seq(|ms|, i requires 0 <= i < |ms| => RecordOf(ms[i], INODE_KEY));
    forall j | 0 <= j < |ms|
      ensures MakeRecord(cs[j], INODE_KEY) == Ok(records[j])
    {
      assert cs[j] == SplitN(Collapse(FormatLine(ms[j])), ' ', 5);
      ParseFormattedLine(ms[j], INODE_KEY);
    }
    RecordsStopAt(cs, INODE_KEY, records);
  }
}
