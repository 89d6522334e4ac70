/**
 * The record readers of elf_handler.h, an earlier draft of the stdio
 * handler built on open(2)/lseek(2)/read(2) with no error checks.
 *
 * Buffers come from malloc without being cleared, so bytes that read(2)
 * does not fill keep whatever the allocation held: the `junk` parameters
 * stand for that memory. A failed open gives descriptor -1, on which every
 * read fails and fills nothing; a failed lseek (negative offset) leaves the
 * descriptor at position 0.
 */
module DraftHandler {
  import opened Bytes
  import opened Layout
  import opened Files
  import opened Outcomes
  import StdioHandler

  /** The `length`-byte buffer after read(2) of `length` bytes at `at` into memory that held `junk`. */
  function DraftRead(s: seq<byte>, access: Access, at: nat, length: nat, junk: nat -> byte): (r: seq<byte>)
    ensures |r| == length
    ensures forall i :: 0 <= i < length ==>
              r[i] == if access.readable && i < Available(s, at, length) then s[at + i] else junk(i)
  {
    seq<byte>(length, i requires 0 <= i < length => DraftByte(s, access, at, length, junk, i))
  }

  /** Byte `i` of that buffer: from the file where read(2) reached it, otherwise the old memory. */
  function DraftByte(s: seq<byte>, access: Access, at: nat, length: nat, junk: nat -> byte, i: nat): byte
    requires i < length
  {
    var n := Available(s, at, length);
    if access.readable && i < n then s[at + i] else junk(i)
  }

  /** The position after lseek(2) to `offset`: a negative offset fails and leaves the position at 0. */
  function Seek(offset: int): nat {
    if offset < 0 then 0 else offset
  }

  function DraftShdrOffset(s: seq<byte>, access: Access, index: nat, ehdrJunk: nat -> byte): int {
    StdioHandler.ShdrOffset(DraftRead(s, access, 0, EhdrSize, ehdrJunk), index)
  }

  function DraftPhdrOffset(s: seq<byte>, access: Access, index: nat, ehdrJunk: nat -> byte): int {
    StdioHandler.PhdrOffset(DraftRead(s, access, 0, EhdrSize, ehdrJunk), index)
  }

  /** malloc(length), then read(2) of `length` bytes at `at` into it, when the descriptor is open. */
  method AllocAndRead(f: DiskFile, at: nat, length: nat, junk: nat -> byte) returns (buf: array<byte>)
    ensures fresh(buf) && buf[..] == DraftRead(f.contents, f.access, at, length, junk)
  {
    buf := new byte[length](i => junk(i));
    if f.access.readable {
      var n := ReadInto(f, at, buf);
    }
    forall i | 0 <= i < length
      ensures buf[..][i] == DraftRead(f.contents, f.access, at, length, junk)[i]
    {
    }
    assert buf[..] == DraftRead(f.contents, f.access, at, length, junk);
  }

  method GetEhdrData(f: DiskFile, ehdrJunk: nat -> byte) returns (hdr: array<byte>)
    ensures fresh(hdr) && hdr[..] == DraftRead(f.contents, f.access, 0, EhdrSize, ehdrJunk)
  {
    hdr := AllocAndRead(f, 0, EhdrSize, ehdrJunk);
  }

  method GetShdrOffset(f: DiskFile, index: nat, ehdrJunk: nat -> byte) returns (offset: int)
    ensures offset == DraftShdrOffset(f.contents, f.access, index, ehdrJunk)
  {
    var ehdr := GetEhdrData(f, ehdrJunk);
    offset := ToLong(ReadLE(ehdr[..], 40, 8) + ReadLE(ehdr[..], 58, 2) * index);
  }

  method GetPhdrOffset(f: DiskFile, index: nat, ehdrJunk: nat -> byte) returns (offset: int)
    ensures offset == DraftPhdrOffset(f.contents, f.access, index, ehdrJunk)
  {
    var ehdr := GetEhdrData(f, ehdrJunk);
    offset := ToLong(ReadLE(ehdr[..], 32, 8) + ReadLE(ehdr[..], 54, 2) * index);
  }

  method GetShdrData(f: DiskFile, index: nat, ehdrJunk: nat -> byte, recJunk: nat -> byte) returns (shdr: array<byte>)
    ensures fresh(shdr)
    ensures shdr[..] == DraftRead(f.contents, f.access, Seek(DraftShdrOffset(f.contents, f.access, index, ehdrJunk)), ShdrSize, recJunk)
  {
    var offset := GetShdrOffset(f, index, ehdrJunk);
    shdr := AllocAndRead(f, Seek(offset), ShdrSize, recJunk);
  }

  /** Reads sizeof(Elf64_Shdr) = 64 bytes for a 56-byte program header. */
  method GetPhdrData(f: DiskFile, index: nat, ehdrJunk: nat -> byte, recJunk: nat -> byte) returns (phdr: array<byte>)
    ensures fresh(phdr)
    ensures phdr[..] == DraftRead(f.contents, f.access, Seek(DraftPhdrOffset(f.contents, f.access, index, ehdrJunk)), ShdrSize, recJunk)
  {
    var offset := GetPhdrOffset(f, index, ehdrJunk);
    phdr := AllocAndRead(f, Seek(offset), ShdrSize, recJunk);
  }

  /** The program-header read with the record's own size. */
  method CorrectedGetPhdrData(f: DiskFile, index: nat, ehdrJunk: nat -> byte, recJunk: nat -> byte) returns (phdr: array<byte>)
    ensures fresh(phdr)
    ensures phdr[..] == DraftRead(f.contents, f.access, Seek(DraftPhdrOffset(f.contents, f.access, index, ehdrJunk)), PhdrSize, recJunk)
  {
    var offset := GetPhdrOffset(f, index, ehdrJunk);
    phdr := AllocAndRead(f, Seek(offset), PhdrSize, recJunk);
  }

  /**
   * write_to_file: seeks to `offset` and writes `data` without checking the
   * seek; it returns the seek's result (0 or -1), not the byte count. After a
   * failed seek the bytes go to the stream's current position `pos`.
   */
  method WriteToFile(f: DiskFile, pos: nat, offset: int, data: seq<byte>) returns (res: int)
    modifies f
    ensures res == if offset < 0 then -1 else 0
    ensures f.contents == Overlay(old(f.contents), if offset < 0 then pos else offset, data)
  {
    res := if offset < 0 then -1 else 0;
    WriteAt(f, if offset < 0 then pos else offset, data);
  }

  // ---------------------------------------------------------------------
  // Properties
  // ---------------------------------------------------------------------

  /** A read that the file covers fills the whole buffer from the file: no uninitialised byte is left. */
  lemma DraftReadCovered(s: seq<byte>, access: Access, at: nat, length: nat, junk: nat -> byte)
    requires access.readable && at + length <= |s|
    ensures DraftRead(s, access, at, length, junk) == s[at..at + length]
  {
    var r := DraftRead(s, access, at, length, junk);
    forall i | 0 <= i < length
      ensures r[i] == s[at..at + length][i]
    {
    }
    assert r == s[at..at + length];
  }

  /** On a readable file that holds a whole header, the draft's offsets are those of elf_handler.c, whatever memory malloc returned. */
  lemma DraftOffsetsAgree(s: seq<byte>, access: Access, index: nat, ehdrJunk: nat -> byte)
    requires access.readable && |s| >= EhdrSize
    ensures DraftShdrOffset(s, access, index, ehdrJunk) == StdioHandler.ShdrOffset(Window(s, 0, EhdrSize), index)
    ensures DraftPhdrOffset(s, access, index, ehdrJunk) == StdioHandler.PhdrOffset(Window(s, 0, EhdrSize), index)
  {
    DraftReadCovered(s, access, 0, EhdrSize, ehdrJunk);
  }

  /** On an unreadable file the draft's header is uninitialised memory: its offsets come from `ehdrJunk`. */
  lemma DraftUnreadableHeader(s: seq<byte>, access: Access, ehdrJunk: nat -> byte)
    requires !access.readable
    ensures DraftRead(s, access, 0, EhdrSize, ehdrJunk) == seq(EhdrSize, i requires 0 <= i < EhdrSize => ehdrJunk(i))
  {
  }

  /**
   * The draft's program-header buffer is 64 bytes: its first 56 are the
   * record and its last 8 are the first 8 bytes after the record.
   */
  lemma DraftPhdrOverRead(s: seq<byte>, access: Access, at: nat, junk: nat -> byte)
    requires access.readable && at + ShdrSize <= |s|
    ensures var buf := DraftRead(s, access, at, ShdrSize, junk);
            |buf| == PhdrSize + 8 && buf[..PhdrSize] == s[at..at + PhdrSize] && buf[PhdrSize..] == s[at + PhdrSize..at + ShdrSize]
  {
    DraftReadCovered(s, access, at, ShdrSize, junk);
  }

  /** The corrected read is exactly the 56-byte record read by elf_handler.c's get_phdr_data. */
  lemma CorrectedPhdrMatchesStdio(s: seq<byte>, access: Access, index: nat, ehdrJunk: nat -> byte, junk: nat -> byte)
    requires access.readable && |s| >= EhdrSize
    requires var off := StdioHandler.PhdrOffset(Window(s, 0, EhdrSize), index);
             off >= 0 && off + PhdrSize <= |s|
    ensures StdioHandler.PhdrDataSpec(s, access, index)
            == Some(DraftRead(s, access, Seek(DraftPhdrOffset(s, access, index, ehdrJunk)), PhdrSize, junk))
  {
    DraftOffsetsAgree(s, access, index, ehdrJunk);
    var off := StdioHandler.PhdrOffset(Window(s, 0, EhdrSize), index);
    DraftReadCovered(s, access, off, PhdrSize, junk);
  }
}
