/**
 * The stdio field accessors of elf_handler.c.
 *
 * Every call reads the record it needs into a freshly allocated,
 * zero-filled buffer (read_n_at), changes the named member in that copy and
 * writes the whole record back. Offsets are C `long`s: the sum
 * e_shoff + e_shentsize * index is taken modulo 2^64 and reinterpreted as
 * signed, and a negative offset makes fseek fail.
 *
 * The functions ending in `Spec` say, over the file's bytes and access,
 * what each C function returns and what the file becomes; the methods are
 * the C functions, proved against them.
 */
module StdioHandler {
  import opened Bytes
  import opened Outcomes
  import opened Layout
  import opened Files
  import MappedHandler

  // ---------------------------------------------------------------------
  // Buffers and offsets
  // ---------------------------------------------------------------------

  /** read_n_at: `length` bytes at `at`, zero past the end; NULL when the file cannot be opened or `at` is negative. */
  function ReadNAtSpec(s: seq<byte>, access: Access, at: int, length: nat): Option<seq<byte>> {
    if !access.readable || at < 0 then None else Some(Window(s, at, length))
  }

  /** The section-header offset computed from a file header. */
  function ShdrOffset(ehdr: seq<byte>, index: nat): int
    requires |ehdr| == EhdrSize
  {
    ToLong(ReadLE(ehdr, 40, 8) + ReadLE(ehdr, 58, 2) * index)
  }

  /** The program-header offset computed from a file header. */
  function PhdrOffset(ehdr: seq<byte>, index: nat): int
    requires |ehdr| == EhdrSize
  {
    ToLong(ReadLE(ehdr, 32, 8) + ReadLE(ehdr, 54, 2) * index)
  }

  /** get_shdr_offset dereferences the file header without a NULL check: an unreadable file crashes it. */
  function ShdrOffsetSpec(s: seq<byte>, access: Access, index: nat): Result<int> {
    if !access.readable then Err(NullDeref) else Ok(ShdrOffset(Window(s, 0, EhdrSize), index))
  }

  /** get_phdr_offset returns -1 when the file header cannot be read. */
  function PhdrOffsetSpec(s: seq<byte>, access: Access, index: nat): int {
    if !access.readable then -1 else PhdrOffset(Window(s, 0, EhdrSize), index)
  }

  /** get_shdr_data: the 64-byte record at the section-header offset. */
  function ShdrDataSpec(s: seq<byte>, access: Access, index: nat): (r: Result<Option<seq<byte>>>)
    ensures r.Err? <==> !access.readable
    ensures r.Ok? && r.value.Some? ==>
              ShdrOffset(Window(s, 0, EhdrSize), index) >= 0 &&
              r.value.value == Window(s, ShdrOffset(Window(s, 0, EhdrSize), index), ShdrSize)
  {
    var offset :- ShdrOffsetSpec(s, access, index);
    Ok(ReadNAtSpec(s, access, offset, ShdrSize))
  }

  /** get_phdr_data: the 56-byte record at the program-header offset, NULL when that offset is -1. */
  function PhdrDataSpec(s: seq<byte>, access: Access, index: nat): (r: Option<seq<byte>>)
    ensures r.Some? ==>
              access.readable && PhdrOffset(Window(s, 0, EhdrSize), index) >= 0 &&
              r.value == Window(s, PhdrOffset(Window(s, 0, EhdrSize), index), PhdrSize)
  {
    var offset := PhdrOffsetSpec(s, access, index);
    if offset == -1 then None else ReadNAtSpec(s, access, offset, PhdrSize)
  }

  // ---------------------------------------------------------------------
  // The accessors
  // ---------------------------------------------------------------------

  function ReadElfHeaderSpec(s: seq<byte>, access: Access, member: string): Result<int> {
    match ReadNAtSpec(s, access, 0, EhdrSize)
    case None => Err(IOError)
    case Some(hdr) => MappedHandler.HeaderMember(hdr, member)
  }

  /**
   * write_elf_header: the member is stored into the header copy; an unknown
   * name fails before the file is opened for writing; then the whole
   * 64-byte copy is written at offset 0.
   */
  function WriteElfHeaderSpec(s: seq<byte>, access: Access, member: string, data: int): Result<seq<byte>> {
    match ReadNAtSpec(s, access, 0, EhdrSize)
    case None => Err(IOError)
    case Some(hdr) =>
      var hdr' :- MappedHandler.StoreHeaderMember(hdr, member, data);
      if !access.writable then Err(IOError) else Ok(Overlay(s, 0, hdr'))
  }

  function ReadSectionHeaderSpec(s: seq<byte>, access: Access, member: string, index: nat): Result<int> {
    var shdr :- ShdrDataSpec(s, access, index);
    match shdr
    case None => Err(IOError)
    case Some(rec) =>
      match ShdrField(member)
      case None => Err(AttributeError)
      case Some(f) => MappedHandler.LoadLong(rec, 0, f)
  }

  /**
   * write_section_header: a NULL record or an unknown name returns NULL with
   * no exception; otherwise the record copy is written back with open(2)
   * and write(2), whose failures are not checked: a file that cannot be
   * opened for writing is left as it was and the call reports success.
   */
  function WriteSectionHeaderSpec(s: seq<byte>, access: Access, member: string, index: nat, data: int): Result<seq<byte>> {
    var shdr :- ShdrDataSpec(s, access, index);
    match shdr
    case None => Err(NoException)
    case Some(rec) =>
      match ShdrField(member)
      case None => Err(NoException)
      case Some(f) =>
        var rec' := Splice(rec, f.offset, EncodeLE(data % Pow256(f.width), f.width));
        var offset := ShdrOffset(Window(s, 0, EhdrSize), index);
        if !access.writable then Ok(s) else Ok(Overlay(s, offset, rec'))
  }

  /** read_program_header: an unknown name returns NULL; a known name dereferences the record, NULL or not. */
  function ReadProgramHeaderSpec(s: seq<byte>, access: Access, member: string, index: nat): Result<int> {
    var phdr := PhdrDataSpec(s, access, index);
    match PhdrReadField(member)
    case None => Err(NoException)
    case Some(f) =>
      match phdr
      case None => Err(NullDeref)
      case Some(rec) => MappedHandler.LoadLong(rec, 0, f)
  }

  function WriteProgramHeaderSpec(s: seq<byte>, access: Access, member: string, index: nat, data: int): Result<seq<byte>> {
    var phdr := PhdrDataSpec(s, access, index);
    match PhdrField(member)
    case None => Err(NoException)
    case Some(f) =>
      match phdr
      case None => Err(NullDeref)
      case Some(rec) =>
        var rec' := Splice(rec, f.offset, EncodeLE(data % Pow256(f.width), f.width));
        var offset := PhdrOffset(Window(s, 0, EhdrSize), index);
        if !access.writable then Ok(s) else Ok(Overlay(s, offset, rec'))
  }

  /**
   * insert_bytes: the file is opened for reading and writing; an offset past
   * the end (or negative, which the size_t parameter sees as huge) is an
   * IndexError; insert mode captures the tail, writes `data` and then the
   * tail after it; overwrite mode writes `data` only.
   */
  function InsertBytesSpec(s: seq<byte>, access: Access, offset: int, data: seq<byte>, overwrite: bool): Result<seq<byte>> {
    if !(access.readable && access.writable) then Err(IOError)
    else if offset < 0 || offset > |s| then Err(IndexError)
    else if offset >= TwoTo63 then Err(IOError)
    else if overwrite then Ok(Overlay(s, offset, data))
    else Ok(Overlay(Overlay(s, offset, data), offset + |data|, s[offset..]))
  }

  // ---------------------------------------------------------------------
  // The C functions
  // ---------------------------------------------------------------------

  method ReadNAt(f: DiskFile, at: int, length: nat) returns (buf: array?<byte>)
    ensures buf == null <==> ReadNAtSpec(f.contents, f.access, at, length).None?
    ensures buf != null ==> fresh(buf) && buf[..] == ReadNAtSpec(f.contents, f.access, at, length).value
  {
    if !f.access.readable || at < 0 {
      return null;
    }
    buf := new byte[length](_ => 0);
    var n := ReadInto(f, at, buf);
    assert buf[..] == Window(f.contents, at, length);
  }

  method GetEhdrData(f: DiskFile) returns (hdr: array?<byte>)
    ensures hdr == null <==> !f.access.readable
    ensures hdr != null ==> fresh(hdr) && hdr[..] == Window(f.contents, 0, EhdrSize)
  {
    hdr := ReadNAt(f, 0, EhdrSize);
  }

  method GetShdrOffset(f: DiskFile, index: nat) returns (r: Result<int>)
    ensures r == ShdrOffsetSpec(f.contents, f.access, index)
  {
    var ehdr := GetEhdrData(f);
    if ehdr == null {
      return Err(NullDeref);
    }
    r := Ok(ToLong(ReadLE(ehdr[..], 40, 8) + ReadLE(ehdr[..], 58, 2) * index));
  }

  method GetPhdrOffset(f: DiskFile, index: nat) returns (offset: int)
    ensures offset == PhdrOffsetSpec(f.contents, f.access, index)
  {
    var ehdr := GetEhdrData(f);
    if ehdr == null {
      return -1;
    }
    offset := ToLong(ReadLE(ehdr[..], 32, 8) + ReadLE(ehdr[..], 54, 2) * index);
  }

  /** write_to_file: the byte count, or -1 when the seek to `offset` (a `long`) fails. */
  method WriteToFile(f: DiskFile, offset: nat, data: seq<byte>) returns (ret: int)
    modifies f
    ensures offset < TwoTo63 ==> ret == |data| && f.contents == Overlay(old(f.contents), offset, data)
    ensures offset >= TwoTo63 ==> ret == -1 && f.contents == old(f.contents)
  {
    if offset >= TwoTo63 {
      return -1;
    }
    WriteAt(f, offset, data);
    ret := |data|;
  }

  method GetShdrData(f: DiskFile, index: nat) returns (r: Result<array?<byte>>)
    ensures r.Ok? <==> ShdrDataSpec(f.contents, f.access, index).Ok?
    ensures r.Err? ==> r.error == NullDeref
    ensures r.Ok? ==> (r.value == null <==> ShdrDataSpec(f.contents, f.access, index).value.None?)
    ensures r.Ok? && r.value != null ==>
              fresh(r.value) && r.value[..] == ShdrDataSpec(f.contents, f.access, index).value.value
  {
    var offset :- GetShdrOffset(f, index);
    var shdr := ReadNAt(f, offset, ShdrSize);
    r := Ok(shdr);
  }

  method GetPhdrData(f: DiskFile, index: nat) returns (phdr: array?<byte>)
    ensures phdr == null <==> PhdrDataSpec(f.contents, f.access, index).None?
    ensures phdr != null ==> fresh(phdr) && phdr[..] == PhdrDataSpec(f.contents, f.access, index).value
  {
    var offset := GetPhdrOffset(f, index);
    if offset == -1 {
      return null;
    }
    phdr := ReadNAt(f, offset, PhdrSize);
  }

  method ReadElfHeader(f: DiskFile, member: string) returns (r: Result<int>)
    ensures r == ReadElfHeaderSpec(f.contents, f.access, member)
  {
    var hdr := GetEhdrData(f);
    if hdr == null {
      return Err(IOError);
    }
    r := MappedHandler.ReadElfHeader(hdr, member);
  }

  method WriteElfHeader(f: DiskFile, member: string, data: int) returns (r: Outcome)
    modifies f
    ensures Applied(WriteElfHeaderSpec(old(f.contents), f.access, member, data), r, old(f.contents), f.contents)
  {
    var hdr := GetEhdrData(f);
    if hdr == null {
      return Fail(IOError);
    }
    r := MappedHandler.WriteElfHeader(hdr, member, data);
    if r.Fail? {
      return;
    }
    if !f.access.writable {
      return Fail(IOError);
    }
    WriteAt(f, 0, hdr[..]);
  }

  method ReadSectionHeader(f: DiskFile, member: string, index: nat) returns (r: Result<int>)
    ensures r == ReadSectionHeaderSpec(f.contents, f.access, member, index)
  {
    var shdr :- GetShdrData(f, index);
    if shdr == null {
      return Err(IOError);
    }
    match ShdrField(member)
    case None =>
      r := Err(AttributeError);
    case Some(fl) =>
      ShdrLayout(member, member);
      r := Ok(ToLong(ReadLE(shdr[..], fl.offset, fl.width)));
  }

  method WriteSectionHeader(f: DiskFile, member: string, index: nat, data: int) returns (r: Outcome)
    modifies f
    ensures Applied(WriteSectionHeaderSpec(old(f.contents), f.access, member, index, data), r, old(f.contents), f.contents)
  {
    var got := GetShdrData(f, index);
    if got.Err? {
      return Fail(got.error);
    }
    var shdr := got.value;
    if shdr == null {
      return Fail(NoException);
    }
    match ShdrField(member)
    case None =>
      r := Fail(NoException);
    case Some(fl) =>
      ShdrLayout(member, member);
      MappedHandler.Store(shdr, fl.offset, EncodeLE(data % Pow256(fl.width), fl.width));
      var offset := GetShdrOffset(f, index);
      if f.access.writable {
        WriteAt(f, offset.value, shdr[..]);
      }
      r := Pass;
  }

  method ReadProgramHeader(f: DiskFile, member: string, index: nat) returns (r: Result<int>)
    ensures r == ReadProgramHeaderSpec(f.contents, f.access, member, index)
  {
    var phdr := GetPhdrData(f, index);
    match PhdrReadField(member)
    case None =>
      r := Err(NoException);
    case Some(fl) =>
      if phdr == null {
        return Err(NullDeref);
      }
      PhdrLayout(member, member);
      r := Ok(ToLong(ReadLE(phdr[..], fl.offset, fl.width)));
  }

  method WriteProgramHeader(f: DiskFile, member: string, index: nat, data: int) returns (r: Outcome)
    modifies f
    ensures Applied(WriteProgramHeaderSpec(old(f.contents), f.access, member, index, data), r, old(f.contents), f.contents)
  {
    var phdr := GetPhdrData(f, index);
    match PhdrField(member)
    case None =>
      r := Fail(NoException);
    case Some(fl) =>
      if phdr == null {
        return Fail(NullDeref);
      }
      PhdrLayout(member, member);
      MappedHandler.Store(phdr, fl.offset, EncodeLE(data % Pow256(fl.width), fl.width));
      var offset := GetPhdrOffset(f, index);
      if f.access.writable {
        WriteAt(f, offset, phdr[..]);
      }
      r := Pass;
  }

  method InsertBytes(f: DiskFile, offset: int, data: seq<byte>, overwrite: bool) returns (r: Outcome)
    modifies f
    ensures Applied(InsertBytesSpec(old(f.contents), f.access, offset, data, overwrite), r, old(f.contents), f.contents)
  {
    if !(f.access.readable && f.access.writable) {
      return Fail(IOError);
    }
    var filesz := |f.contents|;
    if offset < 0 || offset > filesz {
      return Fail(IndexError);
    }
    if !overwrite {
      var filemem := f.contents[offset..];
      var written := WriteToFile(f, offset, data);
      if written == -1 {
        return Fail(IOError);
      }
      WriteAt(f, offset + |data|, filemem);
    } else {
      var written := WriteToFile(f, offset, data);
      if written < 0 {
        return Fail(IOError);
      }
    }
    r := Pass;
  }

  // ---------------------------------------------------------------------
  // Properties
  // ---------------------------------------------------------------------

  /** A field of a record copy reads as the same field of the file. */
  lemma LoadSlice(s: seq<byte>, lo: nat, hi: nat, base: nat, f: Field)
    requires lo <= hi <= |s| && base + f.offset + f.width <= hi - lo
    ensures MappedHandler.Load(s[lo..hi], base, f) == MappedHandler.Load(s, lo + base, f)
  {
    var at := base + f.offset;
    var t := s[lo..hi];
    var x, y := t[at..at + f.width], s[lo + at..lo + at + f.width];
    assert forall k :: 0 <= k < f.width ==> x[k] == y[k];
    assert x == y;
  }

  /** Writing back a record copy with one span replaced is a store of that span into the file. */
  lemma OverlayRecord(s: seq<byte>, at: nat, len: nat, off: nat, e: seq<byte>)
    requires at + len <= |s| && off + |e| <= len
    ensures Overlay(s, at, Splice(s[at..at + len], off, e)) == Splice(s, at + off, e)
  {
    var lhs := Overlay(s, at, Splice(s[at..at + len], off, e));
    var rhs := Splice(s, at + off, e);
    assert |lhs| == |rhs|;
    forall i | 0 <= i < |s|
      ensures lhs[i] == rhs[i]
    {
    }
  }

  /** The first `n` bytes after a write of `d` (|d| = n) at 0 are `d`. */
  lemma WindowAfterOverlay(s: seq<byte>, d: seq<byte>)
    ensures Window(Overlay(s, 0, d), 0, |d|) == d
  {
    var w := Window(Overlay(s, 0, d), 0, |d|);
    forall i | 0 <= i < |d|
      ensures w[i] == d[i]
    {
    }
  }

  /** The header copy of a full-sized file is its first 64 bytes. */
  lemma HeaderCopy(s: seq<byte>)
    requires |s| >= EhdrSize
    ensures Window(s, 0, EhdrSize) == s[0..EhdrSize]
    ensures ReadLE(Window(s, 0, EhdrSize), 40, 8) == ReadLE(s, 40, 8)
    ensures ReadLE(Window(s, 0, EhdrSize), 58, 2) == ReadLE(s, 58, 2)
    ensures ReadLE(Window(s, 0, EhdrSize), 32, 8) == ReadLE(s, 32, 8)
    ensures ReadLE(Window(s, 0, EhdrSize), 54, 2) == ReadLE(s, 54, 2)
  {
    var h := s[0..EhdrSize];
    assert h[40..48] == s[40..48];
    assert h[58..60] == s[58..60];
    assert h[32..40] == s[32..40];
    assert h[54..56] == s[54..56];
  }

  /** The stdio offset helpers compute the record bases of the mapped accessors, while those fit a `long`. */
  lemma OffsetsAgree(s: seq<byte>, index: nat)
    requires |s| >= EhdrSize
    ensures MappedHandler.SectionBase(s, index).value < TwoTo63 ==>
              ShdrOffset(Window(s, 0, EhdrSize), index) == MappedHandler.SectionBase(s, index).value
    ensures MappedHandler.ProgramBase(s, index).value < TwoTo63 ==>
              PhdrOffset(Window(s, 0, EhdrSize), index) == MappedHandler.ProgramBase(s, index).value
  {
    HeaderCopy(s);
  }

  /** read_elf_header reads what the mapped accessor reads, once the file holds a whole header. */
  lemma ReadElfHeaderAgrees(s: seq<byte>, access: Access, member: string)
    requires access.readable && |s| >= EhdrSize
    ensures ReadElfHeaderSpec(s, access, member) == MappedHandler.HeaderMember(s, member)
  {
    HeaderCopy(s);
    EhdrLayout(member, member);
    if EhdrField(member).Some? {
      LoadSlice(s, 0, EhdrSize, 0, EhdrField(member).value);
    }
  }

  /**
   * write_elf_header changes the file exactly as the mapped store does, once
   * the file holds a whole header: the bytes of the named member and no others.
   */
  lemma WriteElfHeaderAgrees(s: seq<byte>, access: Access, member: string, data: int)
    requires access.readable && access.writable && |s| >= EhdrSize
    ensures WriteElfHeaderSpec(s, access, member, data) == MappedHandler.StoreHeaderMember(s, member, data)
  {
    HeaderCopy(s);
    EhdrLayout(member, member);
    if EhdrField(member).Some? {
      var f := EhdrField(member).value;
      OverlayRecord(s, 0, EhdrSize, f.offset, EncodeLE(data % Pow256(EhdrCastWidth(member, f)), f.width));
    }
  }

  /**
   * On any file the process may read and write, a stored header member reads
   * back truncated to its cast and every other member reads as before; a file
   * shorter than a header grows to 64 bytes.
   */
  lemma WriteElfHeaderRoundTrip(s: seq<byte>, access: Access, member: string, data: int, other: string)
    requires access.readable && access.writable && EhdrField(member).Some?
    ensures WriteElfHeaderSpec(s, access, member, data).Ok?
    ensures var s' := WriteElfHeaderSpec(s, access, member, data).value;
            |s'| == if |s| >= EhdrSize then |s| else EhdrSize
    ensures var s' := WriteElfHeaderSpec(s, access, member, data).value;
            ReadElfHeaderSpec(s', access, member) == Ok(ToLong(data % Pow256(EhdrCastWidth(member, EhdrField(member).value))))
    ensures var s' := WriteElfHeaderSpec(s, access, member, data).value;
            other != member ==> ReadElfHeaderSpec(s', access, other) == ReadElfHeaderSpec(s, access, other)
  {
    var hdr := Window(s, 0, EhdrSize);
    var hdr' := MappedHandler.StoreHeaderMember(hdr, member, data).value;
    MappedHandler.HeaderWriteThenRead(hdr, member, data);
    if other != member {
      MappedHandler.HeaderWriteFrame(hdr, member, data, other);
    }
    WindowAfterOverlay(s, hdr');
  }

  /** An unknown member is reported before the file is opened for writing, whatever its permissions. */
  lemma WriteElfHeaderUnknownFirst(s: seq<byte>, access: Access, member: string, data: int)
    requires access.readable && EhdrField(member).None?
    ensures WriteElfHeaderSpec(s, access, member, data) == Err(AttributeError)
  {
  }

  /**
   * The section-header offset of an unreadable file is a NULL dereference, so
   * the IOError branch of read_section_header is never the outcome of a failed open.
   */
  lemma SectionHeaderUnreadable(s: seq<byte>, access: Access, member: string, index: nat, data: int)
    requires !access.readable
    ensures ReadSectionHeaderSpec(s, access, member, index) == Err(NullDeref)
    ensures WriteSectionHeaderSpec(s, access, member, index, data) == Err(NullDeref)
  {
  }

  /** A section header wholly inside the file, at an offset that fits a `long`. */
  predicate SectionInFile(s: seq<byte>, index: nat) {
    |s| >= EhdrSize &&
    var base := MappedHandler.SectionBase(s, index).value;
    base < TwoTo63 && base + ShdrSize <= |s|
  }

  predicate ProgramInFile(s: seq<byte>, index: nat) {
    |s| >= EhdrSize &&
    var base := MappedHandler.ProgramBase(s, index).value;
    base < TwoTo63 && base + PhdrSize <= |s|
  }

  /** read_section_header reads what the mapped accessor reads. */
  lemma ReadSectionHeaderAgrees(s: seq<byte>, access: Access, member: string, index: nat)
    requires access.readable && SectionInFile(s, index)
    ensures ReadSectionHeaderSpec(s, access, member, index) == MappedHandler.SectionMember(s, member, index)
  {
    var base := MappedHandler.SectionBase(s, index).value;
    OffsetsAgree(s, index);
    ShdrLayout(member, member);
    if ShdrField(member).Some? {
      LoadSlice(s, base, base + ShdrSize, 0, ShdrField(member).value);
    }
  }

  /** write_section_header changes the file as the mapped store does, for a known member. */
  lemma WriteSectionHeaderAgrees(s: seq<byte>, access: Access, member: string, index: nat, data: int)
    requires access.readable && access.writable && SectionInFile(s, index) && ShdrField(member).Some?
    ensures WriteSectionHeaderSpec(s, access, member, index, data) == MappedHandler.StoreSectionMember(s, member, index, data)
  {
    var base := MappedHandler.SectionBase(s, index).value;
    var f := ShdrField(member).value;
    OffsetsAgree(s, index);
    ShdrLayout(member, member);
    OverlayRecord(s, base, ShdrSize, f.offset, EncodeLE(data % Pow256(f.width), f.width));
  }

  /** A stored section-header member reads back truncated to its width, when the record lies past the file header. */
  lemma SectionHeaderRoundTrip(s: seq<byte>, access: Access, member: string, index: nat, data: int)
    requires access.readable && access.writable && SectionInFile(s, index) && ShdrField(member).Some?
    requires MappedHandler.SectionBase(s, index).value >= EhdrSize
    ensures WriteSectionHeaderSpec(s, access, member, index, data).Ok?
    ensures ReadSectionHeaderSpec(WriteSectionHeaderSpec(s, access, member, index, data).value, access, member, index)
              == Ok(ToLong(data % Pow256(ShdrField(member).value.width)))
  {
    var base := MappedHandler.SectionBase(s, index).value;
    var f := ShdrField(member).value;
    WriteSectionHeaderAgrees(s, access, member, index, data);
    MappedHandler.SectionWriteThenRead(s, member, index, data);
    ShdrLayout(member, member);
    var s' := MappedHandler.StoreSectionMember(s, member, index, data).value;
    MappedHandler.SectionBaseKept(s, index, base + f.offset, EncodeLE(data % Pow256(f.width), f.width));
    ReadSectionHeaderAgrees(s', access, member, index);
  }

  /** When the file cannot be opened for writing, write_section_header reports success and changes nothing. */
  lemma WriteSectionHeaderReadOnly(s: seq<byte>, access: Access, member: string, index: nat, data: int)
    requires access.readable && !access.writable && ShdrField(member).Some?
    requires ShdrDataSpec(s, access, index).value.Some?
    ensures WriteSectionHeaderSpec(s, access, member, index, data) == Ok(s)
  {
  }

  /** read_program_header reads what the mapped accessor reads. */
  lemma ReadProgramHeaderAgrees(s: seq<byte>, access: Access, member: string, index: nat)
    requires access.readable && ProgramInFile(s, index) && PhdrReadField(member).Some?
    ensures ReadProgramHeaderSpec(s, access, member, index) == MappedHandler.ProgramMember(s, member, index)
  {
    var base := MappedHandler.ProgramBase(s, index).value;
    OffsetsAgree(s, index);
    PhdrLayout(member, member);
    LoadSlice(s, base, base + PhdrSize, 0, PhdrReadField(member).value);
  }

  /** write_program_header changes the file as the mapped store does, for a known member. */
  lemma WriteProgramHeaderAgrees(s: seq<byte>, access: Access, member: string, index: nat, data: int)
    requires access.readable && access.writable && ProgramInFile(s, index) && PhdrField(member).Some?
    ensures WriteProgramHeaderSpec(s, access, member, index, data) == MappedHandler.StoreProgramMember(s, member, index, data)
  {
    var base := MappedHandler.ProgramBase(s, index).value;
    var f := PhdrField(member).value;
    OffsetsAgree(s, index);
    PhdrLayout(member, member);
    OverlayRecord(s, base, PhdrSize, f.offset, EncodeLE(data % Pow256(f.width), f.width));
  }

  /** A stored program-header member reads back, p_align under the name "sh_align". */
  lemma ProgramHeaderRoundTrip(s: seq<byte>, access: Access, member: string, index: nat, data: int)
    requires access.readable && access.writable && ProgramInFile(s, index) && PhdrField(member).Some?
    requires MappedHandler.ProgramBase(s, index).value >= EhdrSize
    ensures WriteProgramHeaderSpec(s, access, member, index, data).Ok?
    ensures var readName := if member == "p_align" then "sh_align" else member;
            ReadProgramHeaderSpec(WriteProgramHeaderSpec(s, access, member, index, data).value, access, readName, index)
              == Ok(ToLong(data % Pow256(PhdrField(member).value.width)))
  {
    var base := MappedHandler.ProgramBase(s, index).value;
    var f := PhdrField(member).value;
    var readName := if member == "p_align" then "sh_align" else member;
    WriteProgramHeaderAgrees(s, access, member, index, data);
    MappedHandler.ProgramWriteThenRead(s, member, index, data);
    PhdrLayout(member, member);
    var s' := MappedHandler.StoreProgramMember(s, member, index, data).value;
    MappedHandler.SectionBaseKept(s, index, base + f.offset, EncodeLE(data % Pow256(f.width), f.width));
    ReadProgramHeaderAgrees(s', access, readName, index);
  }

  /** Reading a known program-header member of an unreadable file dereferences NULL. */
  lemma ProgramHeaderUnreadable(s: seq<byte>, access: Access, member: string, index: nat, data: int)
    requires !access.readable
    ensures PhdrReadField(member).Some? ==> ReadProgramHeaderSpec(s, access, member, index) == Err(NullDeref)
    ensures PhdrField(member).Some? ==> WriteProgramHeaderSpec(s, access, member, index, data) == Err(NullDeref)
    ensures PhdrReadField(member).None? ==> ReadProgramHeaderSpec(s, access, member, index) == Err(NoException)
  {
  }

  /**
   * Insert mode: the file becomes the prefix before `offset`, then `data`,
   * then the old tail; its length grows by |data|.
   */
  lemma InsertShiftsTail(s: seq<byte>, access: Access, offset: int, data: seq<byte>)
    requires access.readable && access.writable && 0 <= offset <= |s| && offset < TwoTo63
    ensures InsertBytesSpec(s, access, offset, data, false) == Ok(s[..offset] + data + s[offset..])
    ensures |InsertBytesSpec(s, access, offset, data, false).value| == |s| + |data|
  {
    var once := Overlay(s, offset, data);
    var r := Overlay(once, offset + |data|, s[offset..]);
    var want := s[..offset] + data + s[offset..];
    assert |r| == |want|;
    forall i | 0 <= i < |r|
      ensures r[i] == want[i]
    {
      if i < offset {
      } else if i < offset + |data| {
      } else {
        assert r[i] == s[offset..][i - offset - |data|];
      }
    }
    assert r == want;
  }

  /** Overwrite mode: `data` replaces the bytes at `offset`, the rest is kept, and the file grows only to cover `data`. */
  lemma OverwriteInPlace(s: seq<byte>, access: Access, offset: int, data: seq<byte>)
    requires access.readable && access.writable && 0 <= offset <= |s| && offset < TwoTo63
    ensures InsertBytesSpec(s, access, offset, data, true).Ok?
    ensures var r := InsertBytesSpec(s, access, offset, data, true).value;
            |r| == (if offset + |data| > |s| then offset + |data| else |s|) &&
            (forall i :: 0 <= i < |r| ==> r[i] == if offset <= i < offset + |data| then data[i - offset] else s[i])
  {
  }

  /** An offset past the end is an IndexError, and the file is not written. */
  lemma InsertPastEnd(s: seq<byte>, access: Access, offset: int, data: seq<byte>, overwrite: bool)
    requires access.readable && access.writable && (offset < 0 || offset > |s|)
    ensures InsertBytesSpec(s, access, offset, data, overwrite) == Err(IndexError)
  {
  }
}
