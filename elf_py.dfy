/**
 * elf.py: the earlier Python layer, over the stdio accessors of
 * elf_handler.c. It has file, section and program headers with the
 * same attribute protocol as composer/elf/elflib.py, and delegates
 * insert_at and overwrite_at to insert_bytes.
 */
module ElfPy {
  import opened Bytes
  import opened Outcomes
  import opened Layout
  import opened Files
  import Attributes
  import StdioHandler
  import MappedHandler
  import ElfLib

  /** The record a Header subclass names: ELFHeader, SectionHeader or ProgramHeader. */
  datatype Kind =
    | ElfHeader
    | SectionHeader(index: nat)
    | ProgramHeader(index: nat)

  function Members(k: Kind): set<string> {
    match k
    case ElfHeader => Attributes.E_HEADER_MEMBERS
    case SectionHeader(_) => Attributes.S_HEADER_MEMBERS
    case ProgramHeader(_) => Attributes.P_HEADER_MEMBERS
  }

  /** What `_read(name)` returns for a header of kind `k`. */
  function ReadMember(s: seq<byte>, access: Access, k: Kind, name: string): Result<int> {
    match k
    case ElfHeader => StdioHandler.ReadElfHeaderSpec(s, access, name)
    case SectionHeader(i) => StdioHandler.ReadSectionHeaderSpec(s, access, name, i)
    case ProgramHeader(i) => StdioHandler.ReadProgramHeaderSpec(s, access, name, i)
  }

  /** The file after `_write(name, value)` for a header of kind `k`. */
  function StoreMember(s: seq<byte>, access: Access, k: Kind, name: string, value: int): Result<seq<byte>> {
    match k
    case ElfHeader => StdioHandler.WriteElfHeaderSpec(s, access, name, value)
    case SectionHeader(i) => StdioHandler.WriteSectionHeaderSpec(s, access, name, i, value)
    case ProgramHeader(i) => StdioHandler.WriteProgramHeaderSpec(s, access, name, i, value)
  }

  method Read(f: DiskFile, k: Kind, name: string) returns (r: Result<int>)
    ensures r == ReadMember(f.contents, f.access, k, name)
  {
    match k {
      case ElfHeader =>
        r := StdioHandler.ReadElfHeader(f, name);
      case SectionHeader(i) =>
        r := StdioHandler.ReadSectionHeader(f, name, i);
      case ProgramHeader(i) =>
        r := StdioHandler.ReadProgramHeader(f, name, i);
    }
  }

  method Write(f: DiskFile, k: Kind, name: string, value: int) returns (r: Outcome)
    modifies f
    ensures Applied(StoreMember(old(f.contents), f.access, k, name, value), r, old(f.contents), f.contents)
  {
    match k {
      case ElfHeader =>
        r := StdioHandler.WriteElfHeader(f, name, value);
      case SectionHeader(i) =>
        r := StdioHandler.WriteSectionHeader(f, name, i, value);
      case ProgramHeader(i) =>
        r := StdioHandler.WriteProgramHeader(f, name, i, value);
    }
  }

  /** A Header instance: its file, its record, and the member values assigned on it. */
  class Header {
    const file: DiskFile
    const kind: Kind
    var cache: map<string, int>

    constructor (file: DiskFile, kind: Kind)
      ensures this.file == file && this.kind == kind && cache == map[]
    {
      this.file := file;
      this.kind := kind;
      cache := map[];
    }

    function Attr(name: string): Result<int>
      reads this, file
    {
      Attributes.GetAttr(cache, Members(kind), name, ReadMember(file.contents, file.access, kind, name))
    }

    method GetAttr(name: string) returns (r: Result<int>)
      ensures r == Attr(name)
    {
      if name in cache {
        return Ok(cache[name]);
      }
      if name !in Members(kind) {
        return Err(AttributeError);
      }
      r := Read(file, kind, name);
    }

    method SetAttr(name: string, value: int) returns (r: Outcome)
      modifies this, file
      ensures Applied(Attributes.SetAttr(old(cache), Members(kind), name, value, old(file.contents),
                                         StoreMember(old(file.contents), file.access, kind, name, value)),
                      r, (old(cache), old(file.contents)), (cache, file.contents))
    {
      if name in Members(kind) {
        r := Write(file, kind, name, value);
        if r.Fail? {
          return;
        }
      }
      cache := cache[name := value];
      r := Pass;
    }
  }

  method NewHeaders(f: DiskFile, n: nat, make: nat -> Kind) returns (hs: seq<Header>)
    ensures |hs| == n
    ensures forall i :: 0 <= i < n ==> fresh(hs[i]) && hs[i].file == f && hs[i].kind == make(i) && hs[i].cache == map[]
  {
    hs := [];
    while |hs| < n
      invariant |hs| <= n
      invariant forall i :: 0 <= i < |hs| ==> fresh(hs[i]) && hs[i].file == f && hs[i].kind == make(i) && hs[i].cache == map[]
    {
      var h := new Header(f, make(|hs|));
      hs := hs + [h];
    }
  }

  /** The count `range()` is taken of for a table: `name` read through a fresh ELFHeader. */
  function TableSize(s: seq<byte>, access: Access, name: string): Result<nat> {
    var n :- ReadMember(s, access, ElfHeader, name);
    Ok(if n < 0 then 0 else n)
  }

  class ElfFile {
    const file: DiskFile

    constructor (file: DiskFile)
      ensures this.file == file
    {
      this.file := file;
    }

    method Header() returns (h: Header)
      ensures fresh(h) && h.file == file && h.kind == ElfHeader && h.cache == map[]
    {
      h := new Header(file, ElfHeader);
    }

    function Size(): nat
      reads this, file
    {
      |file.contents|
    }

    method SectionHeaders() returns (r: Result<seq<Header>>)
      ensures var n := TableSize(file.contents, file.access, "e_shnum");
              (r.Err? <==> n.Err?) && (r.Err? ==> r.error == n.error) &&
              (r.Ok? ==> (|r.value| == n.value &&
                 forall i :: 0 <= i < |r.value| ==>
                   fresh(r.value[i]) && r.value[i].file == file && r.value[i].kind == SectionHeader(i) && r.value[i].cache == map[]))
    {
      var h := Header();
      var count := h.GetAttr("e_shnum");
      var n :- count;
      var hs := NewHeaders(file, if n < 0 then 0 else n, (i: nat) => SectionHeader(i));
      r := Ok(hs);
    }

    method ProgramHeaders() returns (r: Result<seq<Header>>)
      ensures var n := TableSize(file.contents, file.access, "e_phnum");
              (r.Err? <==> n.Err?) && (r.Err? ==> r.error == n.error) &&
              (r.Ok? ==> (|r.value| == n.value &&
                 forall i :: 0 <= i < |r.value| ==>
                   fresh(r.value[i]) && r.value[i].file == file && r.value[i].kind == ProgramHeader(i) && r.value[i].cache == map[]))
    {
      var h := Header();
      var count := h.GetAttr("e_phnum");
      var n :- count;
      var hs := NewHeaders(file, if n < 0 then 0 else n, (i: nat) => ProgramHeader(i));
      r := Ok(hs);
    }

    method InsertAt(offset: int, data: seq<byte>) returns (r: Outcome)
      modifies file
      ensures Applied(StdioHandler.InsertBytesSpec(old(file.contents), file.access, offset, data, false),
                      r, old(file.contents), file.contents)
    {
      r := StdioHandler.InsertBytes(file, offset, data, false);
    }

    method OverwriteAt(offset: int, data: seq<byte>) returns (r: Outcome)
      modifies file
      ensures Applied(StdioHandler.InsertBytesSpec(old(file.contents), file.access, offset, data, true),
                      r, old(file.contents), file.contents)
    {
      r := StdioHandler.InsertBytes(file, offset, data, true);
    }
  }

  // ---------------------------------------------------------------------
  // Properties
  // ---------------------------------------------------------------------

  /** p_align can be assigned but never read from the file: the C read rejects the name and returns NULL without an exception. */
  lemma AlignReadFails(s: seq<byte>, access: Access, index: nat, cache: map<string, int>)
    requires "p_align" !in cache
    ensures Attributes.GetAttr(cache, Members(ProgramHeader(index)), "p_align",
                               ReadMember(s, access, ProgramHeader(index), "p_align")) == Err(NoException)
  {
  }

  /**
   * On a file that can be read but not written, assigning a section-header
   * member reports success, leaves the file as it was and caches the value:
   * the instance then disagrees with the file.
   */
  lemma ReadOnlySectionAssignment(s: seq<byte>, access: Access, index: nat, name: string, value: int)
    requires access.readable && !access.writable && name in Attributes.S_HEADER_MEMBERS
    requires StdioHandler.SectionInFile(s, index)
    ensures Attributes.SetAttr(map[], Members(SectionHeader(index)), name, value, s,
                               StoreMember(s, access, SectionHeader(index), name, value)) == Ok((map[name := value], s))
  {
    Attributes.MemberSetsMatchLayout(name);
    var base := MappedHandler.SectionBase(s, index).value;
    StdioHandler.OffsetsAgree(s, index);
    assert StdioHandler.ShdrDataSpec(s, access, index).value.Some?;
  }

  /** On a readable file with a whole header, the two Python layers read the same file-header members. */
  lemma FileHeaderReadsAgree(s: seq<byte>, access: Access, name: string)
    requires access.readable && |s| >= EhdrSize
    ensures ReadMember(s, access, ElfHeader, name) == ElfLib.ReadMember(s, access, ElfLib.FileHeader, name)
  {
    StdioHandler.ReadElfHeaderAgrees(s, access, name);
  }

  /** ... and the same members of a section header that lies inside the file. */
  lemma SectionReadsAgree(s: seq<byte>, access: Access, name: string, index: nat)
    requires access.readable && StdioHandler.SectionInFile(s, index)
    ensures ReadMember(s, access, SectionHeader(index), name) == ElfLib.ReadMember(s, access, ElfLib.SectionHeaderAt(index), name)
  {
    StdioHandler.ReadSectionHeaderAgrees(s, access, name, index);
  }

  /** ... and of a program header, for every member name but p_align. */
  lemma ProgramReadsAgree(s: seq<byte>, access: Access, name: string, index: nat)
    requires access.readable && StdioHandler.ProgramInFile(s, index) && name in Attributes.P_HEADER_MEMBERS && name != "p_align"
    ensures ReadMember(s, access, ProgramHeader(index), name) == ElfLib.ReadMember(s, access, ElfLib.ProgramHeaderAt(index), name)
  {
    Attributes.MemberSetsMatchLayout(name);
    StdioHandler.ReadProgramHeaderAgrees(s, access, name, index);
  }

  /** On a writable file whose program header lies inside it, both layers store a member the same way. */
  lemma ProgramStoresAgree(s: seq<byte>, access: Access, name: string, index: nat, value: int)
    requires access.readable && access.writable && StdioHandler.ProgramInFile(s, index) && name in Attributes.P_HEADER_MEMBERS
    ensures StoreMember(s, access, ProgramHeader(index), name, value)
            == ElfLib.StoreMember(s, access, ElfLib.ProgramHeaderAt(index), name, value)
  {
    Attributes.MemberSetsMatchLayout(name);
    StdioHandler.WriteProgramHeaderAgrees(s, access, name, index, value);
  }
}
