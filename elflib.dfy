/**
 * composer/elf/elflib.py: the Python layer over the memory-mapped accessors
 * of elf/elf_handler.c.
 *
 * Every accessor call maps the whole file afresh and unmaps nothing; the
 * mapping is MAP_SHARED, so a store into it is a store into the file. A
 * `DiskFile` stands for the path the Python objects hold.
 */
module ElfLib {
  import opened Bytes
  import opened Outcomes
  import opened Layout
  import opened Files
  import Attributes
  import MappedHandler
  import StdioHandler

  /** The first four bytes of every ELF file: 0x7f 'E' 'L' 'F'. */
  const ELF_MAGIC: seq<byte> := [0x7f, 0x45, 0x4c, 0x46]

  /** The record an ELFStructure subclass names: ELFHeader, SectionHeader, ProgramHeader or Symbol. */
  datatype Kind =
    | FileHeader
    | SectionHeaderAt(index: nat)
    | ProgramHeaderAt(index: nat)
    | SymbolAt(sindex: nat, symnr: nat)

  /** The `_members` set of each subclass. */
  function Members(k: Kind): set<string> {
    match k
    case FileHeader => Attributes.E_HEADER_MEMBERS
    case SectionHeaderAt(_) => Attributes.S_HEADER_MEMBERS
    case ProgramHeaderAt(_) => Attributes.P_HEADER_MEMBERS
    case SymbolAt(_, _) => Attributes.SYMBOL_MEMBERS
  }

  // ---------------------------------------------------------------------
  // map_file
  // ---------------------------------------------------------------------

  /**
   * Why map_file gives NULL, if it does: open(2) refuses the mode, which
   * raises OSError, or mmap(2) of an empty file fails, which returns NULL
   * with no exception set. A read maps O_RDONLY, a write O_RDWR.
   */
  function MapError(s: seq<byte>, access: Access, write: bool): Option<Error> {
    if !access.readable || (write && !access.writable) then Some(IOError)
    else if |s| == 0 then Some(NoException)
    else None
  }

  method MapFile(f: DiskFile, write: bool) returns (r: Result<array<byte>>)
    ensures MapError(f.contents, f.access, write).Some? ==> r == Err(MapError(f.contents, f.access, write).value)
    ensures MapError(f.contents, f.access, write).None? ==> r.Ok? && fresh(r.value) && r.value[..] == f.contents
  {
    var e := MapError(f.contents, f.access, write);
    if e.Some? {
      return Err(e.value);
    }
    var c := f.contents;
    var m := new byte[|c|](i requires 0 <= i < |c| => c[i]);
    r := Ok(m);
  }

  // ---------------------------------------------------------------------
  // _read and _write of the ELFStructure subclasses
  // ---------------------------------------------------------------------

  /** What `_read(name)` returns for a structure of kind `k`. */
  function ReadMember(s: seq<byte>, access: Access, k: Kind, name: string): Result<int> {
    match MapError(s, access, false)
    case Some(e) => Err(e)
    case None =>
      match k
      case FileHeader => MappedHandler.HeaderMember(s, name)
      case SectionHeaderAt(i) => MappedHandler.SectionMember(s, name, i)
      case ProgramHeaderAt(i) => MappedHandler.ProgramMember(s, name, i)
      case SymbolAt(i, n) => MappedHandler.SymbolMember(s, name, i, n)
  }

  /** The file after `_write(name, value)` for a structure of kind `k`. */
  function StoreMember(s: seq<byte>, access: Access, k: Kind, name: string, value: int): Result<seq<byte>> {
    match MapError(s, access, true)
    case Some(e) => Err(e)
    case None =>
      match k
      case FileHeader => MappedHandler.StoreHeaderMember(s, name, value)
      case SectionHeaderAt(i) => MappedHandler.StoreSectionMember(s, name, i, value)
      case ProgramHeaderAt(i) => MappedHandler.StoreProgramMember(s, name, i, value)
      case SymbolAt(i, n) => MappedHandler.StoreSymbolMember(s, name, i, n, value)
  }

  method Read(f: DiskFile, k: Kind, name: string) returns (r: Result<int>)
    ensures r == ReadMember(f.contents, f.access, k, name)
  {
    var m :- MapFile(f, false);
    match k
    case FileHeader =>
      r := MappedHandler.ReadElfHeader(m, name);
    case SectionHeaderAt(i) =>
      r := MappedHandler.ReadSectionHeader(m, name, i);
    case ProgramHeaderAt(i) =>
      r := MappedHandler.ReadProgramHeader(m, name, i);
    case SymbolAt(i, n) =>
      r := MappedHandler.ReadElfSymbol(m, name, i, n);
  }

  method Write(f: DiskFile, k: Kind, name: string, value: int) returns (r: Outcome)
    modifies f
    ensures Applied(StoreMember(old(f.contents), f.access, k, name, value), r, old(f.contents), f.contents)
  {
    var mapped := MapFile(f, true);
    if mapped.Err? {
      return Fail(mapped.error);
    }
    var m := mapped.value;
    match k {
      case FileHeader =>
        r := MappedHandler.WriteElfHeader(m, name, value);
      case SectionHeaderAt(i) =>
        r := MappedHandler.WriteSectionHeader(m, name, i, value);
      case ProgramHeaderAt(i) =>
        r := MappedHandler.WriteProgramHeader(m, name, i, value);
      case SymbolAt(i, n) =>
        r := MappedHandler.WriteElfSymbol(m, name, i, n, value);
    }
    f.contents := m[..];
  }

  /**
   * An ELFStructure instance: the file it reads and writes, which record it
   * names, and the member values assigned on it, which shadow the file.
   */
  class Structure {
    const file: DiskFile
    const kind: Kind
    var cache: map<string, int>

    constructor (file: DiskFile, kind: Kind)
      ensures this.file == file && this.kind == kind && cache == map[]
    {
      this.file := file;
      this.kind := kind;
      cache := map[];
    }

    /** What reading attribute `name` gives in the current state. */
    function Attr(name: string): Result<int>
      reads this, file
    {
      Attributes.GetAttr(cache, Members(kind), name, ReadMember(file.contents, file.access, kind, name))
    }

    method GetAttr(name: string) returns (r: Result<int>)
      ensures r == Attr(name)
    {
      if name in cache {
        return Ok(cache[name]);
      }
      if name !in Members(kind) {
        return Err(AttributeError);
      }
      r := Read(file, kind, name);
    }

    method SetAttr(name: string, value: int) returns (r: Outcome)
      modifies this, file
      ensures Applied(Attributes.SetAttr(old(cache), Members(kind), name, value, old(file.contents),
                                         StoreMember(old(file.contents), file.access, kind, name, value)),
                      r, (old(cache), old(file.contents)), (cache, file.contents))
    {
      if name in Members(kind) {
        r := Write(file, kind, name, value);
        if r.Fail? {
          return;
        }
      }
      cache := cache[name := value];
      r := Pass;
    }
  }

  // ---------------------------------------------------------------------
  // EIdent
  // ---------------------------------------------------------------------

  /** A Python sequence index into `n` items: negative indices count from the end. */
  function PyIndex(i: int, n: nat): (k: Option<nat>)
    ensures k.Some? <==> -(n as int) <= i < n
    ensures k.Some? ==> k.value < n && (if i >= 0 then k.value == i else k.value == i + n)
  {
    if 0 <= i < n then Some(i) else if -(n as int) <= i < 0 then Some(i + n) else None
  }

  /** `EIdent[index]`: one byte of the e_ident array, read through a fresh mapping. */
  function IdentGetSpec(s: seq<byte>, access: Access, index: int): Result<byte> {
    match MapError(s, access, false)
    case Some(e) => Err(e)
    case None =>
      var ident :- MappedHandler.IdentBytes(s);
      match PyIndex(index, |ident|)
      case None => Err(IndexError)
      case Some(k) => Ok(ident[k])
  }

  /**
   * `EIdent[index] = value`: read e_ident into a bytearray, assign the item
   * (the index is checked first, then the value must be a byte), and write
   * the 16 bytes back through a second mapping.
   */
  function IdentSetSpec(s: seq<byte>, access: Access, index: int, value: int): Result<seq<byte>> {
    match MapError(s, access, false)
    case Some(e) => Err(e)
    case None =>
      var ident :- MappedHandler.IdentBytes(s);
      match PyIndex(index, |ident|)
      case None => Err(IndexError)
      case Some(k) =>
        if !(0 <= value < 256) then Err(ValueError)
        else
          match MapError(s, access, true)
          case Some(e) => Err(e)
          case None => MappedHandler.StoreIdent(s, ident[k := value as byte])
  }

  class EIdent {
    const file: DiskFile

    constructor (file: DiskFile)
      ensures this.file == file
    {
      this.file := file;
    }

    /** The length is fixed at EI_NIDENT. */
    function Length(): nat {
      EI_NIDENT
    }

    method Get(index: int) returns (r: Result<byte>)
      ensures r == IdentGetSpec(file.contents, file.access, index)
    {
      var m :- MapFile(file, false);
      var ident :- MappedHandler.ReadElfHeaderEIdent(m);
      var k := PyIndex(index, |ident|);
      if k.None? {
        return Err(IndexError);
      }
      r := Ok(ident[k.value]);
    }

    method Set(index: int, value: int) returns (r: Outcome)
      modifies file
      ensures Applied(IdentSetSpec(old(file.contents), file.access, index, value), r, old(file.contents), file.contents)
    {
      var mapped := MapFile(file, false);
      if mapped.Err? {
        return Fail(mapped.error);
      }
      var read := MappedHandler.ReadElfHeaderEIdent(mapped.value);
      if read.Err? {
        return Fail(read.error);
      }
      var id := read.value;
      var bytes := new byte[|id|](i requires 0 <= i < |id| => id[i]);
      var k := PyIndex(index, bytes.Length);
      if k.None? {
        return Fail(IndexError);
      }
      if !(0 <= value < 256) {
        return Fail(ValueError);
      }
      bytes[k.value] := value as byte;
      assert bytes[..] == id[k.value := value as byte];
      var target := MapFile(file, true);
      if target.Err? {
        return Fail(target.error);
      }
      var m := target.value;
      r := MappedHandler.WriteElfHeaderEIdent(m, bytes[..]);
      file.contents := m[..];
    }
  }

  // ---------------------------------------------------------------------
  // ELFFile
  // ---------------------------------------------------------------------

  /** Why ELFFile(path, force) raises, if it does: e_ident cannot be read, or the magic is wrong and `force` is off. */
  function OpenCheck(s: seq<byte>, access: Access, force: bool): Option<Error> {
    match MapError(s, access, false)
    case Some(e) => Some(e)
    case None =>
      match MappedHandler.IdentBytes(s)
      case Err(e) => Some(e)
      case Ok(ident) => if ident[..4] != ELF_MAGIC && !force then Some(IOError) else None
  }

  /** The count `range()` is taken of for a table: `name` read through a fresh ELFHeader. */
  function TableSize(s: seq<byte>, access: Access, name: string): Result<nat> {
    var n :- ReadMember(s, access, FileHeader, name);
    Ok(if n < 0 then 0 else n)
  }

  /** read_at: open "rb", seek (lseek refuses a negative position: OSError), read `length` bytes, or all when negative. */
  function ReadAtSpec(s: seq<byte>, access: Access, offset: int, length: int): (r: Result<seq<byte>>)
    ensures r.Ok? <==> access.readable && offset >= 0
    ensures r.Ok? ==>
              var start := if offset <= |s| then offset else |s|;
              start + |r.value| <= |s| && r.value == s[start..start + |r.value|] &&
              if length < 0 || start + length > |s| then start + |r.value| == |s| else |r.value| == length
  {
    if !access.readable then Err(IOError)
    else if offset < 0 then Err(IOError)
    else
      var start := if offset <= |s| then offset else |s|;
      var stop := if length < 0 || start + length > |s| then |s| else start + length;
      Ok(s[start..stop])
  }

  /**
   * raw_bytes of a Section or Segment: open the file, read the header's
   * offset attribute and seek there (a negative position is OSError), and
   * only then read the size attribute and that many bytes.
   */
  function ReadRegion(s: seq<byte>, access: Access, offset: Result<int>, size: Result<int>): (r: Result<seq<byte>>)
    ensures access.readable && offset.Ok? && offset.value < 0 ==> r == Err(IOError)
  {
    if !access.readable then Err(IOError)
    else
      var o :- offset;
      if o < 0 then Err(IOError)
      else
        var n :- size;
        ReadAtSpec(s, access, o, n)
  }

  /** overwrite_at: open "r+b", seek, write. */
  function OverwriteAtSpec(s: seq<byte>, access: Access, offset: int, data: seq<byte>): Result<seq<byte>> {
    if !(access.readable && access.writable) then Err(IOError)
    else if offset < 0 then Err(IOError)
    else Ok(Overlay(s, offset, data))
  }

  /**
   * insert_at as written: "wb+" truncates the file when it opens it, so the
   * tail it reads back is empty and the data lands in an empty file; a
   * negative offset makes the seek raise OSError after the truncation.
   */
  function InsertAtEffect(s: seq<byte>, access: Access, offset: int, data: seq<byte>): (Outcome, seq<byte>) {
    if !(access.readable && access.writable) then (Fail(IOError), s)
    else if offset < 0 then (Fail(IOError), [])
    else (Pass, Overlay([], offset, data))
  }

  /** insert_at with the file opened "r+b": the tail after `offset` is read back and written after the data. */
  function CorrectedInsertAtSpec(s: seq<byte>, access: Access, offset: int, data: seq<byte>): Result<seq<byte>> {
    if !(access.readable && access.writable) then Err(IOError)
    else if offset < 0 then Err(IOError)
    else
      var rest := if offset <= |s| then s[offset..] else [];
      Ok(Overlay(s, offset, data + rest))
  }

  method NewStructures(f: DiskFile, n: nat, make: nat -> Kind) returns (hs: seq<Structure>)
    ensures |hs| == n
    ensures forall i :: 0 <= i < n ==> fresh(hs[i]) && hs[i].file == f && hs[i].kind == make(i) && hs[i].cache == map[]
  {
    hs := [];
    while |hs| < n
      invariant |hs| <= n
      invariant forall i :: 0 <= i < |hs| ==> fresh(hs[i]) && hs[i].file == f && hs[i].kind == make(i) && hs[i].cache == map[]
    {
      var h := new Structure(f, make(|hs|));
      hs := hs + [h];
    }
  }

  class ElfFile {
    const file: DiskFile

    constructor (file: DiskFile)
      ensures this.file == file
    {
      this.file := file;
    }

    /** ELFFile(path, force): e_ident is read whatever `force` says; only the magic comparison is skipped. */
    static method Open(file: DiskFile, force: bool) returns (r: Result<ElfFile>)
      ensures OpenCheck(file.contents, file.access, force).Some? ==> r == Err(OpenCheck(file.contents, file.access, force).value)
      ensures OpenCheck(file.contents, file.access, force).None? ==> r.Ok? && fresh(r.value) && r.value.file == file
    {
      var m :- MapFile(file, false);
      var ident :- MappedHandler.ReadElfHeaderEIdent(m);
      if ident[..4] != ELF_MAGIC && !force {
        return Err(IOError);
      }
      var e := new ElfFile(file);
      r := Ok(e);
    }

    /** The `header` property builds a new ELFHeader on every access. */
    method Header() returns (h: Structure)
      ensures fresh(h) && h.file == file && h.kind == FileHeader && h.cache == map[]
    {
      h := new Structure(file, FileHeader);
    }

    function Size(): nat
      reads this, file
    {
      |file.contents|
    }

    method SectionHeaders() returns (r: Result<seq<Structure>>)
      ensures var n := TableSize(file.contents, file.access, "e_shnum");
              (r.Err? <==> n.Err?) && (r.Err? ==> r.error == n.error) &&
              (r.Ok? ==> (|r.value| == n.value &&
                 forall i :: 0 <= i < |r.value| ==>
                   fresh(r.value[i]) && r.value[i].file == file && r.value[i].kind == SectionHeaderAt(i) && r.value[i].cache == map[]))
    {
      var h := Header();
      var count := h.GetAttr("e_shnum");
      var n :- count;
      var hs := NewStructures(file, if n < 0 then 0 else n, (i: nat) => SectionHeaderAt(i));
      r := Ok(hs);
    }

    method ProgramHeaders() returns (r: Result<seq<Structure>>)
      ensures var n := TableSize(file.contents, file.access, "e_phnum");
              (r.Err? <==> n.Err?) && (r.Err? ==> r.error == n.error) &&
              (r.Ok? ==> (|r.value| == n.value &&
                 forall i :: 0 <= i < |r.value| ==>
                   fresh(r.value[i]) && r.value[i].file == file && r.value[i].kind == ProgramHeaderAt(i) && r.value[i].cache == map[]))
    {
      var h := Header();
      var count := h.GetAttr("e_phnum");
      var n :- count;
      var hs := NewStructures(file, if n < 0 then 0 else n, (i: nat) => ProgramHeaderAt(i));
      r := Ok(hs);
    }

    method Sections() returns (r: Result<seq<Section>>)
      ensures var n := TableSize(file.contents, file.access, "e_shnum");
              (r.Err? <==> n.Err?) && (r.Err? ==> r.error == n.error) &&
              (r.Ok? ==> (|r.value| == n.value &&
                 forall i :: 0 <= i < |r.value| ==>
                   fresh(r.value[i]) && r.value[i].file == file && r.value[i].index == i))
    {
      var h := Header();
      var count := h.GetAttr("e_shnum");
      var n :- count;
      var total: nat := if n < 0 then 0 else n;
      var ss: seq<Section> := [];
      while |ss| < total
        invariant |ss| <= total
        invariant forall i :: 0 <= i < |ss| ==> fresh(ss[i]) && ss[i].file == file && ss[i].index == i
      {
        var sec := new Section(file, |ss|);
        ss := ss + [sec];
      }
      r := Ok(ss);
    }

    method Segments() returns (r: Result<seq<Segment>>)
      ensures var n := TableSize(file.contents, file.access, "e_phnum");
              (r.Err? <==> n.Err?) && (r.Err? ==> r.error == n.error) &&
              (r.Ok? ==> (|r.value| == n.value &&
                 forall i :: 0 <= i < |r.value| ==>
                   fresh(r.value[i]) && r.value[i].file == file && r.value[i].index == i))
    {
      var h := Header();
      var count := h.GetAttr("e_phnum");
      var n :- count;
      var total: nat := if n < 0 then 0 else n;
      var ss: seq<Segment> := [];
      while |ss| < total
        invariant |ss| <= total
        invariant forall i :: 0 <= i < |ss| ==> fresh(ss[i]) && ss[i].file == file && ss[i].index == i
      {
        var seg := new Segment(file, |ss|);
        ss := ss + [seg];
      }
      r := Ok(ss);
    }

    method InsertAt(offset: int, data: seq<byte>) returns (r: Outcome)
      modifies file
      ensures (r, file.contents) == InsertAtEffect(old(file.contents), file.access, offset, data)
    {
      if !(file.access.readable && file.access.writable) {
        return Fail(IOError);
      }
      file.contents := [];
      if offset < 0 {
        return Fail(IOError);
      }
      var rest := if offset <= |file.contents| then file.contents[offset..] else [];
      assert data + rest == data;
      WriteAt(file, offset, data + rest);
      r := Pass;
    }

    method OverwriteAt(offset: int, data: seq<byte>) returns (r: Outcome)
      modifies file
      ensures Applied(OverwriteAtSpec(old(file.contents), file.access, offset, data), r, old(file.contents), file.contents)
    {
      if !(file.access.readable && file.access.writable) {
        return Fail(IOError);
      }
      if offset < 0 {
        return Fail(IOError);
      }
      WriteAt(file, offset, data);
      r := Pass;
    }
  }

  // ---------------------------------------------------------------------
  // Section and Segment
  // ---------------------------------------------------------------------

  /** The length of Python's range(0, stop, step), for a non-zero step. */
  function RangeLength(stop: int, step: int): nat
    requires step != 0
  {
    if step > 0 then (if stop <= 0 then 0 else (stop - 1) / step + 1)
    else (if stop >= 0 then 0 else (-stop - 1) / (-step) + 1)
  }

  /**
   * The number of Symbol objects Section.symbols builds, from the values of
   * the header's sh_type, sh_size and sh_entsize attributes: a section that
   * is neither SHT_SYMTAB nor SHT_DYNSYM raises IOError, a zero entry size
   * makes range() raise ValueError.
   */
  function SymbolCount(shType: Result<int>, shSize: Result<int>, shEntsize: Result<int>): Result<nat> {
    var t :- shType;
    if !IsSymbolTable(t) then Err(IOError)
    else
      var size :- shSize;
      var step :- shEntsize;
      if step == 0 then Err(ValueError) else Ok(RangeLength(size, step))
  }

  class Section {
    const file: DiskFile
    const index: nat
    const header: Structure

    constructor (file: DiskFile, index: nat)
      ensures this.file == file && this.index == index
      ensures fresh(header) && header.file == file && header.kind == SectionHeaderAt(index) && header.cache == map[]
    {
      this.file := file;
      this.index := index;
      header := new Structure(file, SectionHeaderAt(index));
    }

    method Symbols() returns (r: Result<seq<Structure>>)
      ensures var c := SymbolCount(header.Attr("sh_type"), header.Attr("sh_size"), header.Attr("sh_entsize"));
              (r.Err? <==> c.Err?) && (r.Err? ==> r.error == c.error) &&
              (r.Ok? ==> (|r.value| == c.value &&
                 forall i :: 0 <= i < |r.value| ==>
                   fresh(r.value[i]) && r.value[i].file == file && r.value[i].kind == SymbolAt(index, i)))
    {
      var t :- header.GetAttr("sh_type");
      if !IsSymbolTable(t) {
        return Err(IOError);
      }
      var size :- header.GetAttr("sh_size");
      var step :- header.GetAttr("sh_entsize");
      if step == 0 {
        return Err(ValueError);
      }
      var syms := NewStructures(file, RangeLength(size, step), (i: nat) => SymbolAt(index, i));
      r := Ok(syms);
    }

    method RawBytes() returns (r: Result<seq<byte>>)
      ensures r == ReadRegion(file.contents, file.access, header.Attr("sh_offset"), header.Attr("sh_size"))
    {
      if !file.access.readable {
        return Err(IOError);
      }
      var offset :- header.GetAttr("sh_offset");
      if offset < 0 {
        return Err(IOError);
      }
      var size :- header.GetAttr("sh_size");
      r := ReadAtSpec(file.contents, file.access, offset, size);
    }
  }

  class Segment {
    const file: DiskFile
    const index: nat
    const header: Structure

    constructor (file: DiskFile, index: nat)
      ensures this.file == file && this.index == index
      ensures fresh(header) && header.file == file && header.kind == ProgramHeaderAt(index) && header.cache == map[]
    {
      this.file := file;
      this.index := index;
      header := new Structure(file, ProgramHeaderAt(index));
    }

    method RawBytes() returns (r: Result<seq<byte>>)
      ensures r == ReadRegion(file.contents, file.access, header.Attr("p_offset"), header.Attr("p_filesz"))
    {
      if !file.access.readable {
        return Err(IOError);
      }
      var offset :- header.GetAttr("p_offset");
      if offset < 0 {
        return Err(IOError);
      }
      var size :- header.GetAttr("p_filesz");
      r := ReadAtSpec(file.contents, file.access, offset, size);
    }
  }

  // ---------------------------------------------------------------------
  // String tables
  // ---------------------------------------------------------------------

  /**
   * The bytes read_stringtable collects from position `at`: everything up
   * to the first NUL. read(1) at the end of the file gives b"", which is not
   * b"\x00", so without a NUL before the end the loop never stops.
   */
  function StringAt(s: seq<byte>, at: nat): (r: Result<seq<byte>>)
    decreases |s| - at
    ensures r.Ok? ==>
              at + |r.value| < |s| && r.value == s[at..at + |r.value|] && s[at + |r.value|] == 0 &&
              forall k :: at <= k < at + |r.value| ==> s[k] != 0
    ensures r.Err? <==> forall k :: at <= k < |s| ==> s[k] != 0
    ensures r.Err? ==> r.error == Diverges
  {
    if at >= |s| then Err(Diverges)
    else if s[at] == 0 then Ok([])
    else
      var rest :- StringAt(s, at + 1);
      Ok([s[at]] + rest)
  }

  /** read_stringtable(path, table_offset, str_offset), with `at` their sum. */
  function StringTableSpec(s: seq<byte>, access: Access, at: int): Result<seq<byte>> {
    if !access.readable then Err(IOError)
    else if at < 0 then Err(IOError)
    else StringAt(s, at)
  }

  method ReadStringTable(f: DiskFile, tableOffset: int, strOffset: int) returns (r: Result<seq<byte>>)
    ensures r == StringTableSpec(f.contents, f.access, tableOffset + strOffset)
  {
    if !f.access.readable {
      return Err(IOError);
    }
    var at := tableOffset + strOffset;
    if at < 0 {
      return Err(IOError);
    }
    var s := f.contents;
    if at >= |s| {
      return Err(Diverges);
    }
    var pos := at;
    var str: seq<byte> := [];
    while pos < |s| && s[pos] != 0
      invariant at <= pos <= |s|
      invariant str == s[at..pos]
      invariant forall k :: at <= k < pos ==> s[k] != 0
      decreases |s| - pos
    {
      str := str + [s[pos]];
      pos := pos + 1;
    }
    if pos == |s| {
      return Err(Diverges);
    }
    StringAtUnique(s, at, pos - at);
    r := Ok(str);
  }

  /** A NUL `n` bytes after `at`, with none before it, fixes the string read at `at`. */
  lemma StringAtUnique(s: seq<byte>, at: nat, n: nat)
    requires at + n < |s| && s[at + n] == 0
    requires forall k :: at <= k < at + n ==> s[k] != 0
    ensures StringAt(s, at) == Ok(s[at..at + n])
  {
    assert s[at + n] == 0;
  }

  /** read_stringtable stopping at the end of the file as well as at a NUL. */
  function CorrectedStringAt(s: seq<byte>, at: nat): (r: seq<byte>)
    decreases |s| - at
    ensures StringAt(s, at).Ok? ==> r == StringAt(s, at).value
    ensures StringAt(s, at).Err? ==> r == if at < |s| then s[at..] else []
  {
    if at >= |s| then []
    else if s[at] == 0 then []
    else [s[at]] + CorrectedStringAt(s, at + 1)
  }

  /** read_shstrtab: e_shstrndx, then that section's sh_offset, then the string there. */
  function ShstrtabSpec(s: seq<byte>, access: Access, strOffset: int): Result<seq<byte>> {
    var idx :- ReadMember(s, access, FileHeader, "e_shstrndx");
    ShstrndxValue(s, access);
    var off :- ReadMember(s, access, SectionHeaderAt(idx), "sh_offset");
    StringTableSpec(s, access, off + strOffset)
  }

  method ReadShstrtab(f: DiskFile, strOffset: int) returns (r: Result<seq<byte>>)
    ensures r == ShstrtabSpec(f.contents, f.access, strOffset)
  {
    var idx :- Read(f, FileHeader, "e_shstrndx");
    ShstrndxValue(f.contents, f.access);
    var off :- Read(f, SectionHeaderAt(idx), "sh_offset");
    r := ReadStringTable(f, off, strOffset);
  }

  // ---------------------------------------------------------------------
  // Properties
  // ---------------------------------------------------------------------

  /** e_shstrndx reads as the unsigned 16-bit field at byte 62, so it is a valid index argument. */
  lemma ShstrndxValue(s: seq<byte>, access: Access)
    ensures ReadMember(s, access, FileHeader, "e_shstrndx").Ok? ==>
              |s| >= EhdrSize && ReadMember(s, access, FileHeader, "e_shstrndx").value == ReadLE(s, 62, 2) >= 0
  {
    if ReadMember(s, access, FileHeader, "e_shstrndx").Ok? {
      Pow256Widths();
    }
  }

  /** The member tables: a readable, non-empty file with a whole header reports e_shnum and e_phnum from bytes 60 and 56. */
  lemma TableSizes(s: seq<byte>, access: Access)
    requires access.readable && |s| >= EhdrSize
    ensures TableSize(s, access, "e_shnum") == Ok(ReadLE(s, 60, 2))
    ensures TableSize(s, access, "e_phnum") == Ok(ReadLE(s, 56, 2))
  {
    Pow256Widths();
  }

  /** A file header that cannot be mapped gives no tables: unreadable raises OSError, empty raises SystemError. */
  lemma TableSizeErrors(s: seq<byte>, access: Access, name: string)
    requires !access.readable || |s| == 0
    ensures TableSize(s, access, name) == Err(if !access.readable then IOError else NoException)
  {
  }

  /**
   * Every Python path opens the file in binary mode and seeks without a check
   * of its own, so a negative position reaches lseek and raises OSError.
   * raw_bytes does so before it reads the size attribute; insert_at does so
   * after "wb+" has emptied the file.
   */
  lemma NegativeSeekRaises(s: seq<byte>, access: Access, at: int, length: int, size: Result<int>, data: seq<byte>)
    requires access.readable && at < 0
    ensures ReadAtSpec(s, access, at, length) == Err(IOError)
    ensures ReadRegion(s, access, Ok(at), size) == Err(IOError)
    ensures StringTableSpec(s, access, at) == Err(IOError)
    ensures access.writable ==> OverwriteAtSpec(s, access, at, data) == Err(IOError)
    ensures access.writable ==> InsertAtEffect(s, access, at, data) == (Fail(IOError), [])
    ensures access.writable ==> CorrectedInsertAtSpec(s, access, at, data) == Err(IOError)
  {
  }

  /** ELFFile accepts exactly the readable files of at least 16 bytes that start with the magic, or any such file with `force`. */
  lemma OpenAccepts(s: seq<byte>, access: Access, force: bool)
    ensures OpenCheck(s, access, force).None? <==> access.readable && |s| >= EI_NIDENT && (force || s[..4] == ELF_MAGIC)
  {
    if access.readable && |s| >= EI_NIDENT {
      assert s[..EI_NIDENT][..4] == s[..4];
    }
  }

  /** An attribute that was assigned is read back from the instance, while a fresh structure reads the file. */
  lemma EVersionShadowed(s: seq<byte>, access: Access)
    requires access.readable && access.writable && |s| >= EhdrSize
    ensures var st := Attributes.SetAttr(map[], Members(FileHeader), "e_version", 0x1_0000, s,
                                          StoreMember(s, access, FileHeader, "e_version", 0x1_0000));
            st.Ok? &&
            Attributes.GetAttr(st.value.0, Members(FileHeader), "e_version",
                               ReadMember(st.value.1, access, FileHeader, "e_version")) == Ok(0x1_0000) &&
            ReadMember(st.value.1, access, FileHeader, "e_version") == Ok(0)
  {
    MappedHandler.EVersionWriteTruncated(s, 0x1_0000);
  }

  /** p_align is a ProgramHeader member, but reading it from the file raises AttributeError; assigning it writes the file. */
  lemma ProgramAlignAttribute(s: seq<byte>, access: Access, index: nat, cache: map<string, int>, value: int)
    requires access.readable && |s| > 0 && "p_align" !in cache
    requires MappedHandler.ProgramBase(s, index).Ok?
    ensures Attributes.GetAttr(cache, Members(ProgramHeaderAt(index)), "p_align",
                               ReadMember(s, access, ProgramHeaderAt(index), "p_align")) == Err(AttributeError)
    ensures access.writable && MappedHandler.ProgramBase(s, index).value + PhdrSize <= |s| ==>
              StoreMember(s, access, ProgramHeaderAt(index), "p_align", value).Ok?
  {
  }

  /** st_info is a field of the symbol record but not a Symbol member: it stays on the instance and never reaches the file. */
  lemma SymbolInfoUnreachable(s: seq<byte>, access: Access, sindex: nat, symnr: nat, cache: map<string, int>, value: int)
    requires "st_info" !in cache
    ensures SymField("st_info").Some?
    ensures Attributes.GetAttr(cache, Members(SymbolAt(sindex, symnr)), "st_info",
                               ReadMember(s, access, SymbolAt(sindex, symnr), "st_info")) == Err(AttributeError)
    ensures Attributes.SetAttr(cache, Members(SymbolAt(sindex, symnr)), "st_info", value, s,
                               StoreMember(s, access, SymbolAt(sindex, symnr), "st_info", value)) == Ok((cache["st_info" := value], s))
  {
  }

  /** Setting one e_ident byte changes exactly that byte of the file, and reading it back gives the value. */
  lemma IdentSetOneByte(s: seq<byte>, access: Access, index: int, value: int)
    requires IdentSetSpec(s, access, index, value).Ok?
    ensures -16 <= index < 16 && 0 <= value < 256
    ensures var k := PyIndex(index, EI_NIDENT).value;
            IdentSetSpec(s, access, index, value).value == s[k := value as byte] &&
            IdentGetSpec(s[k := value as byte], access, index) == Ok(value as byte)
  {
    var k := PyIndex(index, EI_NIDENT).value;
    var ident := s[..EI_NIDENT];
    var r := IdentSetSpec(s, access, index, value).value;
    assert |r| == |s|;
    forall i | 0 <= i < |s|
      ensures r[i] == s[k := value as byte][i]
    {
      if i < EI_NIDENT {
        assert r[..EI_NIDENT][i] == ident[k := value as byte][i];
      } else {
        assert r[EI_NIDENT..][i - EI_NIDENT] == s[EI_NIDENT..][i - EI_NIDENT];
      }
    }
    assert r == s[k := value as byte];
  }

  /** An e_ident assignment succeeds exactly on a readable, writable file of at least 16 bytes, with an index in -16..15 and a byte value. */
  lemma IdentSetSucceeds(s: seq<byte>, access: Access, index: int, value: int)
    ensures IdentSetSpec(s, access, index, value).Ok? <==>
              access.readable && access.writable && |s| >= EI_NIDENT && -16 <= index < 16 && 0 <= value < 256
  {
  }

  /** Every member of range(0, stop, step): k is in it exactly when k * step has not yet passed `stop`. */
  lemma RangeMembers(stop: int, step: int, k: nat)
    requires step != 0
    ensures k < RangeLength(stop, step) <==> if step > 0 then k * step < stop else k * step > stop
  {
    if step > 0 {
      CountBelow(stop, step, k);
    } else {
      CountBelow(-stop, -step, k);
      assert k * step == -(k * (-step));
    }
  }

  lemma CountBelow(bound: int, step: int, k: nat)
    requires step > 0
    ensures k < (if bound <= 0 then 0 else (bound - 1) / step + 1) <==> k * step < bound
  {
    MulNonNegative(k, step);
    if bound > 0 {
      var q := (bound - 1) / step;
      var m := (bound - 1) % step;
      assert bound - 1 == q * step + m && 0 <= m < step;
      if k <= q {
        MulMonotone(k, q, step);
      } else {
        MulMonotone(q + 1, k, step);
        assert (q + 1) * step == q * step + step;
      }
    }
  }

  lemma MulNonNegative(a: nat, b: nat)
    ensures a * b >= 0
  {
  }

  lemma MulMonotone(a: int, b: int, c: nat)
    requires a <= b
    ensures a * c <= b * c
  {
    assert b * c - a * c == (b - a) * c;
    MulNonNegative(b - a, c);
  }

  /** For a positive entry size, the symbol count is ceil(sh_size / sh_entsize): the entries cover the section and none starts past it. */
  lemma SymbolCountCovers(size: int, step: int)
    requires size >= 0 && step > 0
    ensures var c := RangeLength(size, step);
            c * step >= size && (c > 0 ==> (c - 1) * step < size)
  {
    var c := RangeLength(size, step);
    RangeMembers(size, step, c);
    if c > 0 {
      RangeMembers(size, step, c - 1);
    }
  }

  /** Section.symbols raises exactly for a non-symbol-table section, a zero entry size, or a failing attribute. */
  lemma SymbolCountErrors(t: int, size: int, step: int)
    ensures SymbolCount(Ok(t), Ok(size), Ok(step)).Ok? <==> IsSymbolTable(t) && step != 0
    ensures !IsSymbolTable(t) ==> SymbolCount(Ok(t), Ok(size), Ok(step)) == Err(IOError)
    ensures IsSymbolTable(t) && step == 0 ==> SymbolCount(Ok(t), Ok(size), Ok(step)) == Err(ValueError)
  {
  }

  /** A region written with overwrite_at reads back with read_at. */
  lemma OverwriteThenRead(s: seq<byte>, access: Access, offset: int, data: seq<byte>)
    requires OverwriteAtSpec(s, access, offset, data).Ok?
    ensures ReadAtSpec(OverwriteAtSpec(s, access, offset, data).value, access, offset, |data|) == Ok(data)
  {
    var t := OverwriteAtSpec(s, access, offset, data).value;
    if |data| > 0 {
      var r := ReadAtSpec(t, access, offset, |data|).value;
      assert |r| == |data|;
      forall i | 0 <= i < |data|
        ensures r[i] == data[i]
      {
        assert r[i] == t[offset + i];
      }
      assert r == data;
    }
  }

  /** overwrite_at agrees with the C insert_bytes in overwrite mode wherever the latter accepts the offset. */
  lemma OverwriteMatchesInsertBytes(s: seq<byte>, access: Access, offset: int, data: seq<byte>)
    requires 0 <= offset <= |s| && offset < TwoTo63
    ensures OverwriteAtSpec(s, access, offset, data) == StdioHandler.InsertBytesSpec(s, access, offset, data, true)
  {
  }

  /** insert_at as written replaces the whole file by `offset` zero bytes and the data. */
  lemma InsertAtTruncates(s: seq<byte>, access: Access, offset: int, data: seq<byte>)
    requires access.readable && access.writable && offset >= 0 && |data| > 0
    ensures InsertAtEffect(s, access, offset, data) == (Pass, Zeros(offset) + data)
  {
    var r := Overlay([], offset, data);
    assert |r| == |Zeros(offset) + data|;
    forall i | 0 <= i < |r|
      ensures r[i] == (Zeros(offset) + data)[i]
    {
      if i < offset {
        assert r[i] == 0;
      } else {
        assert r[i] == data[i - offset];
      }
    }
    assert r == Zeros(offset) + data;
  }

  /** An example: inserting [2] at offset 1 of the file [1] leaves [0, 2] instead of [1, 2]. */
  lemma InsertAtLosesPrefix()
    ensures InsertAtEffect([1], Access(true, true), 1, [2]) == (Pass, [0, 2])
    ensures CorrectedInsertAtSpec([1], Access(true, true), 1, [2]) == Ok([1, 2])
  {
    InsertAtTruncates([1], Access(true, true), 1, [2]);
    assert Zeros(1) + [2] == [0, 2];
    CorrectedInsertShifts([1], Access(true, true), 1, [2]);
    assert [1][..1] + [2] + [1][1..] == [1, 2];
  }

  /** The corrected insert_at moves the tail after the data, as the docstring promises and insert_bytes does. */
  lemma CorrectedInsertShifts(s: seq<byte>, access: Access, offset: int, data: seq<byte>)
    requires access.readable && access.writable && 0 <= offset <= |s| && offset < TwoTo63
    ensures CorrectedInsertAtSpec(s, access, offset, data) == Ok(s[..offset] + data + s[offset..])
    ensures CorrectedInsertAtSpec(s, access, offset, data) == StdioHandler.InsertBytesSpec(s, access, offset, data, false)
  {
    StdioHandler.InsertShiftsTail(s, access, offset, data);
    var r := Overlay(s, offset, data + s[offset..]);
    var want := s[..offset] + data + s[offset..];
    assert |r| == |want|;
    forall i | 0 <= i < |r|
      ensures r[i] == want[i]
    {
    }
    assert r == want;
  }

  /** An example: a string table entry with no NUL after it never ends. */
  lemma UnterminatedStringDiverges()
    ensures StringTableSpec([0x41], Access(true, false), 0) == Err(Diverges)
    ensures CorrectedStringAt([0x41], 0) == [0x41]
  {
    assert StringAt([0x41], 1) == Err(Diverges);
  }
}
