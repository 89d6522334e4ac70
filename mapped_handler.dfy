/**
 * The memory-mapped field accessors of elf/elf_handler.c.
 *
 * Each accessor maps the whole file (MAP_SHARED), locates the record from
 * fields of the file header, and reads or stores one struct member in the
 * mapping. The mapping is an `array<byte>`; `null` stands for map_file
 * failing (it returns NULL). The functions over `seq<byte>` below are the
 * specification of what each accessor reads or what the mapping becomes.
 *
 * The C code checks no index against e_shnum or e_phnum and no offset
 * against the file size. The model gives `Err(OutOfFile)` for any member
 * that does not lie wholly inside the file's bytes. The C mapping covers
 * whole pages: past the end of the file but inside the last page it reads
 * zeros and loses stores, and past that page the access is undefined.
 */
module MappedHandler {
  import opened Bytes
  import opened Outcomes
  import opened Layout

  /** The unsigned value of field `f` of the record at `base`. */
  function Load(s: seq<byte>, base: nat, f: Field): (r: Result<nat>)
    ensures r.Ok? <==> base + f.offset + f.width <= |s|
  {
    if base + f.offset + f.width <= |s| then Ok(ReadLE(s, base + f.offset, f.width)) else Err(OutOfFile)
  }

  /** `v` cast to `cast` bytes and stored into field `f` of the record at `base`. */
  function StoreField(s: seq<byte>, base: nat, f: Field, v: int, cast: nat): (r: Result<seq<byte>>)
    ensures r.Ok? <==> base + f.offset + f.width <= |s|
  {
    if base + f.offset + f.width <= |s| then Ok(Splice(s, base + f.offset, EncodeLE(v % Pow256(cast), f.width)))
    else Err(OutOfFile)
  }

  /** Reading a stored field gives the stored value truncated to the cast (when the cast is no wider). */
  lemma LoadAfterStore(s: seq<byte>, base: nat, f: Field, v: int, cast: nat)
    requires base + f.offset + f.width <= |s| && cast <= f.width
    ensures Load(StoreField(s, base, f, v, cast).value, base, f) == Ok(v % Pow256(cast))
  {
    var x := v % Pow256(cast);
    ReadAfterStore(s, base + f.offset, x, f.width);
    Pow256Monotone(cast, f.width);
    DivModUnique(x, Pow256(f.width), 0, x);
  }

  /** A store leaves every field it does not overlap as it was. */
  lemma LoadBesideStore(s: seq<byte>, base: nat, f: Field, v: int, cast: nat, base2: nat, g: Field)
    requires base + f.offset + f.width <= |s|
    requires base2 + g.offset + g.width <= base + f.offset || base + f.offset + f.width <= base2 + g.offset
    ensures Load(StoreField(s, base, f, v, cast).value, base2, g) == Load(s, base2, g)
  {
    if base2 + g.offset + g.width <= |s| {
      ReadBesideStore(s, base + f.offset, EncodeLE(v % Pow256(cast), f.width), base2 + g.offset, g.width);
    }
  }

  /** A field's value as the `long` the C function returns. */
  function LoadLong(s: seq<byte>, base: nat, f: Field): Result<int> {
    var v :- Load(s, base, f);
    Ok(ToLong(v))
  }

  // ---------------------------------------------------------------------
  // Locating records
  // ---------------------------------------------------------------------

  /** Section header `index` starts at e_shoff + index * e_shentsize; the index is not checked. */
  function SectionBase(s: seq<byte>, index: nat): (r: Result<nat>)
    ensures r.Ok? <==> |s| >= 60
    ensures r.Ok? ==> r.value == ReadLE(s, 40, 8) + index * ReadLE(s, 58, 2)
  {
    var shoff :- Load(s, 0, E_SHOFF);
    var shentsize :- Load(s, 0, E_SHENTSIZE);
    Ok(shoff + index * shentsize)
  }

  /** Program header `index` starts at e_phoff + index * e_phentsize; the index is not checked. */
  function ProgramBase(s: seq<byte>, index: nat): (r: Result<nat>)
    ensures r.Ok? <==> |s| >= 56
    ensures r.Ok? ==> r.value == ReadLE(s, 32, 8) + index * ReadLE(s, 54, 2)
  {
    var phoff :- Load(s, 0, E_PHOFF);
    var phentsize :- Load(s, 0, E_PHENTSIZE);
    Ok(phoff + index * phentsize)
  }

  /**
   * Symbol `symnr` of section `index` starts at sh_offset + sh_entsize * symnr,
   * after the guard on sh_type: SHT_SYMTAB always passes, SHT_DYNSYM only when
   * `dynsymPasses` (the read guard; the write guard compares with SHT_SYMTAB twice).
   */
  function SymbolBase(s: seq<byte>, index: nat, symnr: nat, dynsymPasses: bool): (r: Result<nat>)
    ensures r == Err(TypeMismatch) <==>
              SectionBase(s, index).Ok? && Load(s, SectionBase(s, index).value, SH_TYPE).Ok? &&
              var t := Load(s, SectionBase(s, index).value, SH_TYPE).value;
              t != SHT_SYMTAB && (t != SHT_DYNSYM || !dynsymPasses)
    ensures r.Ok? ==>
              SectionBase(s, index).Ok? && SectionBase(s, index).value + ShdrSize <= |s| &&
              var base := SectionBase(s, index).value;
              r.value == Load(s, base, SH_OFFSET).value + Load(s, base, SH_ENTSIZE).value * symnr
  {
    var base :- SectionBase(s, index);
    var shType :- Load(s, base, SH_TYPE);
    if shType != SHT_SYMTAB && (shType != SHT_DYNSYM || !dynsymPasses) then Err(TypeMismatch)
    else
      var symOffset :- Load(s, base, SH_OFFSET);
      var entsize :- Load(s, base, SH_ENTSIZE);
      Ok(symOffset + entsize * symnr)
  }

  // ---------------------------------------------------------------------
  // What each accessor reads, and what the mapping becomes after a store
  // ---------------------------------------------------------------------

  function IdentBytes(s: seq<byte>): Result<seq<byte>> {
    if |s| >= EI_NIDENT then Ok(s[..EI_NIDENT]) else Err(OutOfFile)
  }

  /** memcpy of EI_NIDENT bytes from the caller's bytearray into e_ident. */
  function StoreIdent(s: seq<byte>, ident: seq<byte>): (r: Result<seq<byte>>)
    ensures r.Ok? <==> |s| >= EI_NIDENT && |ident| >= EI_NIDENT
    ensures r.Ok? ==> |r.value| == |s| && r.value[..EI_NIDENT] == ident[..EI_NIDENT] && r.value[EI_NIDENT..] == s[EI_NIDENT..]
  {
    if |s| < EI_NIDENT then Err(OutOfFile)
    else if |ident| < EI_NIDENT then Err(OutOfBuffer)
    else Ok(Splice(s, 0, ident[..EI_NIDENT]))
  }

  function HeaderMember(s: seq<byte>, member: string): Result<int> {
    match EhdrField(member)
    case None => Err(AttributeError)
    case Some(f) => LoadLong(s, 0, f)
  }

  function StoreHeaderMember(s: seq<byte>, member: string, data: int): Result<seq<byte>> {
    match EhdrField(member)
    case None => Err(AttributeError)
    case Some(f) => StoreField(s, 0, f, data, EhdrCastWidth(member, f))
  }

  function SectionMember(s: seq<byte>, member: string, index: nat): Result<int> {
    var base :- SectionBase(s, index);
    match ShdrField(member)
    case None => Err(AttributeError)
    case Some(f) => LoadLong(s, base, f)
  }

  function StoreSectionMember(s: seq<byte>, member: string, index: nat, data: int): Result<seq<byte>> {
    var base :- SectionBase(s, index);
    match ShdrField(member)
    case None => Err(AttributeError)
    case Some(f) => StoreField(s, base, f, data, f.width)
  }

  function ProgramMember(s: seq<byte>, member: string, index: nat): Result<int> {
    var base :- ProgramBase(s, index);
    match PhdrReadField(member)
    case None => Err(AttributeError)
    case Some(f) => LoadLong(s, base, f)
  }

  /** An unknown name returns NULL without an exception set. */
  function StoreProgramMember(s: seq<byte>, member: string, index: nat, data: int): Result<seq<byte>> {
    var base :- ProgramBase(s, index);
    match PhdrField(member)
    case None => Err(NoException)
    case Some(f) => StoreField(s, base, f, data, f.width)
  }

  function SymbolMember(s: seq<byte>, member: string, index: nat, symnr: nat): Result<int> {
    var base :- SymbolBase(s, index, symnr, true);
    match SymField(member)
    case None => Err(AttributeError)
    case Some(f) => LoadLong(s, base, f)
  }

  function StoreSymbolMember(s: seq<byte>, member: string, index: nat, symnr: nat, data: int): Result<seq<byte>> {
    var base :- SymbolBase(s, index, symnr, false);
    match SymField(member)
    case None => Err(AttributeError)
    case Some(f) => StoreField(s, base, f, data, f.width)
  }

  // ---------------------------------------------------------------------
  // The accessors over the mapping
  // ---------------------------------------------------------------------

  /** A struct-member store: the bytes of `enc` go to `at`, nothing else changes. */
  method Store(mmf: array<byte>, at: nat, enc: seq<byte>)
    requires at + |enc| <= mmf.Length
    modifies mmf
    ensures mmf[..] == Splice(old(mmf[..]), at, enc)
  {
    forall k | 0 <= k < |enc| {
      mmf[at + k] := enc[k];
    }
  }

  function ReadElfHeaderEIdent(mmf: array?<byte>): Result<seq<byte>>
    reads mmf
  {
    if mmf == null then Err(IOError) else IdentBytes(mmf[..])
  }

  method WriteElfHeaderEIdent(mmf: array?<byte>, ident: seq<byte>) returns (r: Outcome)
    modifies mmf
    ensures mmf == null ==> r == Fail(IOError)
    ensures mmf != null ==> Applied(StoreIdent(old(mmf[..]), ident), r, old(mmf[..]), mmf[..])
  {
    if mmf == null {
      return Fail(IOError);
    }
    if mmf.Length < EI_NIDENT {
      return Fail(OutOfFile);
    }
    if |ident| < EI_NIDENT {
      return Fail(OutOfBuffer);
    }
    Store(mmf, 0, ident[..EI_NIDENT]);
    r := Pass;
  }

  function ReadElfHeader(mmf: array?<byte>, member: string): Result<int>
    reads mmf
  {
    if mmf == null then Err(IOError) else HeaderMember(mmf[..], member)
  }

  method WriteElfHeader(mmf: array?<byte>, member: string, data: int) returns (r: Outcome)
    modifies mmf
    ensures mmf == null ==> r == Fail(IOError)
    ensures mmf != null ==> Applied(StoreHeaderMember(old(mmf[..]), member, data), r, old(mmf[..]), mmf[..])
  {
    if mmf == null {
      return Fail(IOError);
    }
    match EhdrField(member)
    case None =>
      r := Fail(AttributeError);
    case Some(f) =>
      if f.offset + f.width > mmf.Length {
        return Fail(OutOfFile);
      }
      Store(mmf, f.offset, EncodeLE(data % Pow256(EhdrCastWidth(member, f)), f.width));
      r := Pass;
  }

  function ReadSectionHeader(mmf: array?<byte>, member: string, index: nat): Result<int>
    reads mmf
  {
    if mmf == null then Err(IOError) else SectionMember(mmf[..], member, index)
  }

  method WriteSectionHeader(mmf: array?<byte>, member: string, index: nat, data: int) returns (r: Outcome)
    modifies mmf
    ensures mmf == null ==> r == Fail(IOError)
    ensures mmf != null ==> Applied(StoreSectionMember(old(mmf[..]), member, index, data), r, old(mmf[..]), mmf[..])
  {
    if mmf == null {
      return Fail(IOError);
    }
    var base := SectionBase(mmf[..], index);
    if base.Err? {
      return Fail(base.error);
    }
    match ShdrField(member)
    case None =>
      r := Fail(AttributeError);
    case Some(f) =>
      if base.value + f.offset + f.width > mmf.Length {
        return Fail(OutOfFile);
      }
      Store(mmf, base.value + f.offset, EncodeLE(data % Pow256(f.width), f.width));
      r := Pass;
  }

  function ReadProgramHeader(mmf: array?<byte>, member: string, index: nat): Result<int>
    reads mmf
  {
    if mmf == null then Err(IOError) else ProgramMember(mmf[..], member, index)
  }

  method WriteProgramHeader(mmf: array?<byte>, member: string, index: nat, data: int) returns (r: Outcome)
    modifies mmf
    ensures mmf == null ==> r == Fail(IOError)
    ensures mmf != null ==> Applied(StoreProgramMember(old(mmf[..]), member, index, data), r, old(mmf[..]), mmf[..])
  {
    if mmf == null {
      return Fail(IOError);
    }
    var base := ProgramBase(mmf[..], index);
    if base.Err? {
      return Fail(base.error);
    }
    match PhdrField(member)
    case None =>
      r := Fail(NoException);
    case Some(f) =>
      if base.value + f.offset + f.width > mmf.Length {
        return Fail(OutOfFile);
      }
      Store(mmf, base.value + f.offset, EncodeLE(data % Pow256(f.width), f.width));
      r := Pass;
  }

  function ReadElfSymbol(mmf: array?<byte>, member: string, index: nat, symnr: nat): Result<int>
    reads mmf
  {
    if mmf == null then Err(IOError) else SymbolMember(mmf[..], member, index, symnr)
  }

  method WriteElfSymbol(mmf: array?<byte>, member: string, index: nat, symnr: nat, data: int) returns (r: Outcome)
    modifies mmf
    ensures mmf == null ==> r == Fail(IOError)
    ensures mmf != null ==> Applied(StoreSymbolMember(old(mmf[..]), member, index, symnr, data), r, old(mmf[..]), mmf[..])
  {
    if mmf == null {
      return Fail(IOError);
    }
    var base := SymbolBase(mmf[..], index, symnr, false);
    if base.Err? {
      return Fail(base.error);
    }
    match SymField(member)
    case None =>
      r := Fail(AttributeError);
    case Some(f) =>
      if base.value + f.offset + f.width > mmf.Length {
        return Fail(OutOfFile);
      }
      Store(mmf, base.value + f.offset, EncodeLE(data % Pow256(f.width), f.width));
      r := Pass;
  }

  // ---------------------------------------------------------------------
  // Properties of the accessors
  // ---------------------------------------------------------------------

  /** A stored file-header member reads back as the value truncated to its C cast. */
  lemma HeaderWriteThenRead(s: seq<byte>, member: string, data: int)
    requires EhdrField(member).Some? && |s| >= EhdrSize
    ensures StoreHeaderMember(s, member, data).Ok?
    ensures var f := EhdrField(member).value;
            HeaderMember(StoreHeaderMember(s, member, data).value, member)
              == Ok(ToLong(data % Pow256(EhdrCastWidth(member, f))))
  {
    var f := EhdrField(member).value;
    EhdrLayout(member, member);
    LoadAfterStore(s, 0, f, data, EhdrCastWidth(member, f));
  }

  /**
   * A store into one file-header member changes only that member's bytes:
   * the length is kept and every other member reads as before.
   */
  lemma HeaderWriteFrame(s: seq<byte>, member: string, data: int, other: string)
    requires StoreHeaderMember(s, member, data).Ok? && other != member
    ensures var s' := StoreHeaderMember(s, member, data).value;
            var f := EhdrField(member).value;
            |s'| == |s| &&
            (forall i :: 0 <= i < |s| && !(f.offset <= i < f.offset + f.width) ==> s'[i] == s[i]) &&
            HeaderMember(s', other) == HeaderMember(s, other)
  {
    var f := EhdrField(member).value;
    EhdrLayout(member, other);
    if EhdrField(other).Some? {
      LoadBesideStore(s, 0, f, data, EhdrCastWidth(member, f), 0, EhdrField(other).value);
    }
  }

  /** Unknown member names are rejected with AttributeError by the read and by the write. */
  lemma HeaderUnknownMember(s: seq<byte>, member: string, data: int)
    requires EhdrField(member).None?
    ensures HeaderMember(s, member) == Err(AttributeError)
    ensures StoreHeaderMember(s, member, data) == Err(AttributeError)
  {
  }

  /** write_elf_header("e_version", v) keeps only the low 16 bits of v in the 32-bit field. */
  lemma EVersionWriteTruncated(s: seq<byte>, v: int)
    requires |s| >= EhdrSize
    ensures StoreHeaderMember(s, "e_version", v).Ok?
    ensures HeaderMember(StoreHeaderMember(s, "e_version", v).value, "e_version") == Ok(v % 0x1_0000)
    ensures v == 0x1_0000 ==> HeaderMember(StoreHeaderMember(s, "e_version", v).value, "e_version") == Ok(0)
  {
    HeaderWriteThenRead(s, "e_version", v);
    Pow256Widths();
  }

  /** The file-header store with every member cast to its own width. */
  function StoreHeaderMemberAtWidth(s: seq<byte>, member: string, data: int): Result<seq<byte>> {
    match EhdrField(member)
    case None => Err(AttributeError)
    case Some(f) => StoreField(s, 0, f, data, f.width)
  }

  /** With the cast at the field's width, e_version keeps all 32 bits; every other member is stored as before. */
  lemma HeaderAtWidthRoundTrip(s: seq<byte>, member: string, data: int)
    requires EhdrField(member).Some? && |s| >= EhdrSize
    ensures StoreHeaderMemberAtWidth(s, member, data).Ok?
    ensures var f := EhdrField(member).value;
            HeaderMember(StoreHeaderMemberAtWidth(s, member, data).value, member) == Ok(ToLong(data % Pow256(f.width)))
    ensures member == "e_version" ==>
              HeaderMember(StoreHeaderMemberAtWidth(s, member, data).value, member) == Ok(data % 0x1_0000_0000)
    ensures member != "e_version" ==> StoreHeaderMemberAtWidth(s, member, data) == StoreHeaderMember(s, member, data)
  {
    var f := EhdrField(member).value;
    EhdrLayout(member, member);
    LoadAfterStore(s, 0, f, data, f.width);
    Pow256Widths();
  }

  /** A 256-byte image whose file header says e_shoff = 64, e_shentsize = 64, e_shnum = 2. */
  function TwoSectionImage(): (s: seq<byte>)
    ensures |s| == 256
  {
    var z := Zeros(256);
    var a := Splice(z, 40, EncodeLE(64, 8));
    var b := Splice(a, 58, EncodeLE(64, 2));
    Splice(b, 60, EncodeLE(2, 2))
  }

  /** The file-header fields of the example image. */
  lemma TwoSectionFields()
    ensures ReadLE(TwoSectionImage(), 40, 8) == 64
    ensures ReadLE(TwoSectionImage(), 58, 2) == 64
    ensures ReadLE(TwoSectionImage(), 60, 2) == 2
  {
    Pow256Widths();
    ExampleShoff();
    ExampleShentsize();
    ExampleShnum();
  }

  lemma ExampleShoff()
    ensures ReadLE(TwoSectionImage(), 40, 8) == 64 % Pow256(8)
  {
    var z := Zeros(256);
    var a := Splice(z, 40, EncodeLE(64, 8));
    var b := Splice(a, 58, EncodeLE(64, 2));
    ReadAfterStore(z, 40, 64, 8);
    ReadBesideStore(a, 58, EncodeLE(64, 2), 40, 8);
    ReadBesideStore(b, 60, EncodeLE(2, 2), 40, 8);
  }

  lemma ExampleShentsize()
    ensures ReadLE(TwoSectionImage(), 58, 2) == 64 % Pow256(2)
  {
    var z := Zeros(256);
    var a := Splice(z, 40, EncodeLE(64, 8));
    var b := Splice(a, 58, EncodeLE(64, 2));
    ReadAfterStore(a, 58, 64, 2);
    ReadBesideStore(b, 60, EncodeLE(2, 2), 58, 2);
  }

  lemma ExampleShnum()
    ensures ReadLE(TwoSectionImage(), 60, 2) == 2 % Pow256(2)
  {
    var z := Zeros(256);
    var a := Splice(z, 40, EncodeLE(64, 8));
    var b := Splice(a, 58, EncodeLE(64, 2));
    ReadAfterStore(b, 60, 2, 2);
  }

  /**
   * In a file with e_shoff = 64, e_shentsize = 64 and e_shnum = 2, section header 1
   * is at byte 128 and its sh_size is the 8 bytes [160, 168); index 2, equal to
   * e_shnum, is accepted all the same when its record lies in the file.
   */
  lemma SectionOffsetExample()
    ensures SectionBase(TwoSectionImage(), 1) == Ok(128)
    ensures SectionMember(TwoSectionImage(), "sh_size", 1) == Ok(ToLong(ReadLE(TwoSectionImage(), 160, 8)))
    ensures ReadLE(TwoSectionImage(), 60, 2) == 2
    ensures SectionMember(TwoSectionImage(), "sh_type", 2).Ok?
  {
    var s := TwoSectionImage();
    TwoSectionFields();
    assert SectionBase(s, 1) == Ok(128);
    assert SectionBase(s, 2) == Ok(192);
    assert SectionMember(s, "sh_size", 1) == LoadLong(s, 128, ShdrField("sh_size").value);
    assert SectionMember(s, "sh_type", 2) == LoadLong(s, 192, ShdrField("sh_type").value);
  }

  /** Section header `index` read with the bound on e_shnum that the source does not check. */
  function CheckedSectionMember(s: seq<byte>, member: string, index: nat): (r: Result<int>)
    ensures r.Ok? ==> |s| >= 62 && index < ReadLE(s, 60, 2) && r == SectionMember(s, member, index)
    ensures |s| >= 62 && index >= ReadLE(s, 60, 2) ==> r == Err(IndexError)
  {
    if |s| < 62 then Err(OutOfFile)
    else if index >= ReadLE(s, 60, 2) then Err(IndexError)
    else SectionMember(s, member, index)
  }

  /** The section header table's offset and entry size lie in the file header, outside any store at or past byte 64. */
  lemma SectionBaseKept(s: seq<byte>, index: nat, at: nat, d: seq<byte>)
    requires |s| >= EhdrSize && at >= EhdrSize && at + |d| <= |s|
    ensures SectionBase(Splice(s, at, d), index) == SectionBase(s, index)
    ensures ProgramBase(Splice(s, at, d), index) == ProgramBase(s, index)
  {
    ReadBesideStore(s, at, d, 40, 8);
    ReadBesideStore(s, at, d, 58, 2);
    ReadBesideStore(s, at, d, 32, 8);
    ReadBesideStore(s, at, d, 54, 2);
  }

  /**
   * A stored section-header member reads back truncated to its width, when the
   * section header lies in the file after the file header.
   */
  lemma SectionWriteThenRead(s: seq<byte>, member: string, index: nat, data: int)
    requires ShdrField(member).Some? && SectionBase(s, index).Ok?
    requires EhdrSize <= SectionBase(s, index).value && SectionBase(s, index).value + ShdrSize <= |s|
    ensures StoreSectionMember(s, member, index, data).Ok?
    ensures var f := ShdrField(member).value;
            SectionMember(StoreSectionMember(s, member, index, data).value, member, index) == Ok(ToLong(data % Pow256(f.width)))
  {
    var f := ShdrField(member).value;
    var base := SectionBase(s, index).value;
    ShdrLayout(member, member);
    SectionBaseKept(s, index, base + f.offset, EncodeLE(data % Pow256(f.width), f.width));
    LoadAfterStore(s, base, f, data, f.width);
  }

  /** A section-header store is a store of `data` at e_shoff + index * e_shentsize + the member's offset. */
  lemma SectionStoreLocation(s: seq<byte>, member: string, index: nat, data: int)
    requires ShdrField(member).Some? && |s| >= 60
    ensures var f := ShdrField(member).value;
            var at := ReadLE(s, 40, 8) + index * ReadLE(s, 58, 2) + f.offset;
            StoreSectionMember(s, member, index, data) ==
              if at + f.width <= |s| then Ok(Splice(s, at, EncodeLE(data % Pow256(f.width), f.width))) else Err(OutOfFile)
  {
  }

  /** A stored program-header member reads back under the read's name for it. */
  lemma ProgramWriteThenRead(s: seq<byte>, member: string, index: nat, data: int)
    requires PhdrField(member).Some? && ProgramBase(s, index).Ok?
    requires EhdrSize <= ProgramBase(s, index).value && ProgramBase(s, index).value + PhdrSize <= |s|
    ensures StoreProgramMember(s, member, index, data).Ok?
    ensures var readName := if member == "p_align" then "sh_align" else member;
            var f := PhdrField(member).value;
            ProgramMember(StoreProgramMember(s, member, index, data).value, readName, index) == Ok(ToLong(data % Pow256(f.width)))
  {
    var f := PhdrField(member).value;
    var base := ProgramBase(s, index).value;
    PhdrLayout(member, member);
    SectionBaseKept(s, index, base + f.offset, EncodeLE(data % Pow256(f.width), f.width));
    LoadAfterStore(s, base, f, data, f.width);
  }

  /** p_align is written as "p_align" but can only be read as "sh_align"; reading "p_align" is an AttributeError. */
  lemma ProgramAlignNames(s: seq<byte>, index: nat, data: int)
    requires ProgramBase(s, index).Ok?
    ensures ProgramMember(s, "p_align", index) == Err(AttributeError)
    ensures StoreProgramMember(s, "sh_align", index, data) == Err(NoException)
    ensures ProgramBase(s, index).value + PhdrSize <= |s| ==>
              ProgramMember(s, "sh_align", index) == Ok(ToLong(ReadLE(s, ProgramBase(s, index).value + 48, 8)))
  {
  }

  /** The program-header read with p_align under its own name. */
  function CorrectedProgramMember(s: seq<byte>, member: string, index: nat): Result<int> {
    var base :- ProgramBase(s, index);
    match PhdrField(member)
    case None => Err(AttributeError)
    case Some(f) => LoadLong(s, base, f)
  }

  /** With the corrected read, every member written under a name reads back under the same name. */
  lemma CorrectedProgramRoundTrip(s: seq<byte>, member: string, index: nat, data: int)
    requires PhdrField(member).Some? && ProgramBase(s, index).Ok?
    requires EhdrSize <= ProgramBase(s, index).value && ProgramBase(s, index).value + PhdrSize <= |s|
    ensures StoreProgramMember(s, member, index, data).Ok?
    ensures var f := PhdrField(member).value;
            CorrectedProgramMember(StoreProgramMember(s, member, index, data).value, member, index) == Ok(ToLong(data % Pow256(f.width)))
  {
    var f := PhdrField(member).value;
    var base := ProgramBase(s, index).value;
    PhdrLayout(member, member);
    var s' := StoreField(s, base, f, data, f.width).value;
    assert StoreProgramMember(s, member, index, data) == Ok(s');
    SectionBaseKept(s, index, base + f.offset, EncodeLE(data % Pow256(f.width), f.width));
    assert ProgramBase(s', index) == Ok(base);
    LoadAfterStore(s, base, f, data, f.width);
    assert CorrectedProgramMember(s', member, index) == LoadLong(s', base, f);
  }

  /** sh_type of the section header `index`, when the section header lies in the file. */
  function SectionType(s: seq<byte>, index: nat): Option<nat> {
    match SectionBase(s, index)
    case Err(_) => None
    case Ok(base) => if base + ShdrSize <= |s| then Some(ReadLE(s, base + 4, 4)) else None
  }

  /**
   * The read guard rejects exactly the sections that are neither SHT_SYMTAB nor
   * SHT_DYNSYM; the write guard rejects every section that is not SHT_SYMTAB.
   */
  lemma SymbolTypeGuards(s: seq<byte>, member: string, index: nat, symnr: nat, data: int)
    requires SectionType(s, index).Some?
    ensures SymbolMember(s, member, index, symnr) == Err(TypeMismatch) <==> !IsSymbolTable(SectionType(s, index).value)
    ensures StoreSymbolMember(s, member, index, symnr, data) == Err(TypeMismatch) <==> SectionType(s, index).value != SHT_SYMTAB
  {
  }

  /** A SHT_DYNSYM section passes the read guard and fails the write guard. */
  lemma DynsymReadableNotWritable(s: seq<byte>, member: string, index: nat, symnr: nat, data: int)
    requires SectionType(s, index) == Some(SHT_DYNSYM as nat)
    ensures SymbolMember(s, member, index, symnr) != Err(TypeMismatch)
    ensures StoreSymbolMember(s, member, index, symnr, data) == Err(TypeMismatch)
  {
    SymbolTypeGuards(s, member, index, symnr, data);
  }

  /** The symbol store with the write guard the read uses. */
  function CorrectedStoreSymbolMember(s: seq<byte>, member: string, index: nat, symnr: nat, data: int): Result<seq<byte>> {
    var base :- SymbolBase(s, index, symnr, true);
    match SymField(member)
    case None => Err(AttributeError)
    case Some(f) => StoreField(s, base, f, data, f.width)
  }

  /** With the corrected guard, a symbol can be written exactly when it can be read past the type check. */
  lemma CorrectedSymbolGuardAgrees(s: seq<byte>, member: string, index: nat, symnr: nat, data: int)
    ensures CorrectedStoreSymbolMember(s, member, index, symnr, data) == Err(TypeMismatch)
            <==> SymbolMember(s, member, index, symnr) == Err(TypeMismatch)
    ensures SectionType(s, index).Some? && IsSymbolTable(SectionType(s, index).value) ==>
              CorrectedStoreSymbolMember(s, member, index, symnr, data) != Err(TypeMismatch)
  {
  }

  /** For a SHT_SYMTAB section both guards pass and locate the same symbol. */
  lemma SymtabGuardsAgree(s: seq<byte>, index: nat, symnr: nat)
    requires SectionType(s, index) == Some(SHT_SYMTAB as nat)
    ensures SymbolBase(s, index, symnr, true).Ok?
    ensures SymbolBase(s, index, symnr, true) == SymbolBase(s, index, symnr, false)
  {
    var sh := SectionBase(s, index).value;
    assert Load(s, sh, SH_TYPE) == Ok(SHT_SYMTAB as nat);
  }

  /** A store after the file header and outside section header `index` leaves the symbol location as it was. */
  lemma SymbolBaseKept(s: seq<byte>, index: nat, symnr: nat, passes: bool, at: nat, d: seq<byte>)
    requires SectionType(s, index).Some?
    requires var sh := SectionBase(s, index).value;
             |s| >= EhdrSize && EhdrSize <= at && at + |d| <= |s| && (at + |d| <= sh || sh + ShdrSize <= at)
    ensures SymbolBase(Splice(s, at, d), index, symnr, passes) == SymbolBase(s, index, symnr, passes)
  {
    var sh := SectionBase(s, index).value;
    var s' := Splice(s, at, d);
    SectionBaseKept(s, index, at, d);
    ReadBesideStore(s, at, d, sh + 4, 4);
    ReadBesideStore(s, at, d, sh + 24, 8);
    ReadBesideStore(s, at, d, sh + 56, 8);
    assert Load(s', sh, SH_TYPE) == Load(s, sh, SH_TYPE);
    assert Load(s', sh, SH_OFFSET) == Load(s, sh, SH_OFFSET);
    assert Load(s', sh, SH_ENTSIZE) == Load(s, sh, SH_ENTSIZE);
    SymbolBaseDetermined(s', s, index, symnr, passes);
  }

  /** The symbol location depends only on the section header's sh_type, sh_offset and sh_entsize. */
  lemma SymbolBaseDetermined(s: seq<byte>, t: seq<byte>, index: nat, symnr: nat, passes: bool)
    requires SectionBase(s, index) == SectionBase(t, index) && SectionBase(s, index).Ok?
    requires var sh := SectionBase(s, index).value;
             Load(s, sh, SH_TYPE) == Load(t, sh, SH_TYPE) && Load(s, sh, SH_OFFSET) == Load(t, sh, SH_OFFSET) &&
             Load(s, sh, SH_ENTSIZE) == Load(t, sh, SH_ENTSIZE)
    ensures SymbolBase(s, index, symnr, passes) == SymbolBase(t, index, symnr, passes)
  {
  }

  /**
   * A stored symbol member of a SHT_SYMTAB section reads back truncated to its
   * width, when the symbol lies after the file header and outside the section header.
   */
  lemma SymbolWriteThenRead(s: seq<byte>, member: string, index: nat, symnr: nat, data: int)
    requires SymField(member).Some? && SectionType(s, index) == Some(SHT_SYMTAB as nat)
    requires SymbolBase(s, index, symnr, false).Ok?
    requires var sh := SectionBase(s, index).value;
             var sym := SymbolBase(s, index, symnr, false).value;
             EhdrSize <= sh && EhdrSize <= sym && sym + SymSize <= |s| &&
             (sym + SymSize <= sh || sh + ShdrSize <= sym)
    ensures StoreSymbolMember(s, member, index, symnr, data).Ok?
    ensures var f := SymField(member).value;
            SymbolMember(StoreSymbolMember(s, member, index, symnr, data).value, member, index, symnr)
              == Ok(ToLong(data % Pow256(f.width)))
  {
    var f := SymField(member).value;
    var sym := SymbolBase(s, index, symnr, false).value;
    var enc := EncodeLE(data % Pow256(f.width), f.width);
    SymLayout(member, member);
    var s' := Splice(s, sym + f.offset, enc);
    assert StoreSymbolMember(s, member, index, symnr, data) == Ok(s');
    SymtabGuardsAgree(s, index, symnr);
    SymbolBaseKept(s, index, symnr, true, sym + f.offset, enc);
    LoadAfterStore(s, sym, f, data, f.width);
    assert SymbolMember(s', member, index, symnr) == LoadLong(s', sym, f);
  }
}
