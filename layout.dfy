/**
 * The ELF64 record layouts of the System V ABI (generic ABI, chapter 4
 * "Object Files" for Elf64_Ehdr, Elf64_Shdr and Elf64_Sym, chapter 5
 * "Program Loading and Dynamic Linking" for Elf64_Phdr), as the member-name
 * dispatch of the C handlers sees them: each accepted name maps to the byte
 * offset and width of its field inside the record.
 */
module Layout {
  import opened Outcomes

  datatype Field = Field(offset: nat, width: nat)

  const EI_NIDENT: nat := 16
  const EhdrSize: nat := 64
  const ShdrSize: nat := 64
  const PhdrSize: nat := 56
  const SymSize: nat := 24

  const SHT_SYMTAB: int := 2
  const SHT_DYNSYM: int := 11

  /** The fields of the file header offsets and counts are read from. */
  const E_PHOFF := Field(32, 8)
  const E_SHOFF := Field(40, 8)
  const E_PHENTSIZE := Field(54, 2)
  const E_SHENTSIZE := Field(58, 2)
  const SH_TYPE := Field(4, 4)
  const SH_OFFSET := Field(24, 8)
  const SH_ENTSIZE := Field(56, 8)

  predicate Disjoint(f: Field, g: Field) {
    f.offset + f.width <= g.offset || g.offset + g.width <= f.offset
  }

  predicate Within(f: Field, size: nat) {
    f.offset + f.width <= size
  }

  /** Elf64_Ehdr members after e_ident, by the names read_elf_header and write_elf_header accept. */
  function EhdrField(name: string): Option<Field> {
    if name == "e_type" then Some(Field(16, 2))
    else if name == "e_machine" then Some(Field(18, 2))
    else if name == "e_version" then Some(Field(20, 4))
    else if name == "e_entry" then Some(Field(24, 8))
    else if name == "e_phoff" then Some(E_PHOFF)
    else if name == "e_shoff" then Some(E_SHOFF)
    else if name == "e_flags" then Some(Field(48, 4))
    else if name == "e_ehsize" then Some(Field(52, 2))
    else if name == "e_phentsize" then Some(E_PHENTSIZE)
    else if name == "e_phnum" then Some(Field(56, 2))
    else if name == "e_shentsize" then Some(E_SHENTSIZE)
    else if name == "e_shnum" then Some(Field(60, 2))
    else if name == "e_shstrndx" then Some(Field(62, 2))
    else None
  }

  /**
   * The width in bytes of the C cast write_elf_header applies before the
   * store: the field's own width, except that e_version (4 bytes) goes
   * through `(uint16_t)`.
   */
  function EhdrCastWidth(name: string, f: Field): nat {
    if name == "e_version" then 2 else f.width
  }

  /** Elf64_Shdr members, by the names read_section_header and write_section_header accept. */
  function ShdrField(name: string): Option<Field> {
    if name == "sh_name" then Some(Field(0, 4))
    else if name == "sh_type" then Some(SH_TYPE)
    else if name == "sh_flags" then Some(Field(8, 8))
    else if name == "sh_addr" then Some(Field(16, 8))
    else if name == "sh_offset" then Some(SH_OFFSET)
    else if name == "sh_size" then Some(Field(32, 8))
    else if name == "sh_link" then Some(Field(40, 4))
    else if name == "sh_info" then Some(Field(44, 4))
    else if name == "sh_addralign" then Some(Field(48, 8))
    else if name == "sh_entsize" then Some(SH_ENTSIZE)
    else None
  }

  /** Elf64_Phdr members, by the names write_program_header accepts. */
  function PhdrField(name: string): Option<Field> {
    if name == "p_type" then Some(Field(0, 4))
    else if name == "p_flags" then Some(Field(4, 4))
    else if name == "p_offset" then Some(Field(8, 8))
    else if name == "p_vaddr" then Some(Field(16, 8))
    else if name == "p_paddr" then Some(Field(24, 8))
    else if name == "p_filesz" then Some(Field(32, 8))
    else if name == "p_memsz" then Some(Field(40, 8))
    else if name == "p_align" then Some(Field(48, 8))
    else None
  }

  /**
   * The names read_program_header accepts: p_align is compared against the
   * string "sh_align", so "p_align" itself is unknown to the read.
   */
  function PhdrReadField(name: string): Option<Field> {
    if name == "sh_align" then PhdrField("p_align")
    else if name == "p_align" then None
    else PhdrField(name)
  }

  /** Elf64_Sym members, by the names read_elf_symbol and write_elf_symbol accept. */
  function SymField(name: string): Option<Field> {
    if name == "st_name" then Some(Field(0, 4))
    else if name == "st_info" then Some(Field(4, 1))
    else if name == "st_other" then Some(Field(5, 1))
    else if name == "st_shndx" then Some(Field(6, 2))
    else if name == "st_value" then Some(Field(8, 8))
    else if name == "st_size" then Some(Field(16, 8))
    else None
  }

  predicate IsSymbolTable(shType: int) {
    shType == SHT_SYMTAB || shType == SHT_DYNSYM
  }

  /** The fields read_program_header gives for the names the injector reads back. */
  lemma PhdrReadNames()
    ensures PhdrReadField("p_type") == Some(Field(0, 4)) && PhdrReadField("p_flags") == Some(Field(4, 4))
    ensures PhdrReadField("p_offset") == Some(Field(8, 8)) && PhdrReadField("p_vaddr") == Some(Field(16, 8))
    ensures PhdrReadField("p_filesz") == Some(Field(32, 8)) && PhdrReadField("p_memsz") == Some(Field(40, 8))
    ensures PhdrReadField("sh_align") == Some(Field(48, 8))
  {
  }

  /** Every file-header member lies inside the 64-byte header, after e_ident, and no two overlap. */
  lemma EhdrLayout(n: string, m: string)
    ensures EhdrField(n).Some? ==>
              EI_NIDENT <= EhdrField(n).value.offset && Within(EhdrField(n).value, EhdrSize)
              && EhdrField(n).value.width in {2, 4, 8}
    ensures EhdrField(n).Some? && EhdrField(m).Some? && n != m ==>
              Disjoint(EhdrField(n).value, EhdrField(m).value)
  {
  }

  /** Every section-header member lies inside the 64-byte record, and no two overlap. */
  lemma ShdrLayout(n: string, m: string)
    ensures ShdrField(n).Some? ==> Within(ShdrField(n).value, ShdrSize) && ShdrField(n).value.width in {4, 8}
    ensures ShdrField(n).Some? && ShdrField(m).Some? && n != m ==>
              Disjoint(ShdrField(n).value, ShdrField(m).value)
  {
  }

  /** Every program-header member lies inside the 56-byte record, and no two overlap. */
  lemma PhdrLayout(n: string, m: string)
    ensures PhdrField(n).Some? ==> Within(PhdrField(n).value, PhdrSize) && PhdrField(n).value.width in {4, 8}
    ensures PhdrField(n).Some? && PhdrField(m).Some? && n != m ==>
              Disjoint(PhdrField(n).value, PhdrField(m).value)
    ensures PhdrReadField(n).Some? ==> Within(PhdrReadField(n).value, PhdrSize)
  {
  }

  /** Every symbol member lies inside the 24-byte record, and no two overlap. */
  lemma SymLayout(n: string, m: string)
    ensures SymField(n).Some? ==> Within(SymField(n).value, SymSize) && SymField(n).value.width in {1, 2, 4, 8}
    ensures SymField(n).Some? && SymField(m).Some? && n != m ==>
              Disjoint(SymField(n).value, SymField(m).value)
  {
  }
}
