# ELF64 structural editor, /proc maps parser and PT_NOTE injector

This project models composer, a small toolkit that edits ELF64 executables one field at a time and reads a process's memory map. It models three parts.

- **The field accessors.** There are two C implementations:
  - elf/elf_handler.c maps the whole file and stores into the mapping;
  - elf_handler.c (with its draft elf_handler.h) reads a record into a buffer, changes it and writes it back.

  Each one locates a record from the file header:
  - section header *i* at `e_shoff + i*e_shentsize`;
  - program header *i* at `e_phoff + i*e_phentsize`;
  - symbol *n* of a section at `sh_offset + n*sh_entsize`.

  It then reads or stores one named member through a fixed (offset, width) table. A stored value is cut to the member's C cast.
- **The Python layers.** composer/elf/elflib.py sits on the mapped accessors and elf.py sits on the stdio ones.
  - They check attribute access against member-name sets.
  - They cache assigned values on the instance.
  - They guard symbol access by section type and count a section's symbols.
  - They check the ELF magic, insert and overwrite byte blocks, and read NUL-terminated strings from string tables.
- **Two small programs on top.**
  - The `/proc/<pid>/maps` parser, in composer/process/process_interface.py and its earlier copy process/proc_parser.py. It collapses runs of spaces, splits each line into at most six fields and parses hexadecimal.
  - injector.py, the PT_NOTE overwriting trick. It turns the last PT_NOTE program header into a loadable executable segment for code appended to the file, and points the entry point at that code.

**How the model represents files.**
- A file is a `seq<byte>` with an `Access` (may it be opened for reading or for writing).
- The C mapping is an `array<byte>`.
- The stdio file is a `DiskFile` object whose `contents` the methods reassign.
- Integers are little-endian, as on x86-64. The layouts are those of the System V generic ABI: chapter 4 ("Object Files") for Elf64_Ehdr, Elf64_Shdr and Elf64_Sym, and chapter 5 ("Program Loading and Dynamic Linking") for Elf64_Phdr.

**How functions relate to methods.** Each C or Python routine that changes state is a method. It is proved against a function over the bytes, usually named `…Spec` or `Store…`. Lemmas then relate those functions:
- write-then-read round trips modulo the field width;
- frames ("no other byte changes");
- agreement between the mapped and the stdio implementations;
- the shift done by an insert;
- the order in which errors are checked.

Errors are the `Outcomes.Error` kinds:
- Python exceptions (`IOError`, which is OSError and covers a refused open or seek, `AttributeError`, `IndexError`, `ValueError`, `AssertionError`);
- a C function that returns NULL with no exception set (`NoException`);
- `OutOfFile`: a mapped access to a member that does not lie wholly inside the file's bytes. In C that access reads zeros, or loses a store, while it stays inside the mapping's last page, and is undefined past it; the model does not tell the two apart (see "## Left out");
- behaviour that C leaves undefined (`NullDeref`, `OutOfBuffer`);
- a loop that never ends (`Diverges`).

Where the stdio accessor and the mapped accessor differ, the model follows each one's own code. One example: the stdio section reader dereferences the header of an unreadable file, which the mapped one never does.

## Model

| member | source | states |
|---|---|---|
| Bytes.DecodeEncode | elf/elf_handler.c:163-188 | the bytes a C store of width w leaves read back as the value modulo 2^(8w), also for negative values |
| Bytes.EncodeDecode | elf/elf_handler.c:110-135 | re-encoding a field's value at its width gives the field's bytes back |
| Bytes.ToLong | elf/elf_handler.c:143 | the `long` handed to PyLong_FromLong has the same low 64 bits as the field and lies in the signed 64-bit range, equal to the field below 2^63 |
| Bytes.Overlay | elf_handler.c:66-79 | a write of `d` at `off` puts `d` there, keeps every other byte, zero-fills a gap past the old end and grows the file only as far as `d` reaches |
| Bytes.ReadAfterStore | elf/elf_handler.c:163-188 | a field read right after a store into it yields the stored value truncated to the field |
| Bytes.ReadBesideStore | elf/elf_handler.c:163-188 | a store leaves every field it does not overlap as it was |
| Layout.EhdrLayout | elf/elf_handler.c:163-188 | every file-header member the dispatch names lies inside the 64-byte header after e_ident, is 2, 4 or 8 bytes wide, and no two members overlap |
| Layout.ShdrLayout | elf/elf_handler.c:278-297 | every section-header member lies inside the 64-byte record, and no two overlap |
| Layout.PhdrLayout | elf/elf_handler.c:382-397 | every program-header member lies inside the 56-byte record, and no two overlap; so does every name the read accepts |
| Layout.SymLayout | elf/elf_handler.c:492-503 | every symbol member lies inside the 24-byte record, and no two overlap |
| Files.Window | elf_handler.c:24-29 | the buffer read_n_at returns has exactly `length` bytes: the file's bytes from `at`, zero past the end |
| Files.Available | elf_handler.c:29 | a short read stops only at the end of the file, and never reads past it |
| Files.DiskFile.constructor | elf_handler.c:27 | a file is its bytes and the access the process has to it |
| Files.ReadInto | elf_handler.c:29 | fread fills the front of the buffer with the available bytes and leaves the rest of the buffer as it was |
| Files.WriteAt | elf_handler.c:73 | the file after a seek and a write is `Overlay` of the old file |
| MappedHandler.Load | elf/elf_handler.c:110-135 | a field can be read exactly when it lies inside the file's bytes, and then reads as their little-endian value |
| MappedHandler.StoreField | elf/elf_handler.c:163-188 | a store succeeds exactly when the field lies inside the file's bytes |
| MappedHandler.LoadAfterStore | elf/elf_handler.c:163-188 | a field read after a store yields the value truncated to the cast, when the cast is no wider than the field |
| MappedHandler.LoadBesideStore | elf/elf_handler.c:163-188 | a struct-member store changes no field it does not overlap, in any record |
| MappedHandler.SectionBase | elf/elf_handler.c:222 | section header `index` starts at e_shoff + index*e_shentsize, read from bytes 40 and 58, with no check against e_shnum; it fails only when the file's bytes end before those two fields do |
| MappedHandler.ProgramBase | elf/elf_handler.c:330 | program header `index` starts at e_phoff + index*e_phentsize, read from bytes 32 and 54, with no check against e_phnum |
| MappedHandler.SymbolBase | elf/elf_handler.c:429-436 | a symbol is at sh_offset + sh_entsize*symnr; OSError exactly when sh_type is neither SHT_SYMTAB nor, where the guard admits it, SHT_DYNSYM |
| MappedHandler.StoreIdent | elf/elf_handler.c:90 | memcpy puts the first 16 bytes of the caller's bytearray into e_ident and leaves the rest of the file as it was; a shorter bytearray is a read past its end |
| MappedHandler.Store | elf/elf_handler.c:164 | a struct-member store writes the encoded bytes at their place in the mapping and changes nothing else |
| MappedHandler.WriteElfHeaderEIdent | elf/elf_handler.c:77-96 | write_elf_header_e_ident fails with OSError when the file cannot be mapped, and otherwise changes the mapping as StoreIdent says, or not at all when it fails |
| MappedHandler.WriteElfHeader | elf/elf_handler.c:151-203 | write_elf_header changes the mapping exactly as StoreHeaderMember says, and leaves it unchanged on every failure |
| MappedHandler.WriteSectionHeader | elf/elf_handler.c:259-311 | write_section_header stores into the record at SectionBase, or fails with the mapping unchanged |
| MappedHandler.WriteProgramHeader | elf/elf_handler.c:363-409 | write_program_header stores into the record at ProgramBase; an unknown name returns NULL with no exception, the mapping unchanged |
| MappedHandler.WriteElfSymbol | elf/elf_handler.c:465-517 | write_elf_symbol stores into the symbol behind the write guard, or fails with the mapping unchanged |
| MappedHandler.HeaderWriteThenRead | elf/elf_handler.c:163-188 | a stored file-header member reads back as the value cut to its C cast, as a `long` |
| MappedHandler.HeaderWriteFrame | elf/elf_handler.c:163-188 | a file-header store keeps the file length, changes no byte outside the member's field, and leaves every other member's value as it was |
| MappedHandler.HeaderUnknownMember | elf/elf_handler.c:136-139 | an unknown name makes the read and the write fail with AttributeError; the write changes nothing |
| MappedHandler.EVersionWriteTruncated | elf/elf_handler.c:167-168 | storing v into e_version keeps v mod 2^16; storing 0x10000 reads back as 0 |
| MappedHandler.HeaderAtWidthRoundTrip | elf/elf_handler.c:163-188 | with every cast at its field's own width, e_version keeps v mod 2^32; every other member is stored as the source stores it |
| MappedHandler.TwoSectionFields | elf/elf_handler.c:222 | the example image's file header says e_shoff = 64, e_shentsize = 64 and e_shnum = 2 |
| MappedHandler.SectionOffsetExample | elf/elf_handler.c:222 | with e_shoff = 64 and e_shentsize = 64, section 1 is at byte 128 and its sh_size is bytes 160-168; index 2 = e_shnum is read all the same |
| MappedHandler.CheckedSectionMember | elf/elf_handler.c:205-257 | the read with an index bound: it succeeds only below e_shnum, where it equals the source's read, and gives IndexError at or past e_shnum |
| MappedHandler.SectionBaseKept | elf/elf_handler.c:222 | a store at or past byte 64 does not move the section or program header tables |
| MappedHandler.SectionWriteThenRead | elf/elf_handler.c:276-297 | a stored section-header member reads back truncated to its width |
| MappedHandler.ProgramWriteThenRead | elf/elf_handler.c:330-397 | a stored program-header member reads back under the name the read gives it, "sh_align" for p_align |
| MappedHandler.ProgramAlignNames | elf/elf_handler.c:346-347 | reading "p_align" is an AttributeError, writing "sh_align" returns NULL with no exception, and reading "sh_align" gives the p_align field |
| MappedHandler.CorrectedProgramRoundTrip | elf/elf_handler.c:346-347 | with the read accepting "p_align", every program-header member written under a name reads back under that same name |
| MappedHandler.SymbolTypeGuards | elf/elf_handler.c:431-434 | the read rejects exactly the sections that are neither SHT_SYMTAB nor SHT_DYNSYM; the write rejects every section that is not SHT_SYMTAB |
| MappedHandler.DynsymReadableNotWritable | elf/elf_handler.c:485-488 | a SHT_DYNSYM section passes the read guard and fails the write guard |
| MappedHandler.CorrectedSymbolGuardAgrees | elf/elf_handler.c:485-488 | with the read's guard on the write, a symbol fails the write's type check exactly when it fails the read's |
| MappedHandler.SymtabGuardsAgree | elf/elf_handler.c:436 | for a SHT_SYMTAB section both guards pass and locate the same symbol |
| MappedHandler.SymbolBaseKept | elf/elf_handler.c:490 | a store outside the file header and outside the section header does not move a symbol |
| MappedHandler.SymbolWriteThenRead | elf/elf_handler.c:490-503 | a stored symbol member of a SHT_SYMTAB section reads back truncated to its width |
| StdioHandler.ShdrDataSpec | elf_handler.c:81-92 | get_shdr_data crashes exactly on an unreadable file; a record it returns is the 64 bytes at the section-header offset, zero-filled past the end |
| StdioHandler.PhdrDataSpec | elf_handler.c:110-125 | a record get_phdr_data returns is the 56 bytes at a non-negative program-header offset of a readable file |
| StdioHandler.ReadNAt | elf_handler.c:18-39 | read_n_at returns NULL exactly when the file cannot be opened or the position is negative; otherwise it returns a fresh buffer holding the zero-filled window |
| StdioHandler.GetEhdrData | elf_handler.c:41-49 | the header copy is the first 64 bytes of the file, zero-filled; NULL exactly when the file cannot be read |
| StdioHandler.GetShdrOffset | elf_handler.c:51-61 | the offset is e_shoff + e_shentsize*index as a `long`, from the header copy; an unreadable file is a NULL dereference |
| StdioHandler.GetPhdrOffset | elf_handler.c:94-108 | the offset is e_phoff + e_phentsize*index as a `long`, or -1 when the header cannot be read |
| StdioHandler.WriteToFile | elf_handler.c:66-79 | write_to_file returns the byte count and writes `data` at `offset`, or returns -1 and changes nothing when the seek fails |
| StdioHandler.GetShdrData | elf_handler.c:81-92 | the record buffer is the one ShdrDataSpec describes: NULL where it is None, and a NULL dereference on an unreadable file |
| StdioHandler.GetPhdrData | elf_handler.c:110-125 | the record buffer is the one PhdrDataSpec describes, NULL when the offset is -1 |
| StdioHandler.ReadElfHeader | elf_handler.c:127-178 | read_elf_header is an IOError on an unreadable file, and otherwise reads the member from the header copy |
| StdioHandler.WriteElfHeader | elf_handler.c:180-249 | write_elf_header changes the file as WriteElfHeaderSpec says and leaves it unchanged on every failure |
| StdioHandler.ReadSectionHeader | elf_handler.c:251-301 | read_section_header reads the member from the record copy, or fails as ReadSectionHeaderSpec says |
| StdioHandler.WriteSectionHeader | elf_handler.c:378-430 | write_section_header writes back the changed record, or fails with the file unchanged |
| StdioHandler.ReadProgramHeader | elf_handler.c:432-469 | read_program_header checks the name before it dereferences the record |
| StdioHandler.WriteProgramHeader | elf_handler.c:472-515 | write_program_header writes back the changed record, or fails with the file unchanged |
| StdioHandler.InsertBytes | elf_handler.c:303-376 | insert_bytes changes the file as InsertBytesSpec says, and leaves it unchanged on every failure |
| StdioHandler.LoadSlice | elf_handler.c:24-29 | a field of a record copy reads as the same field of the file |
| StdioHandler.OverlayRecord | elf_handler.c:229-230 | writing back a record copy with one member changed is a store of that member into the file |
| StdioHandler.WindowAfterOverlay | elf_handler.c:229-230 | after the header is written at offset 0, the next header copy is what was written |
| StdioHandler.HeaderCopy | elf_handler.c:41-49 | on a file of at least 64 bytes, the header copy is the first 64 bytes, and its offset and size fields are the file's |
| StdioHandler.OffsetsAgree | elf_handler.c:57 | while the sums fit a `long`, the stdio offsets equal the record bases of the mapped accessors (also elf_handler.c:100) |
| StdioHandler.ReadElfHeaderAgrees | elf_handler.c:127-178 | on a readable file holding a whole header, read_elf_header returns what the mapped accessor returns |
| StdioHandler.WriteElfHeaderAgrees | elf_handler.c:229-230 | rewriting the whole 64-byte header changes the file exactly as the mapped single-member store does |
| StdioHandler.WriteElfHeaderRoundTrip | elf_handler.c:180-249 | a stored member reads back cut to its cast, every other member reads as before, and a file shorter than a header grows to 64 bytes |
| StdioHandler.WriteElfHeaderUnknownFirst | elf_handler.c:219-224 | an unknown member is an AttributeError reported before the file is opened for writing, so a read-only file gives AttributeError and not IOError |
| StdioHandler.SectionHeaderUnreadable | elf_handler.c:51-61 | on an unreadable file the section-header read and write dereference NULL |
| StdioHandler.ReadSectionHeaderAgrees | elf_handler.c:251-301 | read_section_header returns what the mapped accessor returns, for a record inside the file |
| StdioHandler.WriteSectionHeaderAgrees | elf_handler.c:414-421 | rewriting the whole 64-byte record at get_shdr_offset is the mapped single-member store |
| StdioHandler.SectionHeaderRoundTrip | elf_handler.c:378-430 | a stored section-header member reads back truncated to its width |
| StdioHandler.WriteSectionHeaderReadOnly | elf_handler.c:418-426 | the unchecked open(2) and write(2) mean a file that cannot be written is left as it was, while the call reports success |
| StdioHandler.ReadProgramHeaderAgrees | elf_handler.c:432-469 | read_program_header returns what the mapped accessor returns |
| StdioHandler.WriteProgramHeaderAgrees | elf_handler.c:506-510 | rewriting the whole 56-byte record is the mapped single-member store |
| StdioHandler.ProgramHeaderRoundTrip | elf_handler.c:460-501 | a stored program-header member reads back, p_align under the name "sh_align" |
| StdioHandler.ProgramHeaderUnreadable | elf_handler.c:444-463 | on an unreadable file a known member dereferences NULL, and an unknown one returns NULL with no exception |
| StdioHandler.InsertShiftsTail | elf_handler.c:335-356 | insert mode leaves the prefix before `offset`, then `data`, then the old tail: the file grows by len(data) |
| StdioHandler.OverwriteInPlace | elf_handler.c:357-362 | overwrite mode puts `data` at `offset`, keeps every other byte, and the length becomes max(L, offset+len(data)) |
| StdioHandler.InsertPastEnd | elf_handler.c:330-333 | an offset past the end is an IndexError, and the file is not written |
| DraftHandler.DraftRead | elf_handler.h:16-18 | read(2) into a malloc'd buffer: the bytes the file has there, then whatever the allocation held |
| DraftHandler.AllocAndRead | elf_handler.h:58-61 | the buffer after malloc and read(2) is DraftRead, also when the descriptor is -1 |
| DraftHandler.GetEhdrData | elf_handler.h:10-22 | the draft header copy is the 64 bytes at 0 over uninitialised memory |
| DraftHandler.GetShdrOffset | elf_handler.h:25-34 | the draft section-header offset is e_shoff + e_shentsize*index from that copy |
| DraftHandler.GetPhdrOffset | elf_handler.h:68-77 | the draft program-header offset is e_phoff + e_phentsize*index from that copy |
| DraftHandler.GetShdrData | elf_handler.h:49-65 | the draft section record is 64 bytes read at the offset; a failed lseek leaves the read at position 0 |
| DraftHandler.GetPhdrData | elf_handler.h:85-91 | the draft program-header buffer is sizeof(Elf64_Shdr) = 64 bytes read at the offset |
| DraftHandler.CorrectedGetPhdrData | elf_handler.h:85-91 | the corrected draft reads the record's own 56 bytes |
| DraftHandler.WriteToFile | elf_handler.h:42-46 | write_to_file returns the seek's result (0 or -1), not the byte count; after a failed seek the bytes go to the current position |
| DraftHandler.DraftReadCovered | elf_handler.h:58-61 | a read the file covers leaves no uninitialised byte in the buffer |
| DraftHandler.DraftOffsetsAgree | elf_handler.h:25-34 | on a readable file with a whole header, the draft offsets are those of elf_handler.c, whatever malloc returned (also elf_handler.h:68-77) |
| DraftHandler.DraftPhdrOverRead | elf_handler.h:85-91 | the draft program-header buffer is the 56-byte record followed by the 8 bytes after it |
| DraftHandler.CorrectedPhdrMatchesStdio | elf_handler.h:85-91 | the corrected draft reads exactly the record elf_handler.c's get_phdr_data reads |
| Attributes.EHeaderMemberCount | elf.py:10-15 | the file-header set has 13 distinct names; e_phnum is listed twice |
| Attributes.MemberSetsMatchLayout | composer/elf/elflib.py:15-35 | each Python member set names exactly the fields of the C dispatch, except that SYMBOL_MEMBERS lacks st_info |
| Attributes.AlignMemberUnreadable | composer/elf/elflib.py:28-31 | p_align is a member name that the C read does not know, and "sh_align" is not a member name |
| Attributes.ReadAfterSet | composer/elf/elflib.py:168-172 | after a successful assignment, reading the attribute gives the assigned value, whatever the file holds |
| Attributes.NonMemberStaysOffFile | composer/elf/elflib.py:161-172 | a name outside `_members` never reaches the file: reading an unassigned one is an AttributeError, and assigning one leaves the file as it was |
| Attributes.FailedSetCachesNothing | composer/elf/elflib.py:168-172 | an assignment the file rejects raises, and the instance keeps no value for it |
| ElfLib.MapFile | elf/elf_handler.c:21-58 | map_file fails with OSError when the open mode is refused and returns NULL with no exception for an empty file; otherwise the mapping holds the file's bytes |
| ElfLib.Read | composer/elf/elflib.py:196-197 | `_read` maps the file read-only and returns what the mapped read of the structure's record gives |
| ElfLib.Write | composer/elf/elflib.py:199-200 | `_write` maps the file read-write and changes it as the mapped store says, or not at all |
| ElfLib.Structure.constructor | composer/elf/elflib.py:158-159 | a new structure names its file and record and has no assigned attributes |
| ElfLib.Structure.GetAttr | composer/elf/elflib.py:161-166 | an assigned value shadows the file; other member names are read from the file; any other name is an AttributeError |
| ElfLib.Structure.SetAttr | composer/elf/elflib.py:168-172 | a member name is first written to the file, then cached; a failed write raises and caches nothing; a non-member is cached only |
| ElfLib.PyIndex | composer/elf/elflib.py:140 | a Python index is valid exactly in -n..n-1, and a negative one counts from the end |
| ElfLib.EIdent.constructor | composer/elf/elflib.py:136-137 | an EIdent names its file |
| ElfLib.EIdent.Get | composer/elf/elflib.py:139-140 | one byte of e_ident, read through a fresh mapping, with Python indexing |
| ElfLib.EIdent.Set | composer/elf/elflib.py:142-145 | the read-modify-write of e_ident changes the file as IdentSetSpec says, or not at all |
| ElfLib.ReadAtSpec | composer/elf/elflib.py:119-130 | read_at returns the bytes from `offset`, `length` of them or up to the end; a negative offset makes the binary seek raise OSError (`IOError`) |
| ElfLib.NegativeSeekRaises | composer/elf/elflib.py:94-130 | read_at, raw_bytes, read_stringtable, overwrite_at and insert_at seek a binary file without a check of their own, so a negative position raises OSError; raw_bytes raises before reading the size attribute |
| ElfLib.NewStructures | composer/elf/elflib.py:62-63 | n fresh instances with indices 0..n-1 and nothing assigned |
| ElfLib.ElfFile.constructor | composer/elf/elflib.py:45-46 | an ELFFile names its file |
| ElfLib.ElfFile.Open | composer/elf/elflib.py:45-52 | construction raises exactly as OpenCheck says, and otherwise gives an ELFFile for the file |
| ElfLib.ElfFile.Header | composer/elf/elflib.py:54-57 | every access builds a fresh ELFHeader with nothing cached |
| ElfLib.ElfFile.SectionHeaders | composer/elf/elflib.py:59-63 | exactly e_shnum section headers with indices 0..e_shnum-1, or the error of reading e_shnum |
| ElfLib.ElfFile.ProgramHeaders | composer/elf/elflib.py:77-81 | exactly e_phnum program headers with indices 0..e_phnum-1, or the error of reading e_phnum |
| ElfLib.ElfFile.Sections | composer/elf/elflib.py:65-69 | exactly e_shnum sections with indices 0..e_shnum-1 |
| ElfLib.ElfFile.Segments | composer/elf/elflib.py:71-75 | exactly e_phnum segments with indices 0..e_phnum-1 |
| ElfLib.ElfFile.InsertAt | composer/elf/elflib.py:83-98 | insert_at as written: the "wb+" open empties the file before the tail is read, and a negative offset raises OSError at the seek after that |
| ElfLib.ElfFile.OverwriteAt | composer/elf/elflib.py:100-112 | overwrite_at puts `data` at `offset` of a file opened "r+b", or fails with the file unchanged; a negative offset is OSError from the seek |
| ElfLib.Section.constructor | composer/elf/elflib.py:268-271 | a section holds a fresh SectionHeader for its index |
| ElfLib.Section.Symbols | composer/elf/elflib.py:278-294 | IOError unless sh_type is SHT_SYMTAB or SHT_DYNSYM; otherwise one Symbol per element of range(0, sh_size, sh_entsize), indexed from 0 |
| ElfLib.Section.RawBytes | composer/elf/elflib.py:296-302 | the sh_size bytes at sh_offset; the file is opened, sh_offset is read and sought to (OSError when negative), and only then is sh_size read |
| ElfLib.Segment.constructor | composer/elf/elflib.py:310-313 | a segment holds a fresh ProgramHeader for its index |
| ElfLib.Segment.RawBytes | composer/elf/elflib.py:325-331 | the p_filesz bytes at p_offset; the file is opened, p_offset is read and sought to (OSError when negative), and only then is p_filesz read |
| ElfLib.StringAt | composer/elf/elflib.py:382-391 | the string read at `at` is the bytes up to, and not including, the first NUL, none of them NUL; without a NUL before the end the loop never ends |
| ElfLib.ReadStringTable | composer/elf/elflib.py:369-391 | the while loop collects exactly StringAt at table_offset+str_offset; a negative sum is OSError from the seek, an unreadable file OSError from the open |
| ElfLib.StringAtUnique | composer/elf/elflib.py:387-389 | a NUL n bytes after `at`, with none before it, fixes the string read at `at` |
| ElfLib.CorrectedStringAt | composer/elf/elflib.py:387-389 | the loop stopping at the end of the file agrees with StringAt wherever that ends, and returns the rest of the file otherwise |
| ElfLib.ReadShstrtab | composer/elf/elflib.py:343-347 | the string is read from the sh_offset of section e_shstrndx; an sh_offset of 2^63 or more reads as a negative long, and the seek then raises OSError |
| ElfLib.ShstrndxValue | composer/elf/elflib.py:343 | e_shstrndx reads as the unsigned 16-bit field at byte 62 |
| ElfLib.TableSizes | composer/elf/elflib.py:59-81 | on a readable file with a whole header, the tables have as many entries as bytes 60 and 56 say |
| ElfLib.TableSizeErrors | composer/elf/elflib.py:59-81 | a file that cannot be mapped has no tables: an unreadable one raises OSError, an empty one SystemError |
| ElfLib.OpenAccepts | composer/elf/elflib.py:49-52 | ELFFile accepts exactly the readable files of at least 16 bytes that start with 7f 'E' 'L' 'F', and with `force` any such file whatever it starts with |
| ElfLib.EVersionShadowed | composer/elf/elflib.py:168-172 | after `h.e_version = 0x10000` the instance answers 0x10000 while the file holds 0 |
| ElfLib.ProgramAlignAttribute | composer/elf/elflib.py:232-236 | reading p_align from the file is an AttributeError, while assigning it writes the file |
| ElfLib.SymbolInfoUnreachable | composer/elf/elflib.py:33-35 | st_info is a field of the symbol record, but reading it is an AttributeError and assigning it never reaches the file |
| ElfLib.IdentSetOneByte | composer/elf/elflib.py:142-145 | a successful e_ident assignment changes exactly that byte of the file, and reading it back gives the value |
| ElfLib.IdentSetSucceeds | composer/elf/elflib.py:142-145 | an e_ident assignment succeeds exactly on a readable, writable file of at least 16 bytes, with an index in -16..15 and a byte value |
| ElfLib.RangeMembers | composer/elf/elflib.py:290-291 | k is in range(0, stop, step) exactly when k*step has not passed `stop` |
| ElfLib.CountBelow | composer/elf/elflib.py:290-291 | the length of range(0, bound, step) for a positive step counts the multiples of step below bound |
| ElfLib.SymbolCountCovers | composer/elf/elflib.py:290-291 | for a positive entry size there are ceil(sh_size/sh_entsize) symbols: they cover the section and none starts past it |
| ElfLib.SymbolCountErrors | composer/elf/elflib.py:286-291 | symbols raises exactly for a section that is not a symbol table (IOError) or a zero entry size (ValueError) |
| ElfLib.OverwriteThenRead | composer/elf/elflib.py:110-130 | a block written with overwrite_at reads back with read_at |
| ElfLib.OverwriteMatchesInsertBytes | composer/elf/elflib.py:110-112 | overwrite_at agrees with insert_bytes in overwrite mode wherever insert_bytes accepts the offset |
| ElfLib.InsertAtTruncates | composer/elf/elflib.py:94-98 | insert_at as written replaces the whole file by `offset` zero bytes followed by the data |
| ElfLib.InsertAtLosesPrefix | composer/elf/elflib.py:94-98 | inserting [2] at offset 1 of the file [1] leaves [0, 2]; the corrected insert leaves [1, 2] |
| ElfLib.CorrectedInsertShifts | composer/elf/elflib.py:85-88 | the corrected insert_at keeps the prefix and moves the tail after the data, as the docstring promises and insert_bytes does |
| ElfLib.UnterminatedStringDiverges | composer/elf/elflib.py:387-389 | a string table entry with no NUL after it never ends; the corrected loop returns the bytes up to the end |
| ElfPy.Read | elf.py:122-123 | `_read` returns what the stdio read of the header's record gives |
| ElfPy.Write | elf.py:125-126 | `_write` changes the file as the stdio write says, or not at all |
| ElfPy.Header.constructor | elf.py:89-90 | a new header names its file and record and has no assigned attributes |
| ElfPy.Header.GetAttr | elf.py:92-97 | an assigned value shadows the file; member names go to the file; any other name is an AttributeError |
| ElfPy.Header.SetAttr | elf.py:99-103 | a member name is written to the file before it is cached; a failed write raises and caches nothing |
| ElfPy.NewHeaders | elf.py:47-48 | n fresh headers with indices 0..n-1 |
| ElfPy.ElfFile.constructor | elf.py:36-37 | an ELFFile names its file |
| ElfPy.ElfFile.Header | elf.py:39-42 | every access builds a fresh ELFHeader |
| ElfPy.ElfFile.SectionHeaders | elf.py:47-48 | exactly e_shnum section headers with indices 0..e_shnum-1, or the error of reading e_shnum |
| ElfPy.ElfFile.ProgramHeaders | elf.py:53-54 | exactly e_phnum program headers with indices 0..e_phnum-1, or the error of reading e_phnum |
| ElfPy.ElfFile.InsertAt | elf.py:67 | insert_at is insert_bytes with overwrite off: a shifting insert |
| ElfPy.ElfFile.OverwriteAt | elf.py:79 | overwrite_at is insert_bytes with overwrite on: an in-place overwrite |
| ElfPy.AlignReadFails | elf.py:23-26 | p_align can be assigned but not read from the file: the C read returns NULL with no exception |
| ElfPy.ReadOnlySectionAssignment | elf.py:99-103 | on a file that cannot be written, a section-header assignment succeeds, leaves the file as it was and caches the value, so the instance and the file disagree |
| ElfPy.FileHeaderReadsAgree | elf.py:122-123 | the two Python layers read the same file-header members of a readable file with a whole header |
| ElfPy.SectionReadsAgree | elf.py:140-141 | the two Python layers read the same section-header members |
| ElfPy.ProgramReadsAgree | elf.py:157-158 | the two Python layers read the same program-header members, all but p_align |
| ElfPy.ProgramStoresAgree | elf.py:160-161 | the two Python layers store program-header members the same way |
| MapsLine.ReplaceDouble | composer/process/process_interface.py:24 | one replace pass never lengthens the line and keeps its first character |
| MapsLine.ReplaceKeepsCollapse | composer/process/process_interface.py:23-24 | a replace pass keeps the line's normal form, with every run of spaces shrunk to one |
| MapsLine.ReplaceShrinks | composer/process/process_interface.py:23-24 | a line that still holds two adjacent spaces gets strictly shorter, so the loop ends |
| MapsLine.CollapseFixed | composer/process/process_interface.py:23 | a line without two adjacent spaces is its own normal form |
| MapsLine.CollapseNoDouble | composer/process/process_interface.py:23-24 | the normal form holds no two adjacent spaces |
| MapsLine.Normalise | composer/process/process_interface.py:23-24 | the loop ends with no "  " left, and its result is the line's normal form |
| MapsLine.Find | composer/process/process_interface.py:26 | the position of the first separator, or none when there is no separator |
| MapsLine.SplitN | composer/process/process_interface.py:26 | split with maxsplit=n gives 1 to n+1 parts that join back to the line |
| MapsLine.SplitSeparators | composer/process/process_interface.py:26 | no part but the last holds the separator, and the last holds none unless all n splits were made |
| MapsLine.JoinSplit | composer/process/process_interface.py:26 | joining the parts of a split line with the separator gives the line back |
| MapsLine.FindFirst | composer/process/process_interface.py:26 | Find returns the first separator |
| MapsLine.SplitCons | composer/process/process_interface.py:26 | splitting at a leading part without the separator peels that part off |
| MapsLine.SplitNone | composer/process/process_interface.py:26 | a line without the separator splits into itself |
| MapsLine.HexDigit | composer/process/process_interface.py:33-36 | each digit value below 16 has a hex digit that int(…, 16) reads as that value |
| MapsLine.HexDigits | composer/process/process_interface.py:33-36 | the hex digits of a number without padding are non-empty hex digits with no space or "-" |
| MapsLine.ParseHexDigits | composer/process/process_interface.py:33-36 | int(…, 16) of a number's unpadded hex digits gives the number back |
| MapsLine.FormatHex | composer/process/process_interface.py:33-36 | the kernel prints addresses and offsets as "%08lx": at least eight hex digits, zero-padded, with no space or "-" |
| MapsLine.ParseFormatHex | composer/process/process_interface.py:33-36 | int(…, 16) of the kernel's zero-padded hex form gives the number back |
| MapsLine.LeadingZero | composer/process/process_interface.py:33-36 | a leading "0" leaves the value int(…, 16) reads unchanged |
| MapsLine.LeadingZeros | composer/process/process_interface.py:33-36 | any number of leading zeros leaves the value int(…, 16) reads unchanged |
| MapsLine.MakeRecord | composer/process/process_interface.py:31-39 | a record comes only from exactly six fields; it has the six keys, a non-negative address pair, and perms, inode and pathname unchanged |
| MapsLine.Records | composer/process/process_interface.py:30-39 | the generator yields the records of the leading chunks that parse, in order, and stops with the error of the first chunk that does not |
| MapsLine.GetChunks | composer/process/process_interface.py:16-28 | one chunk per line: the line normalised and split at most five times; a missing process is FileNotFoundError |
| MapsLine.SplitJoinStep | composer/process/process_interface.py:26 | one step of splitting a joined line |
| MapsLine.SplitJoin | composer/process/process_interface.py:26 | splitting fields joined by single spaces gives the fields back, when only the last may hold a space |
| MapsLine.PlainNoDouble | composer/process/process_interface.py:23 | a field without a space holds no two adjacent spaces |
| MapsLine.JoinTwoNoDouble | composer/process/process_interface.py:23 | joining two such parts with one space creates no two adjacent spaces |
| MapsLine.JoinNoDouble | composer/process/process_interface.py:23 | a line of plain fields joined by single spaces needs no normalising |
| MapsLine.AddressPlain | composer/process/process_interface.py:33-34 | the address field "start-end" is non-empty and holds no space |
| MapsLine.ParseFormattedLine | composer/process/process_interface.py:16-39 | the line of a well-formed mapping parses back to the mapping's record |
| MapsLine.CollapsePrefix | composer/process/process_interface.py:23-24 | normalising leaves a leading part without double spaces or a trailing space untouched |
| MapsLine.CollapseRun | composer/process/process_interface.py:23-24 | a run of spaces of any length before a field shrinks to one space |
| MapsLine.FormatLineNormal | composer/process/process_interface.py:23-24 | the single-spaced line of a well-formed mapping is already normalised |
| MapsLine.CollapsePadded | composer/process/process_interface.py:23-24 | the kernel's line (zero-padded hex fields, the path column padded by any number of spaces) normalises to the mapping's single-spaced line |
| MapsLine.ParsePaddedLine | composer/process/process_interface.py:16-39 | the kernel's line of a well-formed mapping, with zero-padded hex fields and any padding before the path, parses to the mapping's record |
| MapsLine.ShortLineRejected | composer/process/process_interface.py:31-32 | a line with fewer than six fields cannot be unpacked: ValueError |
| ProcessInterface.Chunks | composer/process/process_interface.py:22-26 | one chunk per line of the maps file |
| ProcessInterface.Iter | composer/process/process_interface.py:30-39 | iterating yields exactly MapsRecords: the parsed records up to the first failing line, and its error |
| ProcessInterface.ParsedExtend | composer/process/process_interface.py:30-39 | a record that parses extends the records parsed so far |
| ProcessInterface.RecordsStopAt | composer/process/process_interface.py:30-39 | the generator yields exactly the records before the first failing chunk, and that chunk's error |
| ProcessInterface.GetItem | composer/process/process_interface.py:41-42 | any error in the whole file raises; otherwise an index is valid exactly in -n..n-1 and gives one of the records |
| ProcessInterface.Length | composer/process/process_interface.py:64-65 | the length is the number of lines, when every line parses |
| ProcessInterface.MemoryChunk.constructor | composer/process/process_interface.py:70-72 | a chunk holds the mem file and its map record's address range |
| ProcessInterface.MemoryChunk.Read | composer/process/process_interface.py:74-85 | read with a negative length reads end-start bytes from start; otherwise it reads `length` bytes |
| ProcessInterface.MemoryChunk.Write | composer/process/process_interface.py:87-95 | the asserts require offset+len(data) < end-start and offset >= 0; then `data` is written at start+offset and its length is returned |
| ProcessInterface.ChunkAt | composer/process/process_interface.py:61-62 | the chunk for ProcMaps[index], with that record's address range |
| ProcessInterface.ReadWholeChunk | composer/process/process_interface.py:83-85 | the default read returns exactly the chunk's bytes when the mem file covers the chunk |
| ProcessInterface.ReadPrefix | composer/process/process_interface.py:83-84 | a read of `length` bytes returns the `length` bytes at the chunk's start |
| ProcessInterface.WriteAccepts | composer/process/process_interface.py:89-90 | the write succeeds exactly when 0 <= offset, the data ends strictly before the chunk's end, and the file opens for update |
| ProcessInterface.LastByteRejected | composer/process/process_interface.py:89 | writing the chunk's last byte fails the assertion; the corrected check accepts it |
| ProcessInterface.CorrectedWriteAccepts | composer/process/process_interface.py:89 | the corrected write accepts exactly the writes that stay within the chunk |
| ProcessInterface.CorrectedWriteInChunk | composer/process/process_interface.py:87-95 | a corrected write lies inside the chunk, reads back at start+offset, and changes no byte outside it |
| ProcessInterface.WriteRefinesCorrected | composer/process/process_interface.py:89-90 | every write the as-written check lets through, the corrected check lets through with the same effect |
| ProcessInterface.FormattedMapsParse | composer/process/process_interface.py:16-39 | the lines of well-formed mappings parse to their records, with "inode" as the key |
| ProcParser.Iter | process/proc_parser.py:31-39 | the earlier parser yields the records of the shared line parser with the inode key "indoe" |
| ProcParser.MisspeltRecord | process/proc_parser.py:38 | a line parses in both parsers or in neither; the earlier one's record is the later one's with "inode" renamed "indoe" |
| ProcParser.ParsersAgree | process/proc_parser.py:16-39 | both parsers yield as many records and stop with the same error; each record of the earlier parser has "indoe" in place of "inode" |
| Injector.LastNoteIsLast | injector.py:28-30 | the chosen header is a PT_NOTE and none after it is; no choice means no PT_NOTE; an error is that of the first read that fails |
| Injector.Assign | injector.py:38-47 | one attribute assignment of the script changes the file and the instance as the write-through protocol says |
| Injector.Retype | injector.py:38-40 | the first three assignments: p_type, p_flags, and p_offset from the file size |
| Injector.Locate | injector.py:41-42 | p_vaddr is computed from the file size at the time line 42 runs |
| Injector.Size | injector.py:43-44 | p_filesz, then p_memsz, to len(CODE), and p_align to 0x1000 |
| Injector.Overwrite | injector.py:38-47 | the rewrite of the chosen header, the append and the entry point, ending as Injection says |
| Injector.LastNoteFailed | injector.py:29-30 | once a p_type read fails, the comprehension raises that exception |
| Injector.FindNote | injector.py:28-30 | the loop over the headers finds the LastNote header instance |
| Injector.Inject | injector.py:15-47 | no argument exits with 1; otherwise the script ends and leaves the file as InjectSpec says |
| Injector.StoreAll | injector.py:38-44 | the file after the seven stores, of the same length; the bytes each store leaves are stated by StoreAllLoad, StoreAllBeside and StoreAllFrame |
| Injector.AssignmentStores | injector.py:38-44 | each assignment of the script is a store of the matching Put under the member's name |
| Injector.PutsLayout | injector.py:38-44 | the seven stores lie inside the program-header record and no two overlap |
| Injector.StoreAllBeside | injector.py:38-44 | a field none of the stores overlaps keeps its value |
| Injector.StoreAllLoad | injector.py:38-44 | each field of the seven stores holds its value, truncated to the field |
| Injector.StoreAllFrame | injector.py:38-44 | outside the record nothing changes |
| Injector.RewriteStores | injector.py:38-44 | on a writable file whose header `k` lies inside it past the file header, the assignments succeed and store all seven values |
| Injector.ProgramStore | injector.py:38-44 | one program-header assignment keeps the file's length and the record's place |
| Injector.FinishStores | injector.py:46-47 | the code is appended at the old end, then e_entry is stored |
| Injector.InjectionIsInjected | injector.py:38-47 | on an injectable file the rewrite succeeds and leaves the Injected file |
| Injector.InjectedBytes | injector.py:46-47 | the file grows by len(CODE), the code sits at the old end, and no byte changes outside the header and e_entry |
| Injector.InjectedRead | injector.py:38-44 | every assigned program-header member reads back from the file as its value |
| Injector.VaddrRange | injector.py:41-42 | the new address lies in the page at 0x8000, and p_vaddr ≡ file size (mod 0x1000) |
| Injector.InjectedEntry | injector.py:47 | e_entry reads as the new segment's address |
| Injector.InjectedKind | injector.py:38-39 | the header reads as PT_LOAD with flags PF_X\|PF_R = 5 |
| Injector.InjectedPlace | injector.py:40-44 | p_offset is the old size, p_vaddr the computed address, and the alignment (read as "sh_align") is 0x1000 |
| Injector.InjectedSizes | injector.py:43 | p_filesz and p_memsz are len(CODE) |
| Injector.InjectedFile | injector.py:28-47 | with a PT_NOTE header inside a writable file, the script completes. The code is at the old end, and the header is a readable, executable PT_LOAD segment mapping exactly the code. Its address is congruent to its offset mod 0x1000, e_entry points there, and nothing else changes |
| Injector.NoNoteExits | injector.py:31-34 | without a PT_NOTE header the script exits with code 2 and leaves the file alone |

## Left out

- I/O is not modelled as calls. Opening, seeking, mmap, fstat and close are folded into the `Access` flags and the file's bytes; a failed open is an unreadable or unwritable `Access`. The directory check, `readlines` and `/proc/<pid>/mem` are given as inputs: the maps lines, and a `DiskFile` indexed by address.
- Resources are not modelled: missing munmap and close, leaked malloc buffers, and malloc failing (elf_handler.c:24).
- Python C-API argument parsing is not modelled. Values arrive as Dafny integers, so an index or value outside C `int`/`long` is not modelled. Neither is the C overflow of `index * e_shentsize` in `int`: offsets are unbounded, except where the stdio code reinterprets a sum as `long`.
- The `print` calls at composer/elf/elflib.py:48 and process/proc_parser.py:26, and the usage and error messages of injector.py:18 and injector.py:33, are output only.
- `.decode()` of string-table bytes (composer/elf/elflib.py:391) is left out: names stay bytes.
- read_strtab (composer/elf/elflib.py:350-366), `Symbol.__str__` and `Section.__str__` are left out: they only chain read_stringtable over section names.
- Relocations (elf/elf_handler.c:1-3), dynamic entries (composer/elf/elflib.py:321-323) and ELF32 are not implemented in the source.
- The ptrace wrapper, the example drivers and setup.py are outside the core.
- MappedHandler.Load: a member past the end of the file is `OutOfFile`. map_file maps st_size bytes (elf/elf_handler.c:49), and the kernel maps whole pages and fills the rest of the last one with zeros, so in the source a member that ends inside that page reads its bytes past the end as zero. Truncated files therefore diverge from the source: a file of 1 to 59 bytes reads e_shnum as `OutOfFile` here and as 0 or a partial value there.
- MappedHandler.StoreField: a store that reaches past the end of the file is `OutOfFile` with the mapping unchanged. In the source a store inside the last page succeeds, and the bytes past the end are not written back to the file.
- MappedHandler.SectionBase: the same holds for e_shoff and e_shentsize in a file shorter than 60 bytes, and for ProgramBase, IdentBytes and SymbolBase. The model's failures there are zero reads in the source.
- ElfLib.OpenAccepts: a readable file of 4 to 15 bytes that starts with the magic is accepted by the source, because e_ident reads its missing bytes as zeros, while the model rejects it with `OutOfFile`. With `force`, any non-empty readable file is accepted by the source.
- Record indices are `nat`. The C entry points take a signed `int`, and the callers in the source pass only `range()` and `enumerate()` indices, so a negative index is not modelled.
- MapsLine.MakeRecord: int(…, 16) is modelled on plain hex digits only. Python also accepts a sign, a "0x" prefix, underscores and surrounding whitespace, so such fields are a ValueError here.
- MapsLine.GetChunks: lines are taken as given. The trailing newline `readlines` keeps is part of the last field, as in the source, but the model states nothing about it.
- ProcessInterface.Iter: the generator's laziness is not modelled. It is a method that collects every record up to the first error; a consumer that stops early is not modelled.
- ProcessInterface.MemoryChunk.Read: the mem file is a flat byte sequence. Unmapped holes, which fail in the kernel, are not modelled.
- Injector.InjectedFile: stated only for files where the chosen header lies inside a writable file, after the file header, and the file is smaller than 2^63 bytes (`Injectable`). The error paths are those of InjectSpec and are not restated. NoNoteExits covers the exit with code 2.
- Injector.CODE is modelled as bytes only; the x86-64 meaning of the shellcode is not modelled.
- DraftHandler: the other draft accessors built on these helpers are not part of elf_handler.h, so only the helpers it defines are modelled.

## Findings

| source | as written | input that shows it | evidently intended | confidence | as-written member | corrected member |
|---|---|---|---|---|---|---|
| elf/elf_handler.c:167-168 | e_version is stored through `(uint16_t)` | writing 0x10000 to e_version, then reading it, gives 0 | the 32-bit field keeps the value mod 2^32 | high, not executed | MappedHandler.EVersionWriteTruncated | MappedHandler.HeaderAtWidthRoundTrip |
| elf/elf_handler.c:485-488 | the write guard compares sh_type with SHT_SYMTAB twice | a symbol of a SHT_DYNSYM section is readable but writing it raises OSError | the write accepts SHT_SYMTAB and SHT_DYNSYM, as the read does | high, not executed | MappedHandler.DynsymReadableNotWritable | MappedHandler.CorrectedSymbolGuardAgrees |
| elf/elf_handler.c:346-347 | the read accepts "sh_align" for p_align | reading "p_align" after writing it raises AttributeError | p_align is read under its own name | high, not executed | MappedHandler.ProgramAlignNames | MappedHandler.CorrectedProgramRoundTrip |
| composer/elf/elflib.py:94-98 | insert_at opens the file with "wb+", which truncates it | inserting [2] at offset 1 of the file [1] leaves [0, 2] | the tail is shifted after the data, giving [1, 2] | high, not executed | ElfLib.InsertAtLosesPrefix | ElfLib.CorrectedInsertShifts |
| elf_handler.h:90-91 | get_phdr_data allocates and reads sizeof(Elf64_Shdr) bytes for a program header | any program header: the 64-byte buffer also holds the 8 bytes after the 56-byte record | read sizeof(Elf64_Phdr) bytes | high, not executed | DraftHandler.DraftPhdrOverRead | DraftHandler.CorrectedPhdrMatchesStdio |
| composer/elf/elflib.py:386-389 | the loop stops only at a NUL byte, and read(1) at EOF gives b"" | a string table [0x41] read at offset 0 never ends | stop at the end of the file as well | medium, not executed | ElfLib.UnterminatedStringDiverges | ElfLib.CorrectedStringAt |
| composer/process/process_interface.py:89 | the bound is `offset + len(data) < end - start` | writing one byte at offset end-start-1 fails the assertion | data may run up to the chunk's end (`<=`) | medium, not executed | ProcessInterface.LastByteRejected | ProcessInterface.CorrectedWriteAccepts |
