/**
 * The attribute protocol shared by the Python header classes of
 * composer/elf/elflib.py (ELFStructure) and elf.py (Header).
 *
 * Python consults `__getattr__` only when the instance has no attribute of
 * that name, and `__setattr__` ends with `object.__setattr__`, which stores
 * the value on the instance. So once a member has been assigned, later reads
 * return the assigned value from the instance and no longer reach the file.
 * `cache` is that part of the instance dictionary.
 */
module Attributes {
  import opened Outcomes
  import opened Layout

  /** The file-header names; "e_phnum" is listed twice in the source, and the set keeps it once. */
  const E_HEADER_MEMBERS: set<string> := {
    "e_type", "e_machine", "e_version", "e_entry",
    "e_phoff", "e_shoff", "e_flags", "e_ehsize",
    "e_phentsize", "e_phnum", "e_shentsize", "e_phnum",
    "e_shnum", "e_shstrndx"
  }

  const S_HEADER_MEMBERS: set<string> := {
    "sh_name", "sh_type", "sh_flags", "sh_addr",
    "sh_offset", "sh_size", "sh_link", "sh_info",
    "sh_addralign", "sh_entsize"
  }

  const P_HEADER_MEMBERS: set<string> := {
    "p_type", "p_flags", "p_offset", "p_vaddr",
    "p_paddr", "p_filesz", "p_memsz", "p_align"
  }

  const SYMBOL_MEMBERS: set<string> := {
    "st_name", "st_other", "st_shndx", "st_value", "st_size"
  }

  /** Attribute read: the instance's own value, else the file for a member name, else AttributeError. */
  function GetAttr(cache: map<string, int>, members: set<string>, name: string, fromFile: Result<int>): Result<int> {
    if name in cache then Ok(cache[name])
    else if name in members then fromFile
    else Err(AttributeError)
  }

  /**
   * Attribute write: a member name is first written to the file (`stored`
   * is that write's outcome, a failure propagates and nothing is cached),
   * then the value is stored on the instance. The file state is `S`.
   */
  function SetAttr<S>(cache: map<string, int>, members: set<string>, name: string, value: int,
                      file: S, stored: Result<S>): Result<(map<string, int>, S)> {
    if name !in members then Ok((cache[name := value], file))
    else
      match stored
      case Err(e) => Err(e)
      case Ok(file') => Ok((cache[name := value], file'))
  }

  // ---------------------------------------------------------------------
  // Properties
  // ---------------------------------------------------------------------

  /** The file-header set has 13 distinct names. */
  lemma EHeaderMemberCount()
    ensures |E_HEADER_MEMBERS| == 13
  {
    // Each name is new to the names before it.
    var listed: set<string> := {};
    assert "e_type" !in listed; listed := listed + {"e_type"};
    assert "e_machine" !in listed; listed := listed + {"e_machine"};
    assert "e_version" !in listed; listed := listed + {"e_version"};
    assert "e_entry" !in listed; listed := listed + {"e_entry"};
    assert "e_phoff" !in listed; listed := listed + {"e_phoff"};
    assert "e_shoff" !in listed; listed := listed + {"e_shoff"};
    assert "e_flags" !in listed; listed := listed + {"e_flags"};
    assert "e_ehsize" !in listed; listed := listed + {"e_ehsize"};
    assert "e_phentsize" !in listed; listed := listed + {"e_phentsize"};
    assert "e_phnum" !in listed; listed := listed + {"e_phnum"};
    assert "e_shentsize" !in listed; listed := listed + {"e_shentsize"};
    assert "e_shnum" !in listed; listed := listed + {"e_shnum"};
    assert "e_shstrndx" !in listed; listed := listed + {"e_shstrndx"};
    assert E_HEADER_MEMBERS == listed;
  }

  /** The Python member sets name exactly the fields of the C layout tables, except that SYMBOL_MEMBERS leaves out st_info. */
  lemma MemberSetsMatchLayout(name: string)
    ensures name in E_HEADER_MEMBERS <==> EhdrField(name).Some?
    ensures name in S_HEADER_MEMBERS <==> ShdrField(name).Some?
    ensures name in P_HEADER_MEMBERS <==> PhdrField(name).Some?
    ensures name in SYMBOL_MEMBERS <==> SymField(name).Some? && name != "st_info"
  {
  }

  /** p_align is a member name, but the C read knows it only as "sh_align". */
  lemma AlignMemberUnreadable()
    ensures "p_align" in P_HEADER_MEMBERS && PhdrReadField("p_align").None?
    ensures "sh_align" !in P_HEADER_MEMBERS
  {
  }

  /** After an assignment that succeeds, reading the name gives the assigned value, whatever the file now holds. */
  lemma ReadAfterSet<S>(cache: map<string, int>, members: set<string>, name: string, value: int,
                        file: S, stored: Result<S>, fromFile: Result<int>)
    requires SetAttr(cache, members, name, value, file, stored).Ok?
    ensures GetAttr(SetAttr(cache, members, name, value, file, stored).value.0, members, name, fromFile) == Ok(value)
  {
  }

  /** A name outside the member set never reaches the file: a read of an unset one fails, a write leaves the file as it was. */
  lemma NonMemberStaysOffFile<S>(cache: map<string, int>, members: set<string>, name: string, value: int,
                                 file: S, stored: Result<S>, fromFile: Result<int>)
    requires name !in members
    ensures name !in cache ==> GetAttr(cache, members, name, fromFile) == Err(AttributeError)
    ensures SetAttr(cache, members, name, value, file, stored) == Ok((cache[name := value], file))
  {
  }

  /** A member assignment that the file rejects raises, and the instance keeps no value for it. */
  lemma FailedSetCachesNothing<S>(cache: map<string, int>, members: set<string>, name: string, value: int,
                                  file: S, e: Error)
    requires name in members
    ensures SetAttr(cache, members, name, value, file, Err(e)) == Err(e)
  {
  }
}
