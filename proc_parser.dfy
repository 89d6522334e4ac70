/**
 * process/proc_parser.py: the earlier ProcessMemory parser of
 * /proc/<pid>/maps. Its `__get_chunks` is the loop MapsLine.GetChunks
 * models (with a debugging print left out); its records store the inode
 * under the key "indoe".
 */
module ProcParser {
  import opened Outcomes
  import opened MapsLine
  import ProcessInterface

  const INODE_KEY: string := "indoe"

  /** `__iter__` of the earlier parser. */
  method Iter(lines: Option<seq<string>>) returns (records: seq<Record>, err: Option<Error>)
    ensures (records, err) == ProcessInterface.MapsRecords(lines, INODE_KEY)
  {
    records, err := ProcessInterface.Iter(lines, INODE_KEY);
  }

  /** A ProcMaps record with its "inode" entry moved to "indoe". */
  function Misspelt(r: Record): Record
    requires "inode" in r
  {
    (r - {"inode"})["indoe" := r["inode"]]
  }

  /** One line gives the same record in both parsers but for the name of the inode key. */
  lemma MisspeltRecord(fields: seq<string>)
    ensures MakeRecord(fields, INODE_KEY).Ok? <==> MakeRecord(fields, ProcessInterface.INODE_KEY).Ok?
    ensures MakeRecord(fields, INODE_KEY).Ok? ==>
              MakeRecord(fields, INODE_KEY).value == Misspelt(MakeRecord(fields, ProcessInterface.INODE_KEY).value)
  {
    var a := MakeRecord(fields, INODE_KEY);
    var b := MakeRecord(fields, ProcessInterface.INODE_KEY);
    if a.Ok? {
      assert b.Ok?;
      var m := Misspelt(b.value);
      assert m.Keys == a.value.Keys;
      forall k | k in m.Keys
        ensures m[k] == a.value[k]
      {
      }
      assert m == a.value;
    }
  }

  /** `early` is `later` with its "inode" entry renamed "indoe". */
  predicate Renamed(early: Record, later: Record)
  {
    "inode" in later && early == Misspelt(later) && "inode" !in early
  }

  /**
   * The two parsers yield the same number of records and stop with the same
   * error; each record of the earlier parser has "indoe" where ProcMaps has
   * "inode", and no "inode".
   */
  lemma {:induction false} ParsersAgree(chunks: seq<seq<string>>)
    ensures var (early, e1) := Records(chunks, INODE_KEY);
            var (later, e2) := Records(chunks, ProcessInterface.INODE_KEY);
            |early| == |later| && e1 == e2 &&
            forall i :: 0 <= i < |early| ==> Renamed(early[i], later[i])
  {
    KeysAllowed();
    if |chunks| > 0 {
      MisspeltRecord(chunks[0]);
      ParsersAgree(chunks[1..]);
      RecordsStep(chunks, INODE_KEY);
      RecordsStep(chunks, ProcessInterface.INODE_KEY);
      var a := MakeRecord(chunks[0], INODE_KEY);
      var b := MakeRecord(chunks[0], ProcessInterface.INODE_KEY);
      var early := Records(chunks[1..], INODE_KEY);
      var later := Records(chunks[1..], ProcessInterface.INODE_KEY);
      if a.Ok? {
        InodeInRecord(chunks[0]);
        MisspeltHasNoInode(b.value);
        RenamedCons(a.value, b.value, early.0, later.0);
      }
    }
  }

  /** Both parsers' inode keys differ from the other five keys. */
  lemma KeysAllowed()
    ensures InodeKey(INODE_KEY) && InodeKey(ProcessInterface.INODE_KEY)
  {
  }

  lemma RenamedCons(a: Record, b: Record, early: seq<Record>, later: seq<Record>)
    requires Renamed(a, b) && |early| == |later|
    requires forall i :: 0 <= i < |early| ==> Renamed(early[i], later[i])
    ensures forall i :: 0 <= i < |early| + 1 ==> Renamed(([a] + early)[i], ([b] + later)[i])
  {
    forall i | 0 <= i < |early| + 1
      ensures Renamed(([a] + early)[i], ([b] + later)[i])
    {
      if i > 0 { assert ([a] + early)[i] == early[i - 1] && ([b] + later)[i] == later[i - 1]; }
    }
  }

  /** A ProcMaps record always holds the key "inode". */
  lemma InodeInRecord(fields: seq<string>)
    requires MakeRecord(fields, ProcessInterface.INODE_KEY).Ok?
    ensures "inode" in MakeRecord(fields, ProcessInterface.INODE_KEY).value
  {
  }

  /** Renaming the key leaves no "inode" behind. */
  lemma MisspeltHasNoInode(r: Record)
    requires "inode" in r
    ensures "inode" !in Misspelt(r)
  {
    assert "inode" != "indoe" by { assert "inode"[2] != "indoe"[2]; }
  }
}
