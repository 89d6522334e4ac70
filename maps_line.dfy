/**
 * The /proc/<pid>/maps line parser shared by
 * composer/process/process_interface.py and process/proc_parser.py:
 * runs of spaces are collapsed, the line is split on single spaces into at
 * most six fields, and the address range and file offset are parsed as
 * hexadecimal.
 */
module MapsLine {
  import opened Outcomes

  // ---------------------------------------------------------------------
  // Collapsing spaces
  // ---------------------------------------------------------------------

  /** `"  " in s` */
  predicate HasDoubleSpace(s: string) {
    exists i :: 0 <= i < |s| - 1 && s[i] == ' ' && s[i + 1] == ' '
  }

  /** `s.replace("  ", " ")`: every non-overlapping pair of spaces, scanned left to right, becomes one space. */
  function ReplaceDouble(s: string): (r: string)
    ensures |r| <= |s|
    ensures |s| > 0 ==> |r| > 0 && r[0] == s[0]
  {
    if |s| < 2 then s
    else if s[0] == ' ' && s[1] == ' ' then [' '] + ReplaceDouble(s[2..])
    else [s[0]] + ReplaceDouble(s[1..])
  }

  /** The reference normal form: every run of spaces shrunk to a single space. */
  function Collapse(s: string): string {
    if |s| == 0 then []
    else if |s| > 1 && s[0] == ' ' && s[1] == ' ' then Collapse(s[1..])
    else [s[0]] + Collapse(s[1..])
  }

  lemma CollapseCons(c: char, x: string)
    ensures Collapse([c] + x) == if c == ' ' && |x| > 0 && x[0] == ' ' then Collapse(x) else [c] + Collapse(x)
  {
    assert ([c] + x)[1..] == x;
  }

  /** A replacement pass changes the line but not its normal form. */
  lemma {:induction false} ReplaceKeepsCollapse(s: string)
    ensures Collapse(ReplaceDouble(s)) == Collapse(s)
    decreases |s|
  {
    if |s| < 2 {
    } else if s[0] == ' ' && s[1] == ' ' {
      var rest := s[2..];
      ReplaceKeepsCollapse(rest);
      CollapseCons(' ', ReplaceDouble(rest));
      CollapseCons(' ', rest);
      assert s[1..] == [' '] + rest;
      CollapseCons(' ', s[1..]);
    } else {
      ReplaceKeepsCollapse(s[1..]);
      CollapseCons(s[0], ReplaceDouble(s[1..]));
      assert s == [s[0]] + s[1..];
      CollapseCons(s[0], s[1..]);
    }
  }

  /** A line that still holds a pair of spaces gets strictly shorter, so the loop ends. */
  lemma {:induction false} ReplaceShrinks(s: string)
    requires HasDoubleSpace(s)
    ensures |ReplaceDouble(s)| < |s|
    decreases |s|
  {
    if s[0] == ' ' && s[1] == ' ' {
    } else {
      var i :| 0 <= i < |s| - 1 && s[i] == ' ' && s[i + 1] == ' ';
      assert s[1..][i - 1] == ' ' && s[1..][i] == ' ';
      ReplaceShrinks(s[1..]);
    }
  }

  /** A line without a pair of spaces is its own normal form. */
  lemma {:induction false} CollapseFixed(s: string)
    requires !HasDoubleSpace(s)
    ensures Collapse(s) == s
    decreases |s|
  {
    if |s| > 0 {
      assert !HasDoubleSpace(s[1..]) by {
        forall i | 0 <= i < |s[1..]| - 1
          ensures !(s[1..][i] == ' ' && s[1..][i + 1] == ' ')
        {
          assert s[1..][i] == s[i + 1] && s[1..][i + 1] == s[i + 2];
        }
      }
      CollapseFixed(s[1..]);
      assert !(|s| > 1 && s[0] == ' ' && s[1] == ' ');
      assert s == [s[0]] + s[1..];
    }
  }

  /** The normal form holds no pair of spaces. */
  lemma {:induction false} CollapseNoDouble(s: string)
    ensures !HasDoubleSpace(Collapse(s))
    ensures |s| > 0 ==> |Collapse(s)| > 0 && Collapse(s)[0] == s[0]
    decreases |s|
  {
    if |s| > 0 {
      CollapseNoDouble(s[1..]);
      var t := Collapse(s[1..]);
      if !(|s| > 1 && s[0] == ' ' && s[1] == ' ') {
        var r := [s[0]] + t;
        forall i | 0 <= i < |r| - 1
          ensures !(r[i] == ' ' && r[i + 1] == ' ')
        {
          if i > 0 {
            assert r[i] == t[i - 1] && r[i + 1] == t[i];
          } else if |s| > 1 {
            assert r[1] == s[1];
          }
        }
      }
    }
  }

  /** The loop `while "  " in line: line = line.replace("  ", " ")`. */
  method Normalise(line: string) returns (r: string)
    ensures !HasDoubleSpace(r)
    ensures r == Collapse(line)
  {
    r := line;
    while HasDoubleSpace(r)
      invariant Collapse(r) == Collapse(line)
      decreases |r|
    {
      ReplaceKeepsCollapse(r);
      ReplaceShrinks(r);
      r := ReplaceDouble(r);
    }
    CollapseFixed(r);
  }

  // ---------------------------------------------------------------------
  // Splitting
  // ---------------------------------------------------------------------

  /** The position of the first `c` in `s`. */
  function Find(s: string, c: char): (r: Option<nat>)
    ensures r.Some? ==> r.value < |s| && s[r.value] == c && c !in s[..r.value]
    ensures r.None? ==> c !in s
  {
    if |s| == 0 then None
    else if s[0] == c then Some(0)
    else
      match Find(s[1..], c)
      case None => None
      case Some(i) =>
        assert s[..i + 1] == [s[0]] + s[1..][..i];
        Some(i + 1)
  }

  /** `sep.join(parts)` */
  function Join(parts: seq<string>, c: char): string
    requires |parts| >= 1
  {
    if |parts| == 1 then parts[0] else parts[0] + [c] + Join(parts[1..], c)
  }

  /**
   * `s.split(c, maxsplit=n)`: at most `n` splits at single separators,
   * scanned from the left; the last part keeps the rest of the line.
   */
  function SplitN(s: string, c: char, n: nat): (r: seq<string>)
    decreases |s|
    ensures 1 <= |r| <= n + 1
  {
    if n == 0 then [s]
    else
      match Find(s, c)
      case None => [s]
      case Some(i) => [s[..i]] + SplitN(s[i + 1..], c, n - 1)
  }

  /** Joining the parts with the separator gives the line back. */
  lemma {:induction false} JoinSplit(s: string, c: char, n: nat)
    decreases n
    ensures Join(SplitN(s, c, n), c) == s
  {
    if n > 0 && Find(s, c).Some? {
      var i := Find(s, c).value;
      JoinSplit(s[i + 1..], c, n - 1);
      JoinSplitStep(s, c, n, i);
    } else {
      SplitWhole(s, c, n);
    }
  }

  lemma JoinSplitStep(s: string, c: char, n: nat, i: nat)
    requires n > 0 && Find(s, c) == Some(i)
    requires Join(SplitN(s[i + 1..], c, n - 1), c) == s[i + 1..]
    ensures Join(SplitN(s, c, n), c) == s
  {
    SplitStep(s, c, n, i);
    Rejoin(s, c, i, SplitN(s[i + 1..], c, n - 1));
  }

  /** The part before a separator, joined to parts that give back what follows it. */
  lemma Rejoin(s: string, c: char, i: nat, rest: seq<string>)
    requires i < |s| && s[i] == c && |rest| >= 1 && Join(rest, c) == s[i + 1..]
    ensures Join([s[..i]] + rest, c) == s
  {
    assert ([s[..i]] + rest)[1..] == rest;
    assert s == s[..i] + [c] + s[i + 1..];
  }

  /** No part but the last holds the separator, and the last holds none unless all `n` splits were made. */
  predicate Separated(r: seq<string>, c: char, n: nat)
  {
    (forall j :: 0 <= j < |r| - 1 ==> c !in r[j]) && (|r| < n + 1 ==> |r| > 0 && c !in r[|r| - 1])
  }

  lemma {:induction false} SplitSeparators(s: string, c: char, n: nat)
    decreases n
    ensures Separated(SplitN(s, c, n), c, n)
  {
    var f := Find(s, c);
    if n == 0 || f.None? {
      SplitWhole(s, c, n);
    } else {
      var i := f.value;
      var rest := s[i + 1..];
      SplitSeparators(rest, c, n - 1);
      SplitStep(s, c, n, i);
      SeparatedCons(s[..i], SplitN(rest, c, n - 1), c, n);
    }
  }

  /** With no split left to make, or no separator, the line is one part. */
  lemma SplitWhole(s: string, c: char, n: nat)
    requires n == 0 || Find(s, c).None?
    ensures SplitN(s, c, n) == [s] && (n > 0 ==> c !in s)
  {
  }

  /** A part without the separator in front of separated parts. */
  lemma SeparatedCons(a: string, rest: seq<string>, c: char, n: nat)
    requires n > 0 && c !in a && |rest| > 0 && Separated(rest, c, n - 1)
    ensures Separated([a] + rest, c, n)
  {
    var r := [a] + rest;
    forall j | 0 <= j < |r| - 1
      ensures c !in r[j]
    {
      if j > 0 { assert r[j] == rest[j - 1]; }
    }
    assert r[|r| - 1] == rest[|rest| - 1];
  }

  /** A split at the first separator, then `n - 1` more in the rest. */
  lemma SplitStep(s: string, c: char, n: nat, i: nat)
    requires n > 0 && Find(s, c) == Some(i)
    ensures SplitN(s, c, n) == [s[..i]] + SplitN(s[i + 1..], c, n - 1)
  {
  }

  /** `Find` returns the first separator. */
  lemma {:induction false} FindFirst(s: string, c: char, k: nat)
    requires k < |s| && s[k] == c && c !in s[..k]
    ensures Find(s, c) == Some(k)
  {
    if k > 0 {
      assert s[0] == s[..k][0];
      assert s[1..][..k - 1] == s[1..k];
      assert forall x :: x in s[1..k] ==> x in s[..k];
      FindFirst(s[1..], c, k - 1);
    }
  }

  /** Splitting at a leading part that holds no separator peels that part off. */
  lemma SplitCons(a: string, c: char, b: string, n: nat)
    requires c !in a && n > 0
    ensures SplitN(a + [c] + b, c, n) == [a] + SplitN(b, c, n - 1)
  {
    var s := a + [c] + b;
    assert s[..|a|] == a && s[|a| + 1..] == b;
    FindFirst(s, c, |a|);
  }

  lemma SplitNone(s: string, c: char, n: nat)
    requires c !in s
    ensures SplitN(s, c, n) == [s]
  {
  }

  // ---------------------------------------------------------------------
  // Hexadecimal
  // ---------------------------------------------------------------------

  function DigitValue(ch: char): Option<nat> {
    if '0' <= ch <= '9' then Some(ch as int - '0' as int)
    else if 'a' <= ch <= 'f' then Some(ch as int - 'a' as int + 10)
    else if 'A' <= ch <= 'F' then Some(ch as int - 'A' as int + 10)
    else None
  }

  predicate IsHexDigits(s: string) {
    forall i :: 0 <= i < |s| ==> DigitValue(s[i]).Some?
  }

  function HexValue(s: string): nat
    requires IsHexDigits(s)
  {
    if |s| == 0 then 0 else HexValue(s[..|s| - 1]) * 16 + DigitValue(s[|s| - 1]).value
  }

  /** `int(s, 16)` on a string of hex digits; anything else raises ValueError. */
  function ParseHex(s: string): Result<nat> {
    if |s| > 0 && IsHexDigits(s) then Ok(HexValue(s)) else Err(ValueError)
  }

  function HexDigit(d: nat): (ch: char)
    requires d < 16
    ensures DigitValue(ch) == Some(d)
  {
    if d < 10 then ('0' as int + d) as char else ('a' as int + d - 10) as char
  }

  /** The lower-case hex digits of `n`, without leading zeros. */
  function HexDigits(n: nat): (s: string)
    ensures |s| > 0 && IsHexDigits(s)
    ensures ' ' !in s && '-' !in s
  {
    if n < 16 then [HexDigit(n)] else HexDigits(n / 16) + [HexDigit(n % 16)]
  }

  lemma {:induction false} ParseHexDigits(n: nat)
    ensures ParseHex(HexDigits(n)) == Ok(n)
  {
    var s := HexDigits(n);
    if n >= 16 {
      ParseHexDigits(n / 16);
      assert s[..|s| - 1] == HexDigits(n / 16);
      assert DigitValue(s[|s| - 1]) == Some(n % 16);
      assert HexValue(s) == (n / 16) * 16 + n % 16;
    } else {
      assert s[..0] == [];
      assert HexValue(s) == HexValue([]) * 16 + n;
    }
  }

  /** `k` zero digits. */
  function Zeros(k: nat): (r: string)
    ensures |r| == k && forall i :: 0 <= i < k ==> r[i] == '0'
  {
    seq(k, _ => '0')
  }

  /**
   * `n` as the kernel prints addresses and offsets in a maps line
   * ("%08lx"): lower-case hex digits, zero-padded to at least eight.
   */
  function FormatHex(n: nat): (s: string)
    ensures |s| >= 8 && IsHexDigits(s)
    ensures ' ' !in s && '-' !in s
  {
    var d := HexDigits(n);
    var s := if |d| < 8 then Zeros(8 - |d|) + d else d;
    assert forall i :: 0 <= i < |s| ==> s[i] == '0' || s[i] in d;
    s
  }

  /** A leading zero digit does not change the value `int(…, 16)` reads. */
  lemma {:induction false} LeadingZero(s: string)
    requires IsHexDigits(s)
    ensures IsHexDigits(['0'] + s) && HexValue(['0'] + s) == HexValue(s)
    decreases |s|
  {
    var t := ['0'] + s;
    assert IsHexDigits(t) by {
      assert forall i :: 1 <= i < |t| ==> t[i] == s[i - 1];
    }
    if |s| == 0 {
      assert t[..0] == [];
    } else {
      var init := s[..|s| - 1];
      LeadingZero(init);
      assert t[..|t| - 1] == ['0'] + init;
      assert t[|t| - 1] == s[|s| - 1];
    }
  }

  lemma {:induction false} LeadingZeros(k: nat, s: string)
    requires IsHexDigits(s)
    ensures IsHexDigits(Zeros(k) + s) && HexValue(Zeros(k) + s) == HexValue(s)
    decreases k
  {
    if k > 0 {
      LeadingZeros(k - 1, s);
      assert Zeros(k) + s == ['0'] + (Zeros(k - 1) + s);
      LeadingZero(Zeros(k - 1) + s);
    } else {
      assert Zeros(k) + s == s;
    }
  }

  /** `int(…, 16)` of the kernel's zero-padded hex form gives the number back. */
  lemma ParseFormatHex(n: nat)
    ensures ParseHex(FormatHex(n)) == Ok(n)
  {
    var d := HexDigits(n);
    ParseHexDigits(n);
    if |d| < 8 {
      LeadingZeros(8 - |d|, d);
    }
  }

  // ---------------------------------------------------------------------
  // Records
  // ---------------------------------------------------------------------

  /** A value of a record dictionary. */
  datatype Value = Int(i: int) | Range(lo: int, hi: int) | Text(s: string)

  type Record = map<string, Value>

  /** The key the inode is stored under differs from the other five keys. */
  predicate InodeKey(k: string) {
    k !in {"address", "perms", "offset", "dev", "pathname"}
  }

  /**
   * The record `__iter__` builds from six fields, evaluated in the order of
   * the dict display: unpacking raises ValueError unless there are exactly
   * six fields; an address without "-" raises IndexError; a field that is
   * not hex raises ValueError. The inode is stored under `inodeKey`.
   */
  function MakeRecord(fields: seq<string>, inodeKey: string): (r: Result<Record>)
    requires InodeKey(inodeKey)
    ensures r.Ok? ==> |fields| == 6 && r.value.Keys == {"address", "perms", "offset", "dev", inodeKey, "pathname"}
    ensures r.Ok? ==> (r.value["address"].Range? && r.value["address"].lo >= 0 && r.value["address"].hi >= 0)
    ensures r.Ok? ==> (r.value["perms"] == Text(fields[1]) && r.value[inodeKey] == Text(fields[4]) &&
                       r.value["pathname"] == Text(fields[5]))
  {
    if |fields| != 6 then Err(ValueError)
    else
      var parts := SplitN(fields[0], '-', |fields[0]|);
      var lo :- ParseHex(parts[0]);
      if |parts| < 2 then Err(IndexError)
      else
        var hi :- ParseHex(parts[1]);
        var off :- ParseHex(fields[2]);
        Ok(map["address" := Range(lo, hi), "perms" := Text(fields[1]), "offset" := Int(off),
               "dev" := Text(fields[3]), inodeKey := Text(fields[4]), "pathname" := Text(fields[5])])
  }

  /**
   * The records the generator yields from the chunks, in order, until one
   * raises: the records before it, and its error.
   */
  function Records(chunks: seq<seq<string>>, inodeKey: string): (r: (seq<Record>, Option<Error>))
    requires InodeKey(inodeKey)
    ensures |r.0| <= |chunks|
    ensures forall i :: 0 <= i < |r.0| ==> MakeRecord(chunks[i], inodeKey) == Ok(r.0[i])
    ensures r.1.None? ==> |r.0| == |chunks|
    ensures r.1.Some? ==> |r.0| < |chunks| && MakeRecord(chunks[|r.0|], inodeKey) == Err(r.1.value)
  {
    if |chunks| == 0 then ([], None)
    else
      match MakeRecord(chunks[0], inodeKey)
      case Err(e) => ([], Some(e))
      case Ok(rec) =>
        var rest := Records(chunks[1..], inodeKey);
        ([rec] + rest.0, rest.1)
  }

  /** One step of the generator: the first chunk's record, then the rest, or the first chunk's error. */
  lemma RecordsStep(chunks: seq<seq<string>>, inodeKey: string)
    requires InodeKey(inodeKey) && |chunks| > 0
    ensures var first := MakeRecord(chunks[0], inodeKey);
            var rest := Records(chunks[1..], inodeKey);
            Records(chunks, inodeKey) == if first.Err? then ([], Some(first.error)) else ([first.value] + rest.0, rest.1)
  {
  }

  /**
   * `__get_chunks`: each line of the maps file normalised and split at most
   * five times. `lines` is None when the process directory does not exist
   * (FileNotFoundError) or the maps file cannot be opened.
   */
  method GetChunks(lines: Option<seq<string>>) returns (r: Result<seq<seq<string>>>)
    ensures lines.None? ==> r == Err(IOError)
    ensures lines.Some? ==> (r.Ok? && |r.value| == |lines.value| &&
              forall i :: 0 <= i < |lines.value| ==> r.value[i] == SplitN(Collapse(lines.value[i]), ' ', 5))
  {
    if lines.None? {
      return Err(IOError);
    }
    var ls := lines.value;
    var chunks: seq<seq<string>> := [];
    for i := 0 to |ls|
      invariant |chunks| == i
      invariant forall j :: 0 <= j < i ==> chunks[j] == SplitN(Collapse(ls[j]), ' ', 5)
    {
      var line := Normalise(ls[i]);
      chunks := chunks + [SplitN(line, ' ', 5)];
    }
    r := Ok(chunks);
  }

  // ---------------------------------------------------------------------
  // Parsing a well-formed line
  // ---------------------------------------------------------------------

  /** One step of `SplitJoin`: a first part without the separator is peeled off. */
  lemma SplitJoinStep(parts: seq<string>, c: char, n: nat)
    requires |parts| >= 2 && n > 0 && c !in parts[0]
    requires SplitN(Join(parts[1..], c), c, n - 1) == parts[1..]
    ensures SplitN(Join(parts, c), c, n) == parts
  {
    SplitCons(parts[0], c, Join(parts[1..], c), n);
    assert parts == [parts[0]] + parts[1..];
  }

  /** Splitting what `Join` built, when only the last part may hold the separator and `n` splits reach it, gives the parts back. */
  lemma {:induction false} SplitJoin(parts: seq<string>, c: char, n: nat)
    requires |parts| >= 1 && n + 1 >= |parts|
    requires forall j :: 0 <= j < |parts| - 1 ==> c !in parts[j]
    requires n + 1 > |parts| ==> c !in parts[|parts| - 1]
    ensures SplitN(Join(parts, c), c, n) == parts
  {
    if |parts| == 1 {
      if n > 0 {
        SplitNone(parts[0], c, n);
      }
      assert parts == [parts[0]];
    } else {
      var rest := parts[1..];
      assert forall j :: 0 <= j < |rest| - 1 ==> rest[j] == parts[j + 1];
      SplitJoin(rest, c, n - 1);
      SplitJoinStep(parts, c, n);
    }
  }

  /** A field the parser reads back intact: non-empty, no space. */
  predicate PlainField(s: string) {
    |s| > 0 && ' ' !in s
  }

  lemma PlainNoDouble(s: string)
    requires ' ' !in s
    ensures !HasDoubleSpace(s)
  {
    forall i | 0 <= i < |s| - 1
      ensures !(s[i] == ' ' && s[i + 1] == ' ')
    {
      assert s[i] in s;
    }
  }

  /** Appending a space and a part that starts with no space to a part that ends with none creates no pair of spaces. */
  lemma JoinTwoNoDouble(a: string, b: string)
    requires |a| > 0 && a[|a| - 1] != ' ' && !HasDoubleSpace(a)
    requires !HasDoubleSpace(b) && (|b| > 0 ==> b[0] != ' ')
    ensures !HasDoubleSpace(a + [' '] + b)
  {
    var s := a + [' '] + b;
    forall i | 0 <= i < |s| - 1
      ensures !(s[i] == ' ' && s[i + 1] == ' ')
    {
      if i < |a| - 1 {
        assert s[i] == a[i] && s[i + 1] == a[i + 1];
      } else if i == |a| - 1 {
        assert s[i] == a[|a| - 1];
      } else if i == |a| {
        if |b| > 0 {
          assert s[i + 1] == b[0];
        }
      } else {
        assert s[i] == b[i - |a| - 1] && s[i + 1] == b[i - |a|];
      }
    }
  }

  /** Plain parts followed by a last part without a pair of spaces or a leading space join into a line without a pair of spaces. */
  lemma {:induction false} JoinNoDouble(parts: seq<string>)
    requires |parts| >= 1
    requires forall j :: 0 <= j < |parts| - 1 ==> PlainField(parts[j])
    requires var last := parts[|parts| - 1]; !HasDoubleSpace(last) && (|last| > 0 ==> last[0] != ' ')
    ensures !HasDoubleSpace(Join(parts, ' '))
    ensures |Join(parts, ' ')| > 0 ==> Join(parts, ' ')[0] != ' '
  {
    if |parts| > 1 {
      var rest := parts[1..];
      assert forall j :: 0 <= j < |rest| - 1 ==> rest[j] == parts[j + 1];
      assert rest[|rest| - 1] == parts[|parts| - 1];
      JoinNoDouble(rest);
      var a := parts[0];
      assert a[0] in a && a[|a| - 1] in a;
      PlainNoDouble(a);
      JoinTwoNoDouble(a, Join(rest, ' '));
    }
  }

  /** One mapping as the kernel describes it. */
  datatype Mapping = Mapping(start: nat, end: nat, perms: string, offset: nat, dev: string, inode: string, pathname: string)

  predicate WellFormed(m: Mapping) {
    PlainField(m.perms) && PlainField(m.dev) && PlainField(m.inode) &&
    !HasDoubleSpace(m.pathname) && (|m.pathname| > 0 ==> m.pathname[0] != ' ')
  }

  function Address(m: Mapping): string {
    Join([FormatHex(m.start), FormatHex(m.end)], '-')
  }

  function Fields(m: Mapping): seq<string> {
    [Address(m), m.perms, FormatHex(m.offset), m.dev, m.inode, m.pathname]
  }

  /** The line for `m`, with single spaces between the fields. */
  function FormatLine(m: Mapping): string {
    Join(Fields(m), ' ')
  }

  function RecordOf(m: Mapping, inodeKey: string): Record {
    map["address" := Range(m.start, m.end), "perms" := Text(m.perms), "offset" := Int(m.offset),
        "dev" := Text(m.dev), inodeKey := Text(m.inode), "pathname" := Text(m.pathname)]
  }

  lemma AddressPlain(m: Mapping)
    ensures PlainField(Address(m))
  {
    var parts := [FormatHex(m.start), FormatHex(m.end)];
    assert parts[1..] == [FormatHex(m.end)];
    assert Join(parts[1..], '-') == FormatHex(m.end);
    assert Address(m) == FormatHex(m.start) + ['-'] + FormatHex(m.end);
  }

  /** Parsing the line of a well-formed mapping, after normalisation, yields that mapping's record. */
  lemma ParseFormattedLine(m: Mapping, inodeKey: string)
    requires WellFormed(m) && InodeKey(inodeKey)
    ensures MakeRecord(SplitN(Collapse(FormatLine(m)), ' ', 5), inodeKey) == Ok(RecordOf(m, inodeKey))
  {
    var fs := Fields(m);
    AddressPlain(m);
    JoinNoDouble(fs);
    CollapseFixed(FormatLine(m));
    SplitJoin(fs, ' ', 5);
    var a := Address(m);
    SplitJoin([FormatHex(m.start), FormatHex(m.end)], '-', |a|);
    ParseFormatHex(m.start);
    ParseFormatHex(m.end);
    ParseFormatHex(m.offset);
  }

  /** `n` spaces. */
  function Spaces(n: nat): (r: string)
    ensures |r| == n && forall i :: 0 <= i < n ==> r[i] == ' '
  {
    seq(n, _ => ' ')
  }

  /**
   * The line for `m` as the kernel prints it: the first five fields
   * single-spaced, then a space and `pad` more spaces that align the
   * pathname column.
   */
  function PaddedLine(m: Mapping, pad: nat): string {
    Join(Fields(m)[..5], ' ') + [' '] + Spaces(pad) + m.pathname
  }

  lemma {:induction false} JoinSnoc(parts: seq<string>, y: string, c: char)
    requires |parts| >= 1
    ensures Join(parts + [y], c) == Join(parts, c) + [c] + y
    decreases |parts|
  {
    if |parts| == 1 {
      assert (parts + [y])[1..] == [y];
    } else {
      JoinSnoc(parts[1..], y, c);
      assert (parts + [y])[1..] == parts[1..] + [y];
    }
  }

  lemma NoDoubleAt(x: string, i: nat)
    requires !HasDoubleSpace(x) && i + 1 < |x|
    ensures !(x[i] == ' ' && x[i + 1] == ' ')
  {
  }

  lemma NoDoubleTail(x: string)
    requires !HasDoubleSpace(x) && |x| > 0
    ensures !HasDoubleSpace(x[1..])
  {
    var t := x[1..];
    forall i | 0 <= i < |t| - 1
      ensures !(t[i] == ' ' && t[i + 1] == ' ')
    {
      NoDoubleAt(x, i + 1);
    }
  }

  /** A prefix without a pair of spaces that does not end in a space survives normalisation. */
  lemma {:induction false} CollapsePrefix(x: string, z: string)
    requires !HasDoubleSpace(x) && (|x| > 0 ==> x[|x| - 1] != ' ')
    ensures Collapse(x + z) == x + Collapse(z)
    decreases |x|
  {
    if |x| > 0 {
      var t := x[1..];
      NoDoubleTail(x);
      if |t| > 0 {
        assert t[|t| - 1] == x[|x| - 1];
        NoDoubleAt(x, 0);
        assert (t + z)[0] == x[1];
      } else {
        assert x[0] == x[|x| - 1];
      }
      CollapsePrefix(t, z);
      assert x + z == [x[0]] + (t + z);
      CollapseCons(x[0], t + z);
      assert x == [x[0]] + t;
    } else {
      assert x + z == z;
    }
  }

  /** A run of spaces before a part that does not start with a space shrinks to one. */
  lemma {:induction false} CollapseRun(pad: nat, y: string)
    requires |y| > 0 ==> y[0] != ' '
    ensures Collapse([' '] + Spaces(pad) + y) == [' '] + Collapse(y)
    decreases pad
  {
    if pad == 0 {
      assert [' '] + Spaces(0) + y == [' '] + y;
      CollapseCons(' ', y);
    } else {
      var rest := [' '] + Spaces(pad - 1) + y;
      assert [' '] + Spaces(pad) + y == [' '] + rest;
      CollapseRun(pad - 1, y);
      CollapseCons(' ', rest);
    }
  }

  /** The first five fields, single-spaced, end in the inode, hold no pair of spaces, and start the line. */
  lemma LeadingFields(m: Mapping)
    requires WellFormed(m)
    ensures var p := Join(Fields(m)[..5], ' ');
            |p| > 0 && p[|p| - 1] != ' ' && !HasDoubleSpace(p) && FormatLine(m) == p + [' '] + m.pathname
  {
    var fs := Fields(m);
    AddressPlain(m);
    PlainNoDouble(m.inode);
    assert m.inode[0] in m.inode && m.inode[|m.inode| - 1] in m.inode;
    JoinNoDouble(fs[..5]);
    assert fs[..4] + [m.inode] == fs[..5];
    JoinSnoc(fs[..4], m.inode, ' ');
    assert fs[..5] + [m.pathname] == fs;
    JoinSnoc(fs[..5], m.pathname, ' ');
  }

  /** A normal prefix, a run of spaces, and a normal part that does not start with a space normalise to the two parts single-spaced. */
  lemma CollapseGap(p: string, pad: nat, y: string)
    requires |p| > 0 && p[|p| - 1] != ' ' && !HasDoubleSpace(p)
    requires !HasDoubleSpace(y) && (|y| > 0 ==> y[0] != ' ')
    ensures Collapse(p + [' '] + Spaces(pad) + y) == p + [' '] + y
  {
    var tail := [' '] + Spaces(pad) + y;
    AppendAssoc(p, [' '] + Spaces(pad), y);
    AppendAssoc(p, [' '], Spaces(pad));
    CollapsePrefix(p, tail);
    CollapseRun(pad, y);
    CollapseFixed(y);
    AppendAssoc(p, [' '], y);
  }

  lemma AppendAssoc(a: string, b: string, c: string)
    ensures a + b + c == a + (b + c)
  {
  }

  /** Normalising the kernel's padded line of a well-formed mapping gives its single-spaced line. */
  lemma CollapsePadded(m: Mapping, pad: nat)
    requires WellFormed(m)
    ensures Collapse(PaddedLine(m, pad)) == FormatLine(m)
  {
    LeadingFields(m);
    CollapseGap(Join(Fields(m)[..5], ' '), pad, m.pathname);
  }

  /** The single-spaced line of a well-formed mapping is already normal. */
  lemma FormatLineNormal(m: Mapping)
    requires WellFormed(m)
    ensures Collapse(FormatLine(m)) == FormatLine(m)
  {
    AddressPlain(m);
    JoinNoDouble(Fields(m));
    CollapseFixed(FormatLine(m));
  }

  /** The kernel's padded line of a well-formed mapping, however wide the padding, parses to the mapping's record. */
  lemma ParsePaddedLine(m: Mapping, inodeKey: string, pad: nat)
    requires WellFormed(m) && InodeKey(inodeKey)
    ensures MakeRecord(SplitN(Collapse(PaddedLine(m, pad)), ' ', 5), inodeKey) == Ok(RecordOf(m, inodeKey))
  {
    CollapsePadded(m, pad);
    FormatLineNormal(m);
    ParseFormattedLine(m, inodeKey);
  }

  /** A line with fewer than six fields cannot be unpacked. */
  lemma ShortLineRejected(line: string, inodeKey: string)
    requires InodeKey(inodeKey)
    requires |SplitN(Collapse(line), ' ', 5)| < 6
    ensures MakeRecord(SplitN(Collapse(line), ' ', 5), inodeKey) == Err(ValueError)
  {
  }
}
