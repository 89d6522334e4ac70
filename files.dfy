/**
 * A file on disk for the stdio variants of the handler: its bytes, and
 * whether the process may open it for reading and for writing. Opening,
 * seeking and closing are not modelled as calls; a failed open is the
 * `access` flag being false.
 */
module Files {
  import opened Bytes

  datatype Access = Access(readable: bool, writable: bool)

  class DiskFile {
    var contents: seq<byte>
    const access: Access

    constructor (contents: seq<byte>, access: Access)
      ensures this.contents == contents && this.access == access
    {
      this.contents := contents;
      this.access := access;
    }
  }

  /** The `length` bytes of `s` from `at`, zero where `s` has ended: a zero-filled buffer after a short read. */
  function Window(s: seq<byte>, at: nat, length: nat): (w: seq<byte>)
    ensures |w| == length
    ensures forall i :: 0 <= i < length ==> w[i] == if at + i < |s| then s[at + i] else 0
    ensures at + length <= |s| ==> w == s[at..at + length]
  {
    if at + length <= |s| then s[at..at + length]
    else if at <= |s| then s[at..] + Zeros(at + length - |s|)
    else Zeros(length)
  }

  /** The number of bytes a read of `length` bytes at `at` obtains before the end of `s`. */
  function Available(s: seq<byte>, at: nat, length: nat): (n: nat)
    ensures n <= length
    ensures n < length ==> at + n >= |s|
    ensures n > 0 ==> at + n <= |s|
  {
    if at + length <= |s| then length else if at <= |s| then |s| - at else 0
  }

  /**
   * A read of `buf.Length` bytes at position `at`: the bytes the file has
   * there land at the front of `buf`, the rest of `buf` keeps what it held.
   */
  method ReadInto(f: DiskFile, at: nat, buf: array<byte>) returns (n: nat)
    modifies buf
    ensures n == Available(f.contents, at, buf.Length)
    ensures forall i :: 0 <= i < buf.Length ==> buf[i] == if i < n then f.contents[at + i] else old(buf[i])
  {
    n := Available(f.contents, at, buf.Length);
    var k := 0;
    while k < n
      invariant 0 <= k <= n
      invariant forall i :: 0 <= i < k ==> buf[i] == f.contents[at + i]
      invariant forall i :: k <= i < buf.Length ==> buf[i] == old(buf[i])
    {
      buf[k] := f.contents[at + k];
      k := k + 1;
    }
  }

  /** A write of `data` at position `at`: the file takes `data` there and grows if it must. */
  method WriteAt(f: DiskFile, at: nat, data: seq<byte>)
    modifies f
    ensures f.contents == Overlay(old(f.contents), at, data)
  {
    f.contents := Overlay(f.contents, at, data);
  }
}
