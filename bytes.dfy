/**
 * Bytes of a file image and the little-endian integers stored in them.
 *
 * Fields of ELF64 structures are stored in host byte order; the model takes
 * x86-64, i.e. little-endian. A C integer store such as `(uint16_t) data`
 * keeps the value modulo 2^16: Dafny's `%` is Euclidean, so `v % Pow256(w)`
 * is exactly that two's complement truncation, also for negative `v`.
 */
module Bytes {

  type byte = b: int | 0 <= b < 256

  /** 256^n, the number of values an n-byte field can hold. */
  function Pow256(n: nat): (r: nat)
    ensures r >= 1
  {
    if n == 0 then 1 else 256 * Pow256(n - 1)
  }

  lemma Pow256Widths()
    ensures Pow256(1) == 0x100 && Pow256(2) == 0x1_0000
    ensures Pow256(4) == 0x1_0000_0000 && Pow256(8) == TwoTo64
  {
    assert Pow256(2) == 0x1_0000;
    assert Pow256(4) == 0x1_0000_0000;
  }

  lemma {:induction false} Pow256Monotone(a: nat, b: nat)
    requires a <= b
    decreases b
    ensures Pow256(a) <= Pow256(b)
  {
    if a < b {
      Pow256Monotone(a, b - 1);
    }
  }

  /** A field of at most eight bytes holds an unsigned 64-bit value. */
  lemma FitsU64(w: nat)
    requires w <= 8
    ensures Pow256(w) <= TwoTo64
  {
    Pow256Monotone(w, 8);
    Pow256Widths();
  }

  const TwoTo63: int := 0x8000_0000_0000_0000
  const TwoTo64: int := 0x1_0000_0000_0000_0000

  /** The unsigned value of little-endian bytes `s`. */
  function DecodeLE(s: seq<byte>): (v: nat)
    ensures v < Pow256(|s|)
  {
    if s == [] then 0 else s[0] + 256 * DecodeLE(s[1..])
  }

  /** The `w` low-order bytes of `v`, least significant first. */
  function EncodeLE(v: int, w: nat): (s: seq<byte>)
    decreases w
    ensures |s| == w
  {
    if w == 0 then [] else [v % 256] + EncodeLE(v / 256, w - 1)
  }

  /** Division by a positive modulus has a unique quotient and remainder. */
  lemma DivModUnique(v: int, m: int, a: int, x: int)
    requires m > 0 && v == m * a + x && 0 <= x < m
    ensures v / m == a && v % m == x
  {
    var k := a - v / m;
    assert m * k == v % m - x;
  }

  lemma ModSplit(v: int, p: nat)
    requires p >= 1
    ensures v % (256 * p) == v % 256 + 256 * ((v / 256) % p)
  {
    var q, r := v / 256, v % 256;
    var a, b := q / p, q % p;
    assert q == p * a + b;
    assert 256 * b + r <= 256 * (p - 1) + 255;
    assert v == (256 * p) * a + (256 * b + r) by {
      assert v == 256 * q + r;
      assert 256 * q == 256 * (p * a) + 256 * b;
      assert 256 * (p * a) == (256 * p) * a;
    }
    DivModUnique(v, 256 * p, a, 256 * b + r);
  }

  /** Reading back an encoded value gives it modulo the width: the store truncates. */
  lemma {:induction false} DecodeEncode(v: int, w: nat)
    decreases w
    ensures DecodeLE(EncodeLE(v, w)) == v % Pow256(w)
  {
    if w > 0 {
      var e := EncodeLE(v, w);
      assert e[1..] == EncodeLE(v / 256, w - 1);
      DecodeEncode(v / 256, w - 1);
      ModSplit(v, Pow256(w - 1));
    }
  }

  /** Encoding the value of `s` at the width of `s` gives `s` back. */
  lemma {:induction false} EncodeDecode(s: seq<byte>)
    ensures EncodeLE(DecodeLE(s), |s|) == s
  {
    if s != [] {
      var d := DecodeLE(s[1..]);
      DivModUnique(DecodeLE(s), 256, d, s[0]);
      EncodeDecode(s[1..]);
    }
  }

  /**
   * The C `long` with the same low 64 bits as `u`: what an unsigned 64-bit
   * field becomes when it is assigned to a `long` (two's complement).
   */
  function ToLong(u: int): (r: int)
    ensures -TwoTo63 <= r < TwoTo63
    ensures (r - u) % TwoTo64 == 0
    ensures 0 <= u < TwoTo63 ==> r == u
  {
    var low := u % TwoTo64;
    if low < TwoTo63 then low else low - TwoTo64
  }

  function Zeros(n: nat): (z: seq<byte>)
    ensures |z| == n && forall i :: 0 <= i < n ==> z[i] == 0
  {
    seq(n, _ => 0)
  }

  /** `s` with the span at `off` replaced by `d`; the length is kept. */
  function Splice(s: seq<byte>, off: nat, d: seq<byte>): (r: seq<byte>)
    requires off + |d| <= |s|
    ensures |r| == |s|
    ensures forall i :: 0 <= i < |s| ==> r[i] == if off <= i < off + |d| then d[i - off] else s[i]
  {
    s[..off] + d + s[off + |d|..]
  }

  /**
   * The file after writing `d` at `off` (seek, then write): bytes past the old
   * end that the write skips over read as zero, and the file grows to cover `d`;
   * writing no bytes changes nothing, wherever the position is.
   */
  function Overlay(s: seq<byte>, off: nat, d: seq<byte>): (r: seq<byte>)
    ensures |r| == if |d| == 0 || off + |d| <= |s| then |s| else off + |d|
    ensures forall i :: 0 <= i < |r| ==>
              r[i] == if off <= i < off + |d| then d[i - off] else if i < |s| then s[i] else 0
    ensures off + |d| <= |s| ==> r == Splice(s, off, d)
    ensures |d| == 0 ==> r == s
  {
    if |d| == 0 then s
    else if off + |d| <= |s| then Splice(s, off, d)
    else if off <= |s| then s[..off] + d
    else s + Zeros(off - |s|) + d
  }

  /** The unsigned little-endian value of the `w` bytes at `off`. */
  function ReadLE(s: seq<byte>, off: nat, w: nat): (v: nat)
    requires off + w <= |s|
    ensures v < Pow256(w)
  {
    DecodeLE(s[off..off + w])
  }

  /** A field read after a store of `v` into it yields `v` truncated to the field. */
  lemma ReadAfterStore(s: seq<byte>, off: nat, v: int, w: nat)
    requires off + w <= |s|
    ensures ReadLE(Splice(s, off, EncodeLE(v, w)), off, w) == v % Pow256(w)
  {
    var e := EncodeLE(v, w);
    assert Splice(s, off, e)[off..off + w] == e;
    DecodeEncode(v, w);
  }

  /** A store leaves every field it does not overlap as it was. */
  lemma ReadBesideStore(s: seq<byte>, off: nat, d: seq<byte>, off2: nat, w2: nat)
    requires off + |d| <= |s| && off2 + w2 <= |s|
    requires off2 + w2 <= off || off + |d| <= off2
    ensures ReadLE(Splice(s, off, d), off2, w2) == ReadLE(s, off2, w2)
  {
    assert Splice(s, off, d)[off2..off2 + w2] == s[off2..off2 + w2];
  }
}
