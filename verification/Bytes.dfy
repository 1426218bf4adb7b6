/** Bytes, little-endian words, and a file with POSIX seek/write/truncate semantics. */
module Bytes {

  type byte = b: int | 0 <= b < 256

  function Zeros(n: nat): (z: seq<byte>)
    ensures |z| == n && forall i :: 0 <= i < n ==> z[i] == 0
  {
    seq<byte>(n, _ => 0)
  }

  // ---------- little-endian words ----------

  function Pow256(n: nat): nat {
    if n == 0 then 1 else 256 * Pow256(n - 1)
  }

  /** The n low bytes of x, least significant first: what memcpy of an n-byte unsigned word stores. */
  function LE(n: nat, x: nat): (s: seq<byte>)
    ensures |s| == n
  {
    if n == 0 then [] else [x % 256] + LE(n - 1, x / 256)
  }

  function FromLE(s: seq<byte>): nat {
    if s == [] then 0 else s[0] + 256 * FromLE(s[1..])
  }

  lemma {:induction false} LERoundTrip(n: nat, x: nat)
    requires x < Pow256(n)
    ensures FromLE(LE(n, x)) == x
  {
    if n > 0 {
      LERoundTrip(n - 1, x / 256);
      assert LE(n, x)[1..] == LE(n - 1, x / 256);
    }
  }

  lemma WordSizes()
    ensures Pow256(4) == 0x1_0000_0000
    ensures Pow256(8) == 0x1_0000_0000_0000_0000
  {
    assert Pow256(4) == 256 * (256 * (256 * (256 * Pow256(0))));
    assert Pow256(8) == 256 * (256 * (256 * (256 * Pow256(4))));
  }

  // ---------- files ----------

  /** The byte at offset i, where anything past the end reads as a hole. */
  function ByteAt(f: seq<byte>, i: nat): byte {
    if i < |f| then f[i] else 0
  }

  /** The n bytes from offset off, holes and the part past the end reading as zero. */
  function Region(f: seq<byte>, off: nat, n: nat): (r: seq<byte>)
    ensures |r| == n && forall i :: 0 <= i < n ==> r[i] == ByteAt(f, off + i)
  {
    seq<byte>(n, i requires 0 <= i < n => ByteAt(f, off + i))
  }

  /** lseek(off) followed by write(d): fills a hole with zeros, never shortens the file. */
  function PWrite(f: seq<byte>, off: nat, d: seq<byte>): (r: seq<byte>)
    requires d != []
    ensures |r| == if off + |d| > |f| then off + |d| else |f|
    ensures forall i: nat :: ByteAt(r, i) == if off <= i < off + |d| then d[i - off] else ByteAt(f, i)
  {
    var n := if off + |d| > |f| then off + |d| else |f|;
    seq<byte>(n, i requires 0 <= i < n => if off <= i < off + |d| then d[i - off] else ByteAt(f, i))
  }

  /** ftruncate: cuts the file, or extends it with a hole. */
  function Truncate(f: seq<byte>, n: nat): (r: seq<byte>)
    ensures |r| == n
    ensures forall i: nat :: ByteAt(r, i) == if i < n then ByteAt(f, i) else 0
  {
    seq<byte>(n, i requires 0 <= i < n => ByteAt(f, i))
  }

  lemma RegionElsewhere(f: seq<byte>, off: nat, d: seq<byte>, at: nat, n: nat)
    requires d != [] && (at + n <= off || off + |d| <= at)
    ensures Region(PWrite(f, off, d), at, n) == Region(f, at, n)
  {
  }

  lemma RegionHere(f: seq<byte>, off: nat, d: seq<byte>)
    requires d != []
    ensures Region(PWrite(f, off, d), off, |d|) == d
  {
  }
}
