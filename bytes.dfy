/**
 * Bytes, little-endian integers and the Python file object the codec reads from.
 * `struct.unpack('<H' | '<I', ...)` and `struct.pack` are `LittleEndian` and
 * `ToLittleEndian`; what `file.read(n)` returns on a file opened with 'rb'
 * is `ReadAt`.
 */
module Bytes {

  type Byte = b: int | 0 <= b < 256

  /** 256^n: the number of values an n-byte unsigned field can hold. */
  function Pow256(n: nat): (p: nat)
    ensures p >= 1
  {
    if n == 0 then 1 else 256 * Pow256(n - 1)
  }

  lemma Pow256Values()
    ensures Pow256(1) == 0x100 && Pow256(2) == 0x1_0000 && Pow256(4) == 0x1_0000_0000
  {
  }

  /** The unsigned integer whose little-endian encoding is `s`. */
  function LittleEndian(s: seq<Byte>): (v: nat)
    ensures v < Pow256(|s|)
  {
    if |s| == 0 then 0 else s[0] + 256 * LittleEndian(s[1..])
  }

  /** The n-byte little-endian encoding of `v` (`struct.pack('<H' | '<I', v)`). */
  function ToLittleEndian(v: nat, n: nat): (s: seq<Byte>)
    requires v < Pow256(n)
    ensures |s| == n
    ensures LittleEndian(s) == v
  {
    if n == 0 then [] else [v % 256] + ToLittleEndian(v / 256, n - 1)
  }

  /** Packing what was unpacked gives back the same bytes. */
  lemma {:induction false} ToLittleEndianOfLittleEndian(s: seq<Byte>)
    ensures ToLittleEndian(LittleEndian(s), |s|) == s
  {
    if |s| > 0 {
      var v := LittleEndian(s);
      assert v == s[0] + 256 * LittleEndian(s[1..]);
      assert v % 256 == s[0] && v / 256 == LittleEndian(s[1..]);
      ToLittleEndianOfLittleEndian(s[1..]);
    }
  }

  function Min(a: int, b: int): int { if a <= b then a else b }

  /**
   * What `file.read(n)` returns when the cursor is at `pos`: at most `n`
   * bytes, fewer near the end of the file, none once the cursor has been
   * moved past the end.
   */
  function ReadAt(s: seq<Byte>, pos: nat, n: nat): (r: seq<Byte>)
    ensures |r| <= n
    ensures pos + n <= |s| ==> r == s[pos..pos + n]
    ensures pos >= |s| ==> r == []
    ensures pos < |s| ==> |r| == Min(n, |s| - pos) && r == s[pos..pos + |r|]
  {
    if pos >= |s| then [] else s[pos..Min(pos + n, |s|)]
  }

  /** A slice of a slice is a slice of the whole. */
  lemma SliceOfSlice(s: seq<Byte>, lo: nat, hi: nat, a: nat, b: nat)
    requires lo <= hi <= |s| && a <= b <= hi - lo
    ensures s[lo..hi][a..b] == s[lo + a..lo + b]
  {
    var x, y := s[lo..hi][a..b], s[lo + a..lo + b];
    assert |x| == |y|;
    forall k | 0 <= k < |x|
      ensures x[k] == y[k]
    {
    }
  }

  /** Bytes within what was read are the file's bytes at the same offset from the cursor. */
  lemma ReadAtSlice(s: seq<Byte>, pos: nat, n: nat, lo: nat, hi: nat)
    requires lo < hi <= |ReadAt(s, pos, n)|
    ensures pos + hi <= |s|
    ensures ReadAt(s, pos, n)[lo..hi] == s[pos + lo..pos + hi]
  {
    var r := ReadAt(s, pos, n);
    assert pos < |s|;
    SliceOfSlice(s, pos, pos + |r|, lo, hi);
  }

  /** Python's clamped slice `s[lo:hi]` for 0 <= lo <= hi. */
  function Slice(s: seq<Byte>, lo: nat, hi: nat): (r: seq<Byte>)
    requires lo <= hi
    ensures hi <= |s| ==> r == s[lo..hi]
    ensures lo < hi ==> (|r| == hi - lo <==> hi <= |s|)
  {
    if lo >= |s| then [] else s[lo..Min(hi, |s|)]
  }
}
