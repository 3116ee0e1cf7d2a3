/** Byte buffers, unsigned little-endian integers and Python's clamped slices. */
module Bytes {

  /** One octet of a file's contents, as Python's `bytes` indexing yields it. */
  type byte = x: int | 0 <= x < 256

  /** 256 raised to the power n: one more than the largest n-byte value. */
  function Pow256(n: nat): (r: nat)
    ensures r >= 1
  {
    if n == 0 then 1 else 256 * Pow256(n - 1)
  }

  /** `int.from_bytes(s, byteorder='little')`: the unsigned value whose
      least significant byte comes first. Python's default `signed=False`
      applies, so no byte is ever read as a sign. */
  function FromLittleEndian(s: seq<byte>): (r: nat)
    ensures r < Pow256(|s|)
  {
    if |s| == 0 then 0
    else
      var rest := FromLittleEndian(s[1..]);
      assert 256 * rest <= 256 * (Pow256(|s| - 1) - 1);
      s[0] + 256 * rest
  }

  /** Reference definition of the same value as the positional sum
      s[0]·256^0 + s[1]·256^1 + … + s[n-1]·256^(n-1), built from the most
      significant end. */
  function PositionalSum(s: seq<byte>): nat
  {
    if |s| == 0 then 0
    else PositionalSum(s[..|s| - 1]) + Pow256(|s| - 1) * s[|s| - 1]
  }

  /** The decoder computes exactly the positional sum Σ s[i]·256^i. */
  lemma {:induction false} FromLittleEndianIsPositionalSum(s: seq<byte>)
    ensures FromLittleEndian(s) == PositionalSum(s)
  {
    if |s| > 0 {
      var init := s[..|s| - 1];
      assert init + [s[|s| - 1]] == s;
      FromLittleEndianIsPositionalSum(init);
      FromLittleEndianSnoc(init, s[|s| - 1]);
    }
  }

  /** A concatenation decodes as the low part plus the high part shifted up
      by the low part's width. */
  lemma {:induction false} FromLittleEndianConcat(a: seq<byte>, b: seq<byte>)
    ensures FromLittleEndian(a + b) == FromLittleEndian(a) + Pow256(|a|) * FromLittleEndian(b)
  {
    if |a| == 0 {
      assert a + b == b;
    } else {
      var lo: int, hi: int, p: int := FromLittleEndian(a[1..]), FromLittleEndian(b), Pow256(|a| - 1);
      assert (a + b)[1..] == a[1..] + b;
      FromLittleEndianConcat(a[1..], b);
      assert FromLittleEndian(a + b) == a[0] + 256 * (lo + p * hi);
      ShiftDistributes(lo, p, hi);
    }
  }

  /** Appending a byte adds it at the next higher position. */
  lemma FromLittleEndianSnoc(s: seq<byte>, b: byte)
    ensures FromLittleEndian(s + [b]) == FromLittleEndian(s) + Pow256(|s|) * b
  {
    assert FromLittleEndian([b]) == b by {
      assert ([b])[1..] == [];
    }
    FromLittleEndianConcat(s, [b]);
  }

  /** Shifting a value up one byte shifts both of its parts. */
  lemma ShiftDistributes(lo: int, p: int, hi: int)
    ensures 256 * (lo + p * hi) == 256 * lo + (256 * p) * hi
  {
  }

  /** A wider field has at least as large a range. */
  lemma {:induction false} Pow256Monotone(m: nat, n: nat)
    requires m <= n
    ensures Pow256(m) <= Pow256(n)
    decreases n
  {
    if m < n {
      Pow256Monotone(m, n - 1);
    }
  }

  /** The n-byte little-endian encoding of v, the inverse of
      FromLittleEndian (Python's `v.to_bytes(n, 'little')`). */
  function ToLittleEndian(v: nat, n: nat): (r: seq<byte>)
    requires v < Pow256(n)
    ensures |r| == n
  {
    if n == 0 then []
    else [v % 256] + ToLittleEndian(v / 256, n - 1)
  }

  /** Encoding then decoding gives back the value. */
  lemma {:induction false} DecodeEncode(v: nat, n: nat)
    requires v < Pow256(n)
    ensures FromLittleEndian(ToLittleEndian(v, n)) == v
  {
    if n > 0 {
      var e := ToLittleEndian(v, n);
      assert e[1..] == ToLittleEndian(v / 256, n - 1);
      DecodeEncode(v / 256, n - 1);
    }
  }

  /** Decoding then re-encoding at the same width gives back the bytes:
      distinct byte strings of one width decode to distinct values. */
  lemma {:induction false} EncodeDecode(s: seq<byte>)
    ensures ToLittleEndian(FromLittleEndian(s), |s|) == s
  {
    if |s| > 0 {
      var v := FromLittleEndian(s);
      var rest := FromLittleEndian(s[1..]);
      assert v == s[0] + 256 * rest;
      assert v % 256 == s[0] && v / 256 == rest;
      EncodeDecode(s[1..]);
    }
  }

  /** Python's `s[lo:hi]` for 0 <= lo <= hi: both bounds are clamped to the
      length, so a slice past the end is shorter (possibly empty) rather
      than an error. */
  function Slice(s: seq<byte>, lo: nat, hi: nat): (r: seq<byte>)
    requires lo <= hi
    ensures |r| == (if hi <= |s| then hi - lo else if lo <= |s| then |s| - lo else 0)
    ensures forall k :: 0 <= k < |r| ==> r[k] == s[lo + k]
  {
    var l := if lo <= |s| then lo else |s|;
    var h := if hi <= |s| then hi else |s|;
    s[l..h]
  }

  /** A slice of a suffix is a slice of the original, shifted by the
      suffix's start. */
  lemma SuffixSlice<T>(s: seq<T>, d: nat, lo: nat, hi: nat)
    requires d <= |s| && lo <= hi <= |s| - d
    ensures s[d..][lo..hi] == s[d + lo..d + hi]
  {
    var inner := s[d..][lo..hi];
    forall k | 0 <= k < hi - lo
      ensures inner[k] == s[d + lo + k]
    {
    }
  }

  /** Slicing what follows offset d is slicing the whole at bounds shifted
      by d: clamping happens at the same end of the buffer. */
  lemma SliceOfSuffix(s: seq<byte>, d: nat, lo: nat, hi: nat)
    requires d <= |s| && lo <= hi
    ensures Slice(s[d..], lo, hi) == Slice(s, d + lo, d + hi)
  {
    var x, y := Slice(s[d..], lo, hi), Slice(s, d + lo, d + hi);
    assert |x| == |y|;
    forall k | 0 <= k < |x|
      ensures x[k] == y[k]
    {
    }
  }

  /** Within bounds, a Python slice is the ordinary subsequence. */
  lemma SliceInBounds(s: seq<byte>, lo: nat, hi: nat)
    requires lo <= hi <= |s|
    ensures Slice(s, lo, hi) == s[lo..hi]
  {
  }
}
