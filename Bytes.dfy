/** Bytes, fixed-width unsigned integers and their little-endian encodings,
    as .NET's BitConverter lays them out on a little-endian host. */
module Bytes {

  type byte = b: int | 0 <= b < 0x100
  type uint16 = x: int | 0 <= x < 0x1_0000
  type uint32 = x: int | 0 <= x < 0x1_0000_0000

  datatype Option<T> = None | Some(value: T)

  const UInt32Limit: int := 0x1_0000_0000

  /** Offsets, counts, lengths and array sizes are C# `int`s. */
  const MaxInt: int := 0x7FFF_FFFF

  /** The value a C# `(uint)` cast gives an `int`: two's-complement wrap-around. */
  function ToUInt32(x: int): (r: uint32)
    requires -0x8000_0000 <= x < 0x1_0000_0000
    ensures 0 <= x ==> r == x
    ensures x < 0 ==> r == x + UInt32Limit
  {
    if x < 0 then x + UInt32Limit else x
  }

  /** A non-empty set has a member to pick. */
  lemma NonEmptyHasMember(s: set<int>)
    requires s != {}
    ensures exists x :: x in s
  {
    assert (forall x :: x !in s) ==> s == {};
  }

  /** A fresh .NET byte array: every element is zero. */
  function Zeros(n: nat): (r: seq<byte>)
    ensures |r| == n
    ensures forall i :: 0 <= i < n ==> r[i] == 0
  {
    seq(n, _ => 0)
  }

  /** `dst` with `src` copied over it at position `at` (Buffer.BlockCopy into `dst`). */
  function Splice<T>(dst: seq<T>, at: int, src: seq<T>): (r: seq<T>)
    requires 0 <= at && at + |src| <= |dst|
    ensures |r| == |dst|
  {
    dst[..at] + src + dst[at + |src|..]
  }

  /** Element by element: `src` inside the span, `dst` outside it. */
  lemma SpliceAt<T>(dst: seq<T>, at: int, src: seq<T>)
    requires 0 <= at && at + |src| <= |dst|
    ensures forall i :: 0 <= i < at ==> Splice(dst, at, src)[i] == dst[i]
    ensures forall i :: at <= i < at + |src| ==> Splice(dst, at, src)[i] == src[i - at]
    ensures forall i :: at + |src| <= i < |dst| ==> Splice(dst, at, src)[i] == dst[i]
  {
  }

  /** Copying `b` right after an already copied `a` is copying `a + b`. */
  lemma SpliceAppend<T>(dst: seq<T>, at: int, a: seq<T>, b: seq<T>)
    requires 0 <= at && at + |a| + |b| <= |dst|
    ensures Splice(Splice(dst, at, a), at + |a|, b) == Splice(dst, at, a + b)
  {
    SpliceAt(dst, at, a);
    SpliceAt(Splice(dst, at, a), at + |a|, b);
    SpliceAt(dst, at, a + b);
  }

  /** A copy over the whole of `dst` leaves exactly the copied elements. */
  lemma SpliceWhole<T>(dst: seq<T>, src: seq<T>)
    requires |src| == |dst|
    ensures Splice(dst, 0, src) == src
  {
    assert dst[..0] + src + dst[|src|..] == src;
  }

  /** The copied span reads back as the copied elements. */
  lemma SpliceSlice<T>(dst: seq<T>, at: int, src: seq<T>)
    requires 0 <= at && at + |src| <= |dst|
    ensures Splice(dst, at, src)[at..at + |src|] == src
  {
    SpliceAt(dst, at, src);
  }

  /** A second copy over the same span replaces the first one entirely. */
  lemma SpliceTwice<T>(dst: seq<T>, at: int, a: seq<T>, b: seq<T>)
    requires 0 <= at && at + |a| <= |dst| && |b| == |a|
    ensures Splice(Splice(dst, at, a), at, b) == Splice(dst, at, b)
  {
    SpliceAt(dst, at, a);
    SpliceAt(Splice(dst, at, a), at, b);
    SpliceAt(dst, at, b);
  }

  lemma AppendAssoc<T>(a: seq<T>, b: seq<T>, c: seq<T>)
    ensures a + (b + c) == a + b + c
  {
  }

  /** A sequence is its prefix followed by its suffix. */
  lemma SplitAt<T>(s: seq<T>, k: int)
    requires 0 <= k <= |s|
    ensures s[..k] + s[k..] == s
    ensures k < |s| ==> s[k..][0] == s[k] && s[k..][1..] == s[k + 1..]
  {
  }

  /** A slice of a slice is a slice of the original. */
  lemma SliceOfSlice<T>(s: seq<T>, lo: int, hi: int, i: int, j: int)
    requires 0 <= lo <= hi <= |s| && 0 <= i <= j <= hi - lo
    ensures s[lo..hi][i..j] == s[lo + i..lo + j]
  {
    assert |s[lo..hi][i..j]| == j - i;
    forall k | 0 <= k < j - i
      ensures s[lo..hi][i..j][k] == s[lo + i..lo + j][k]
    {
    }
  }

  /** Buffer.BlockCopy(src, srcOffset, dst, dstOffset, count). */
  method BlockCopy(src: array<byte>, srcOffset: int, dst: array<byte>, dstOffset: int, count: int)
    requires 0 <= srcOffset && 0 <= count && srcOffset + count <= src.Length
    requires 0 <= dstOffset && dstOffset + count <= dst.Length
    modifies dst
    ensures dst[..] == Splice(old(dst[..]), dstOffset, old(src[srcOffset..srcOffset + count]))
  {
    ghost var piece := src[srcOffset..srcOffset + count];
    SpliceAt(dst[..], dstOffset, piece);
    forall i | 0 <= i < count {
      dst[dstOffset + i] := src[srcOffset + i];
    }
  }

  /** Array.CopyTo: the bytes of `src` copied into `buffer` from index `at`. */
  method CopyTo(src: seq<byte>, buffer: array<byte>, at: int)
    requires 0 <= at && at + |src| <= buffer.Length
    modifies buffer
    ensures buffer[..] == Splice(old(buffer[..]), at, src)
  {
    SpliceAt(buffer[..], at, src);
    forall i | 0 <= i < |src| {
      buffer[at + i] := src[i];
    }
  }

  function LE16(x: uint16): (r: seq<byte>)
    ensures |r| == 2
  {
    [x % 0x100, x / 0x100]
  }

  function LE32(x: uint32): (r: seq<byte>)
    ensures |r| == 4
  {
    [x % 0x100, (x / 0x100) % 0x100, (x / 0x1_0000) % 0x100, x / 0x100_0000]
  }

  /** BitConverter.ToUInt16(b, at). */
  function ReadLE16(b: seq<byte>, at: int): (r: uint16)
    requires 0 <= at && at + 2 <= |b|
  {
    b[at] as int + 0x100 * b[at + 1] as int
  }

  /** BitConverter.ToUInt32(b, at). */
  function ReadLE32(b: seq<byte>, at: int): (r: uint32)
    requires 0 <= at && at + 4 <= |b|
  {
    b[at] as int + 0x100 * b[at + 1] as int + 0x1_0000 * b[at + 2] as int + 0x100_0000 * b[at + 3] as int
  }

  lemma LE16RoundTrip(x: uint16, b: seq<byte>, at: int)
    requires 0 <= at && at + 2 <= |b| && b[at..at + 2] == LE16(x)
    ensures ReadLE16(b, at) == x
  {
    assert b[at] == x % 0x100 && b[at + 1] == x / 0x100;
  }

  lemma LE32RoundTrip(x: uint32, b: seq<byte>, at: int)
    requires 0 <= at && at + 4 <= |b| && b[at..at + 4] == LE32(x)
    ensures ReadLE32(b, at) == x
  {
    var b0: int, b1: int, b2: int, b3: int := b[at], b[at + 1], b[at + 2], b[at + 3];
    assert b0 == x % 0x100 && b1 == (x / 0x100) % 0x100;
    assert b2 == (x / 0x1_0000) % 0x100 && b3 == x / 0x100_0000;
    var q1 := x / 0x100;
    var q2 := q1 / 0x100;
    assert x == b0 + 0x100 * q1;
    assert q1 == b1 + 0x100 * q2;
    assert q2 == x / 0x1_0000;
    assert q2 == b2 + 0x100 * b3;
  }

  /** Decoding any two bytes and encoding the value again gives the same bytes. */
  lemma LE16Canonical(b: seq<byte>, at: int)
    requires 0 <= at && at + 2 <= |b|
    ensures LE16(ReadLE16(b, at)) == b[at..at + 2]
  {
    var x := ReadLE16(b, at);
    var b0: int, b1: int := b[at], b[at + 1];
    assert x % 0x100 == b0 && x / 0x100 == b1;
  }

  /** Decoding any four bytes and encoding the value again gives the same bytes. */
  lemma LE32Canonical(b: seq<byte>, at: int)
    requires 0 <= at && at + 4 <= |b|
    ensures LE32(ReadLE32(b, at)) == b[at..at + 4]
  {
    var x := ReadLE32(b, at);
    var b0: int, b1: int, b2: int, b3: int := b[at], b[at + 1], b[at + 2], b[at + 3];
    assert x == b0 + 0x100 * (b1 + 0x100 * (b2 + 0x100 * b3));
    assert x % 0x100 == b0 && x / 0x100 == b1 + 0x100 * (b2 + 0x100 * b3);
    var y := x / 0x100;
    assert y % 0x100 == b1 && y / 0x100 == b2 + 0x100 * b3;
    assert x / 0x1_0000 == y / 0x100;
    assert x / 0x100_0000 == (y / 0x100) / 0x100;
  }
}
