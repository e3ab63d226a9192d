/**
 * Bytes, Java's fixed-width integers, and the big-endian two's-complement
 * encodings that `java.nio.ByteBuffer` uses for `putLong`/`getLong` and
 * `putInt`/`getInt`.
 */
module Bytes {

  /** A byte of a datagram: the unsigned value (0..255) of Java's signed `byte`. */
  type byte = b: int | 0 <= b < 256

  /** Java's `long`. */
  type int64 = i: int | -0x8000_0000_0000_0000 <= i < 0x8000_0000_0000_0000

  /** Java's `int`. */
  type int32 = i: int | -0x8000_0000 <= i < 0x8000_0000

  /** `Byte.SIZE`, `Integer.SIZE` and `Long.SIZE`: widths in BITS. */
  const BYTE_SIZE: nat := 8
  const INT_SIZE: nat := 32
  const LONG_SIZE: nat := 64

  const TWO_31: int := 0x8000_0000
  const TWO_32: int := 0x1_0000_0000
  const TWO_63: int := 0x8000_0000_0000_0000
  const TWO_64: int := 0x1_0000_0000_0000_0000

  function Pow256(n: nat): (p: nat)
    ensures p >= 1
  {
    if n == 0 then 1 else 256 * Pow256(n - 1)
  }

  lemma Pow256Widths()
    ensures Pow256(4) == TWO_32 && Pow256(8) == TWO_64
  {
    assert Pow256(2) == 0x1_0000;
    assert Pow256(4) == 0x1_0000 * Pow256(2);
    assert Pow256(6) == 0x1_0000 * Pow256(4);
    assert Pow256(8) == 0x1_0000 * Pow256(6);
  }

  /** The value of a big-endian unsigned byte string. */
  function Unsigned(s: seq<byte>): (v: nat)
    ensures v < Pow256(|s|)
  {
    if s == [] then 0 else Unsigned(s[..|s| - 1]) * 256 + s[|s| - 1]
  }

  /** The `n`-byte big-endian encoding of `v`, most significant byte first. */
  function UnsignedBytes(v: nat, n: nat): (s: seq<byte>)
    requires v < Pow256(n)
    ensures |s| == n
  {
    if n == 0 then [] else UnsignedBytes(v / 256, n - 1) + [v % 256]
  }

  lemma {:induction false} UnsignedOfBytes(v: nat, n: nat)
    requires v < Pow256(n)
    ensures Unsigned(UnsignedBytes(v, n)) == v
  {
    if n > 0 {
      var s := UnsignedBytes(v, n);
      assert s[..n - 1] == UnsignedBytes(v / 256, n - 1);
      UnsignedOfBytes(v / 256, n - 1);
    }
  }

  lemma {:induction false} BytesOfUnsigned(s: seq<byte>)
    ensures UnsignedBytes(Unsigned(s), |s|) == s
  {
    if s != [] {
      var p := s[..|s| - 1];
      BytesOfUnsigned(p);
      assert Unsigned(s) / 256 == Unsigned(p);
      assert s == p + [s[|s| - 1]];
    }
  }

  /** `ByteBuffer.putLong` in big-endian order: eight bytes of the two's complement of `v`. */
  function Int64Bytes(v: int64): (s: seq<byte>)
    ensures |s| == 8
  {
    Pow256Widths();
    var u := if v < 0 then v + TWO_64 else v;
    UnsignedOfBytes(u, 8);
    UnsignedBytes(u, 8)
  }

  /** `ByteBuffer.getLong` in big-endian order. */
  function Int64Of(s: seq<byte>): (v: int64)
    requires |s| == 8
  {
    Pow256Widths();
    var u := Unsigned(s);
    if u >= TWO_63 then u - TWO_64 else u
  }

  /** `ByteBuffer.putInt` in big-endian order: four bytes of the two's complement of `v`. */
  function Int32Bytes(v: int32): (s: seq<byte>)
    ensures |s| == 4
  {
    Pow256Widths();
    var u := if v < 0 then v + TWO_32 else v;
    UnsignedOfBytes(u, 4);
    UnsignedBytes(u, 4)
  }

  /** `ByteBuffer.getInt` in big-endian order. */
  function Int32Of(s: seq<byte>): (v: int32)
    requires |s| == 4
  {
    Pow256Widths();
    var u := Unsigned(s);
    if u >= TWO_31 then u - TWO_32 else u
  }

  /** The eight bytes of `v` read as an unsigned number are `v` modulo 2^64. */
  lemma Int64BytesValue(v: int64)
    ensures (Unsigned(Int64Bytes(v)) - v) % TWO_64 == 0
  {
    Pow256Widths();
    UnsignedOfBytes(if v < 0 then v + TWO_64 else v, 8);
  }

  /** `getLong` gives the unsigned value of the bytes modulo 2^64, in the `long` range. */
  lemma Int64OfValue(s: seq<byte>)
    requires |s| == 8
    ensures (Int64Of(s) - Unsigned(s)) % TWO_64 == 0
  {
    Pow256Widths();
    assert Unsigned(s) < TWO_64;
  }

  /** The four bytes of `v` read as an unsigned number are `v` modulo 2^32. */
  lemma Int32BytesValue(v: int32)
    ensures (Unsigned(Int32Bytes(v)) - v) % TWO_32 == 0
  {
    Pow256Widths();
    UnsignedOfBytes(if v < 0 then v + TWO_32 else v, 4);
  }

  /** `getInt` gives the unsigned value of the bytes modulo 2^32, in the `int` range. */
  lemma Int32OfValue(s: seq<byte>)
    requires |s| == 4
    ensures (Int32Of(s) - Unsigned(s)) % TWO_32 == 0
  {
    Pow256Widths();
    assert Unsigned(s) < TWO_32;
  }

  lemma Int64RoundTrip(v: int64)
    ensures Int64Of(Int64Bytes(v)) == v
  {
    Pow256Widths();
    UnsignedOfBytes(if v < 0 then v + TWO_64 else v, 8);
  }

  lemma Int64BytesOf(s: seq<byte>)
    requires |s| == 8
    ensures Int64Bytes(Int64Of(s)) == s
  {
    Pow256Widths();
    BytesOfUnsigned(s);
  }

  lemma Int32RoundTrip(v: int32)
    ensures Int32Of(Int32Bytes(v)) == v
  {
    Pow256Widths();
    UnsignedOfBytes(if v < 0 then v + TWO_32 else v, 4);
  }

  lemma Int32BytesOf(s: seq<byte>)
    requires |s| == 4
    ensures Int32Bytes(Int32Of(s)) == s
  {
    Pow256Widths();
    BytesOfUnsigned(s);
  }

  /** `n` zero bytes: a freshly allocated Java `byte[n]`. */
  function Zeros(n: nat): (s: seq<byte>)
    ensures |s| == n && forall i :: 0 <= i < n ==> s[i] == 0
  {
    seq(n, _ => 0)
  }

  /** `s` with the bytes `b` written at `offset`. */
  function Splice(s: seq<byte>, offset: nat, b: seq<byte>): (r: seq<byte>)
    requires offset + |b| <= |s|
    ensures |r| == |s|
    ensures r[offset..offset + |b|] == b
    ensures forall i :: 0 <= i < |s| && !(offset <= i < offset + |b|) ==> r[i] == s[i]
  {
    s[..offset] + b + s[offset + |b|..]
  }

  /** Two adjacent writes are one write of their concatenation. */
  lemma SpliceAdjacent(s: seq<byte>, offset: nat, a: seq<byte>, b: seq<byte>)
    requires offset + |a| + |b| <= |s|
    ensures Splice(Splice(s, offset, a), offset + |a|, b) == Splice(s, offset, a + b)
  {
    var l := Splice(Splice(s, offset, a), offset + |a|, b);
    var r := Splice(s, offset, a + b);
    forall i | 0 <= i < |s|
      ensures l[i] == r[i]
    {
      if offset <= i < offset + |a| {
        assert r[offset..offset + |a| + |b|][i - offset] == (a + b)[i - offset];
      } else if offset + |a| <= i < offset + |a| + |b| {
        assert r[offset..offset + |a| + |b|][i - offset] == (a + b)[i - offset];
        assert l[offset + |a|..offset + |a| + |b|][i - offset - |a|] == b[i - offset - |a|];
      }
    }
  }

  /** Writes `b` into `data` from `offset` on, one byte at a time. */
  method Put(data: array<byte>, offset: nat, b: seq<byte>)
    requires offset + |b| <= data.Length
    modifies data
    ensures data[..] == Splice(old(data[..]), offset, b)
  {
    for i := 0 to |b|
      invariant forall k :: 0 <= k < data.Length ==>
        data[k] == if offset <= k < offset + i then b[k - offset] else old(data[k])
    {
      data[offset + i] := b[i];
    }
    ghost var r := Splice(old(data[..]), offset, b);
    assert forall k :: 0 <= k < data.Length ==> data[k] == r[k];
  }

  /**
   * `ByteBuffer.wrap(data, offset, Long.SIZE).putLong(v)`: `wrap` demands
   * `Long.SIZE` (64, a bit count) bytes from `offset`; only eight are written.
   */
  method PutLong(data: array<byte>, offset: nat, v: int64)
    requires offset + LONG_SIZE <= data.Length
    modifies data
    ensures data[..] == Splice(old(data[..]), offset, Int64Bytes(v))
  {
    Put(data, offset, Int64Bytes(v));
  }

  /** `ByteBuffer.wrap(data, offset, Integer.SIZE).putInt(v)`. */
  method PutInt(data: array<byte>, offset: nat, v: int32)
    requires offset + INT_SIZE <= data.Length
    modifies data
    ensures data[..] == Splice(old(data[..]), offset, Int32Bytes(v))
  {
    Put(data, offset, Int32Bytes(v));
  }

  /** `ByteBuffer.wrap(data, offset, Long.SIZE).getLong()`. */
  function LongAt(data: seq<byte>, offset: nat): (v: int64)
    requires offset + LONG_SIZE <= |data|
  {
    Int64Of(data[offset..offset + 8])
  }

  /** `ByteBuffer.wrap(data, offset, Integer.SIZE).getInt()`. */
  function IntAt(data: seq<byte>, offset: nat): (v: int32)
    requires offset + INT_SIZE <= |data|
  {
    Int32Of(data[offset..offset + 4])
  }

  /** The long read at `offset` is the one whose bytes are those at `offset`. */
  lemma LongAtBytes(data: seq<byte>, offset: nat)
    requires offset + LONG_SIZE <= |data|
    ensures Int64Bytes(LongAt(data, offset)) == data[offset..offset + 8]
  {
    Int64BytesOf(data[offset..offset + 8]);
  }

  /** The int read at `offset` is the one whose bytes are those at `offset`. */
  lemma IntAtBytes(data: seq<byte>, offset: nat)
    requires offset + INT_SIZE <= |data|
    ensures Int32Bytes(IntAt(data, offset)) == data[offset..offset + 4]
  {
    Int32BytesOf(data[offset..offset + 4]);
  }

  /** Reading a long back where it was written gives the value written. */
  lemma LongAtSplice(s: seq<byte>, offset: nat, v: int64)
    requires offset + LONG_SIZE <= |s|
    ensures LongAt(Splice(s, offset, Int64Bytes(v)), offset) == v
  {
    Int64RoundTrip(v);
  }

  /** Reading an int back where it was written gives the value written. */
  lemma IntAtSplice(s: seq<byte>, offset: nat, v: int32)
    requires offset + INT_SIZE <= |s|
    ensures IntAt(Splice(s, offset, Int32Bytes(v)), offset) == v
  {
    Int32RoundTrip(v);
  }
}
