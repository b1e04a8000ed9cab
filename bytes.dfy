/**
 * Bytes as java.nio.ByteBuffer sees them: unsigned octets, with 32- and 64-bit
 * two's-complement integers stored big-endian (the default byte order of a ByteBuffer).
 */
module Bytes {

  type byte = x: int | 0 <= x < 256

  const INT32_MIN: int := -0x8000_0000

  /** Java's `int`. */
  type Int32 = x: int | -0x8000_0000 <= x < 0x8000_0000

  /** Java's `long`. */
  type Int64 = x: int | -0x8000_0000_0000_0000 <= x < 0x8000_0000_0000_0000

  function Pow256(n: nat): (r: nat)
    ensures r > 0
  {
    if n == 0 then 1 else 256 * Pow256(n - 1)
  }

  lemma Pow256Values()
    ensures Pow256(4) == 0x1_0000_0000
    ensures Pow256(8) == 0x1_0000_0000_0000_0000
  {
  }

  /** The unsigned value of `s` read most significant byte first. */
  function BigEndian(s: seq<byte>): (r: nat)
    ensures r < Pow256(|s|)
  {
    if s == [] then 0 else BigEndian(s[..|s| - 1]) * 256 + s[|s| - 1]
  }

  /** The `n` bytes that encode `u` most significant byte first. */
  function BigEndianBytes(u: nat, n: nat): (r: seq<byte>)
    requires u < Pow256(n)
    ensures |r| == n
  {
    if n == 0 then [] else BigEndianBytes(u / 256, n - 1) + [u % 256]
  }

  lemma {:induction false} BigEndianRoundTrip(u: nat, n: nat)
    requires u < Pow256(n)
    ensures BigEndian(BigEndianBytes(u, n)) == u
  {
    if n > 0 {
      var s := BigEndianBytes(u, n);
      assert s[..n - 1] == BigEndianBytes(u / 256, n - 1);
      BigEndianRoundTrip(u / 256, n - 1);
    }
  }

  /** `ByteBuffer.getInt(i)`: the signed 32-bit value stored at `i`. */
  function Int32At(s: seq<byte>, i: int): (r: Int32)
    requires 0 <= i && i + 4 <= |s|
  {
    Pow256Values();
    var u := BigEndian(s[i..i + 4]);
    if u < 0x8000_0000 then u else u - 0x1_0000_0000
  }

  /** `ByteBuffer.getLong(i)`: the signed 64-bit value stored at `i`. */
  function Int64At(s: seq<byte>, i: int): (r: Int64)
    requires 0 <= i && i + 8 <= |s|
  {
    Pow256Values();
    var u := BigEndian(s[i..i + 8]);
    if u < 0x8000_0000_0000_0000 then u else u - 0x1_0000_0000_0000_0000
  }

  /** The four bytes `ByteBuffer.putInt(v)` stores. */
  function Int32Bytes(v: Int32): (r: seq<byte>)
    ensures |r| == 4
  {
    Pow256Values();
    BigEndianBytes(if v < 0 then v + 0x1_0000_0000 else v, 4)
  }

  /** The eight bytes `ByteBuffer.putLong(v)` stores. */
  function Int64Bytes(v: Int64): (r: seq<byte>)
    ensures |r| == 8
  {
    Pow256Values();
    BigEndianBytes(if v < 0 then v + 0x1_0000_0000_0000_0000 else v, 8)
  }

  lemma Int32RoundTrip(v: Int32)
    ensures Int32At(Int32Bytes(v), 0) == v
  {
    Pow256Values();
    var s := Int32Bytes(v);
    assert s[0..4] == s;
    BigEndianRoundTrip(if v < 0 then v + 0x1_0000_0000 else v, 4);
  }

  lemma Int64RoundTrip(v: Int64)
    ensures Int64At(Int64Bytes(v), 0) == v
  {
    Pow256Values();
    var s := Int64Bytes(v);
    assert s[0..8] == s;
    BigEndianRoundTrip(if v < 0 then v + 0x1_0000_0000_0000_0000 else v, 8);
  }

  /** An int field reads back the value whose bytes it holds. */
  lemma Int32AtBytes(s: seq<byte>, i: nat, v: Int32)
    requires i + 4 <= |s| && s[i..i + 4] == Int32Bytes(v)
    ensures Int32At(s, i) == v
  {
    Int32RoundTrip(v);
    assert Int32Bytes(v)[0..4] == Int32Bytes(v);
  }

  /** A long field reads back the value whose bytes it holds. */
  lemma Int64AtBytes(s: seq<byte>, i: nat, v: Int64)
    requires i + 8 <= |s| && s[i..i + 8] == Int64Bytes(v)
    ensures Int64At(s, i) == v
  {
    Int64RoundTrip(v);
    assert Int64Bytes(v)[0..8] == Int64Bytes(v);
  }

  /** `s` with `data` copied over it starting at `at`: what a relative bulk `put` leaves behind. */
  function Overwrite(s: seq<byte>, at: nat, data: seq<byte>): (r: seq<byte>)
    requires at + |data| <= |s|
    ensures |r| == |s|
    ensures forall i :: 0 <= i < |s| ==> r[i] == if at <= i < at + |data| then data[i - at] else s[i]
  {
    s[..at] + data + s[at + |data|..]
  }

  /** Copying nothing leaves the bytes as they were. */
  lemma OverwriteNothing(s: seq<byte>, at: nat)
    requires at <= |s|
    ensures Overwrite(s, at, []) == s
  {
  }

  lemma ConcatAssoc(a: seq<byte>, b: seq<byte>, c: seq<byte>)
    ensures a + b + c == a + (b + c)
  {
  }

  /** Copying `d` at index 0 replaces the first |d| bytes. */
  lemma OverwriteHead(s: seq<byte>, d: seq<byte>)
    requires |d| <= |s|
    ensures Overwrite(s, 0, d) == d + s[|d|..]
  {
  }

  /** Copies `data` into `a` from index `at` on; every other element keeps its value. */
  method Store(a: array<byte>, at: nat, data: seq<byte>)
    requires at + |data| <= a.Length
    modifies a
    ensures a[..] == Overwrite(old(a[..]), at, data)
  {
    forall i | 0 <= i < |data| {
      a[at + i] := data[i];
    }
  }
}
