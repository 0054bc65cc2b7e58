/**
 * The binary stream the recording library writes and the search reads:
 * fixed-width integers are stored as their in-memory bytes on the
 * little-endian x86-64 target, lowest byte first.
 */
module Bytes {
  import opened Wrappers
  import opened BasicTypes
  import opened Arith

  /** 256^n: the number of values of an `n`-byte field. */
  function Pow256(n: nat): (r: nat)
    ensures r >= 1
  {
    if n == 0 then 1 else 256 * Pow256(n - 1)
  }

  /** The byte-wise power is the bit-wise one: 256^n = 2^(8n). */
  lemma {:induction false} Pow256IsPow2(n: nat)
    ensures Pow256(n) == Pow2(8 * n)
  {
    if n > 0 {
      Pow256IsPow2(n - 1);
      Pow2Values();
      Pow2Add(8, 8 * (n - 1));
    }
  }

  lemma Pow256Values()
    ensures Pow256(1) == 0x100 && Pow256(4) == 0x1_0000_0000 && Pow256(8) == TWO_64
  {
  }

  /** The `n` bytes of `x`, lowest first. */
  function LittleEndian(x: nat, n: nat): (bs: seq<Byte>)
    ensures |bs| == n
  {
    if n == 0 then [] else [x % 256] + LittleEndian(x / 256, n - 1)
  }

  /** The number whose bytes, lowest first, are `bs`. */
  function FromLittleEndian(bs: seq<Byte>): (x: nat)
    ensures x < Pow256(|bs|)
  {
    if bs == [] then 0 else bs[0] + 256 * FromLittleEndian(bs[1..])
  }

  /** Writing `x` in `n` bytes and reading them back gives `x` when it fits. */
  lemma {:induction false} LittleEndianRoundTrip(x: nat, n: nat)
    requires x < Pow256(n)
    ensures FromLittleEndian(LittleEndian(x, n)) == x
  {
    if n > 0 {
      var bs := LittleEndian(x, n);
      assert bs[1..] == LittleEndian(x / 256, n - 1);
      LittleEndianRoundTrip(x / 256, n - 1);
    }
  }

  /** Reading any `n` bytes and writing the number back gives the same bytes. */
  lemma {:induction false} FromLittleEndianRoundTrip(bs: seq<Byte>)
    ensures LittleEndian(FromLittleEndian(bs), |bs|) == bs
  {
    if bs != [] {
      var x := FromLittleEndian(bs);
      var y := FromLittleEndian(bs[1..]);
      assert x % 256 == bs[0] && x / 256 == y;
      FromLittleEndianRoundTrip(bs[1..]);
    }
  }

  // ------------------------------------------------------------ fields

  function U64Bytes(x: UInt64): (bs: seq<Byte>)
    ensures |bs| == 8
  {
    LittleEndian(x, 8)
  }

  /** A `long long` in two's complement. */
  function I64Bytes(x: Int64): (bs: seq<Byte>)
    ensures |bs| == 8
  {
    LittleEndian(ToUInt64(x), 8)
  }

  function U32Bytes(x: UInt32): (bs: seq<Byte>)
    ensures |bs| == 4
  {
    LittleEndian(x, 4)
  }

  /** An `int` in two's complement. */
  function I32Bytes(x: Int32): (bs: seq<Byte>)
    ensures |bs| == 4
  {
    LittleEndian(x % 0x1_0000_0000, 4)
  }

  function ReadU64(bs: seq<Byte>): (x: UInt64)
    requires |bs| == 8
  {
    Pow256Values();
    FromLittleEndian(bs)
  }

  function ReadI64(bs: seq<Byte>): (x: Int64)
    requires |bs| == 8
  {
    ToInt64(ReadU64(bs))
  }

  function ReadU32(bs: seq<Byte>): (x: UInt32)
    requires |bs| == 4
  {
    Pow256Values();
    FromLittleEndian(bs)
  }

  function ReadI32(bs: seq<Byte>): (x: Int32)
    requires |bs| == 4
  {
    var u := ReadU32(bs);
    if u < 0x8000_0000 then u else u - 0x1_0000_0000
  }

  /** Every fixed-width field reads back as written. */
  lemma FieldRoundTrips(u64: UInt64, i64: Int64, u32: UInt32, i32: Int32)
    ensures ReadU64(U64Bytes(u64)) == u64
    ensures ReadI64(I64Bytes(i64)) == i64
    ensures ReadU32(U32Bytes(u32)) == u32
    ensures ReadI32(I32Bytes(i32)) == i32
  {
    Pow256Values();
    LittleEndianRoundTrip(u64, 8);
    LittleEndianRoundTrip(ToUInt64(i64), 8);
    LittleEndianRoundTrip(u32, 4);
    LittleEndianRoundTrip(i32 % 0x1_0000_0000, 4);
  }

  // ------------------------------------------------------------ reading

  /** `istream::read` of `n` bytes: fails when fewer remain. */
  function Take(s: seq<Byte>, n: nat): (r: Option<(seq<Byte>, seq<Byte>)>)
    ensures r.Some? <==> n <= |s|
    ensures r.Some? ==> r.value.0 + r.value.1 == s && |r.value.0| == n
  {
    if n <= |s| then Some((s[..n], s[n..])) else None
  }
}
