/** Fixed-width little-endian integers and fixed-width character fields, as
    the `struct` package lays them out in a byte buffer. */
module Bytes {

  type byte = x: int | 0 <= x < 0x100
  type uint32 = x: int | 0 <= x < 0x1_0000_0000

  const TWO_TO_32: int := 0x1_0000_0000
  const TWO_TO_63: int := 0x8000_0000_0000_0000
  const TWO_TO_64: int := 0x1_0000_0000_0000_0000

  function Pow256(w: nat): (r: int)
    ensures r > 0
  {
    if w == 0 then 1 else 256 * Pow256(w - 1)
  }

  lemma Pow256Widths()
    ensures Pow256(4) == TWO_TO_32
    ensures Pow256(8) == TWO_TO_64
  {
  }

  /** The low `w` bytes of `n`, least significant first. */
  function LittleEndian(n: nat, w: nat): (r: seq<byte>)
    ensures |r| == w
  {
    if w == 0 then [] else [n % 256] + LittleEndian(n / 256, w - 1)
  }

  /** The unsigned value of a little-endian byte string. */
  function FromLittleEndian(bs: seq<byte>): (n: nat)
    ensures n < Pow256(|bs|)
  {
    if bs == [] then 0 else bs[0] + 256 * FromLittleEndian(bs[1..])
  }

  lemma {:induction false} FromLittleEndianInverts(n: nat, w: nat)
    requires n < Pow256(w)
    ensures FromLittleEndian(LittleEndian(n, w)) == n
  {
    if w > 0 {
      var bs := LittleEndian(n, w);
      assert bs[1..] == LittleEndian(n / 256, w - 1);
      FromLittleEndianInverts(n / 256, w - 1);
    }
  }

  lemma {:induction false} LittleEndianInverts(bs: seq<byte>)
    ensures LittleEndian(FromLittleEndian(bs), |bs|) == bs
  {
    if bs != [] {
      var n := FromLittleEndian(bs);
      var m := FromLittleEndian(bs[1..]);
      assert n % 256 == bs[0] && n / 256 == m;
      LittleEndianInverts(bs[1..]);
    }
  }

  /** `word32Ule`: an unsigned 32-bit field. */
  function U32(x: uint32): (r: seq<byte>)
    ensures |r| == 4
  {
    LittleEndian(x, 4)
  }

  function ReadU32(bs: seq<byte>): (x: uint32)
    requires |bs| == 4
  {
    Pow256Widths();
    FromLittleEndian(bs)
  }

  lemma U32RoundTrip(x: uint32)
    ensures ReadU32(U32(x)) == x
  {
    Pow256Widths();
    FromLittleEndianInverts(x, 4);
  }

  lemma ReadU32RoundTrip(bs: seq<byte>)
    requires |bs| == 4
    ensures U32(ReadU32(bs)) == bs
  {
    LittleEndianInverts(bs);
  }

  /** `word64Sle`: a signed 64-bit field in two's complement. A value outside
      the signed 64-bit range is written modulo 2^64. */
  function I64(v: int): (r: seq<byte>)
    ensures |r| == 8
  {
    LittleEndian(v % TWO_TO_64, 8)
  }

  function ReadI64(bs: seq<byte>): (v: int)
    requires |bs| == 8
    ensures -TWO_TO_63 <= v < TWO_TO_63
  {
    Pow256Widths();
    var u := FromLittleEndian(bs);
    if u < TWO_TO_63 then u else u - TWO_TO_64
  }

  lemma I64RoundTrip(v: int)
    requires -TWO_TO_63 <= v < TWO_TO_63
    ensures ReadI64(I64(v)) == v
  {
    Pow256Widths();
    FromLittleEndianInverts(v % TWO_TO_64, 8);
  }

  /** `word8Sle`: a signed byte. */
  function ReadI8(b: byte): (v: int)
    ensures -128 <= v < 128
  {
    if b < 128 then b else b - 256
  }

  /** The byte written for one character of a `chars` field. */
  function CharByte(c: char): byte
  {
    (c as int) % 256
  }

  /** `chars(name, w)`: the string's characters one byte each, cut or
      zero-filled to exactly `w` bytes. */
  function Chars(s: string, w: nat): (r: seq<byte>)
    ensures |r| == w
  {
    seq(w, k requires 0 <= k < w => if k < |s| then CharByte(s[k]) else 0)
  }

  /** Reading a `chars` field back: one character per byte. */
  function ReadChars(bs: seq<byte>): (s: string)
    ensures |s| == |bs|
  {
    seq(|bs|, k requires 0 <= k < |bs| => bs[k] as char)
  }

  /** Every character fits in one byte (trytes, hashes and addresses do). */
  predicate IsByteString(s: string)
  {
    forall k :: 0 <= k < |s| ==> (s[k] as int) < 256
  }

  lemma CharsRoundTrip(s: string)
    requires IsByteString(s)
    ensures ReadChars(Chars(s, |s|)) == s
  {
    var r := ReadChars(Chars(s, |s|));
    forall k | 0 <= k < |s| ensures r[k] == s[k] {
      assert (s[k] as int) % 256 == s[k] as int;
    }
  }

  lemma ReadCharsIsByteString(bs: seq<byte>)
    ensures IsByteString(ReadChars(bs))
    ensures Chars(ReadChars(bs), |bs|) == bs
  {
  }

  lemma AppendAssociates<T>(a: seq<T>, b: seq<T>, c: seq<T>)
    ensures a + (b + c) == (a + b) + c
  {
  }

  /** A slice within the first part of a concatenation. */
  lemma SliceOfFront<T>(a: seq<T>, b: seq<T>, lo: nat, hi: nat)
    requires lo <= hi <= |a|
    ensures (a + b)[lo..hi] == a[lo..hi]
  {
  }
}
