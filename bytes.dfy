/**
 * Bytes and fixed-width unsigned integers, with the little-endian encoding
 * that IEEE 802.11 uses for every multi-byte field (htole16/htole64 on
 * assembly, le16toh/le64toh on disassembly).
 */
module Bytes {

  type byte = x: int | 0 <= x < 0x100
  type u16 = x: int | 0 <= x < 0x1_0000
  type u32 = x: int | 0 <= x < 0x1_0000_0000
  type u64 = x: int | 0 <= x < 0x1_0000_0000_0000_0000

  /** 256 to the power n: the number of values an n-byte field can hold. */
  function Pow256(n: nat): (r: nat)
    ensures r >= 1
  {
    if n == 0 then 1 else 256 * Pow256(n - 1)
  }

  /** The n low-order bytes of x, least significant first. */
  function LE(x: nat, n: nat): (r: seq<byte>)
    ensures |r| == n
  {
    if n == 0 then [] else [x % 256] + LE(x / 256, n - 1)
  }

  /** The value of a little-endian byte string. */
  function FromLE(s: seq<byte>): (v: nat)
    ensures v < Pow256(|s|)
  {
    if s == [] then 0 else s[0] + 256 * FromLE(s[1..])
  }

  /** Reading back what LE wrote gives the value, whenever it fits in n bytes. */
  lemma {:induction false} FromLEOfLE(x: nat, n: nat)
    requires x < Pow256(n)
    ensures FromLE(LE(x, n)) == x
  {
    if n > 0 {
      FromLEOfLE(x / 256, n - 1);
      assert LE(x, n)[1..] == LE(x / 256, n - 1);
    }
  }

  /** Writing back what FromLE read gives the same bytes. */
  lemma {:induction false} LEOfFromLE(s: seq<byte>)
    ensures LE(FromLE(s), |s|) == s
  {
    if s != [] {
      LEOfFromLE(s[1..]);
      var v := FromLE(s);
      assert v % 256 == s[0] && v / 256 == FromLE(s[1..]);
    }
  }

  /** le16toh of a 2-byte field. */
  function U16Of(s: seq<byte>): u16
    requires |s| == 2
  {
    (s[0] as int) + 0x100 * (s[1] as int)
  }

  /** le64toh of an 8-byte field. */
  function U64Of(s: seq<byte>): u64
    requires |s| == 8
  {
    (s[0] as int) + 0x100 * (s[1] as int) + 0x1_0000 * (s[2] as int) + 0x100_0000 * (s[3] as int) +
    0x1_0000_0000 * (s[4] as int) + 0x100_0000_0000 * (s[5] as int) +
    0x1_0000_0000_0000 * (s[6] as int) + 0x100_0000_0000_0000 * (s[7] as int)
  }

  /** le16toh reads a 2-byte field as its little-endian value. */
  lemma U16OfIsFromLE(s: seq<byte>)
    requires |s| == 2
    ensures U16Of(s) == FromLE(s)
  {
    assert s[1..][1..] == [];
  }

  /** le64toh reads an 8-byte field as its little-endian value. */
  lemma U64OfIsFromLE(s: seq<byte>)
    requires |s| == 8
    ensures U64Of(s) == FromLE(s)
  {
    var t1 := s[1..];
    var t2 := t1[1..];
    var t3 := t2[1..];
    var t4 := t3[1..];
    var t5 := t4[1..];
    var t6 := t5[1..];
    var t7 := t6[1..];
    assert t7[1..] == [];
    assert FromLE(t7) == s[7] as int;
    assert FromLE(t6) == (s[6] as int) + 0x100 * (s[7] as int);
    assert FromLE(t5) == (s[5] as int) + 0x100 * FromLE(t6);
    assert FromLE(t4) == (s[4] as int) + 0x100 * FromLE(t5);
    assert FromLE(t3) == (s[3] as int) + 0x100 * FromLE(t4);
    assert FromLE(t2) == (s[2] as int) + 0x100 * FromLE(t3);
    assert FromLE(t1) == (s[1] as int) + 0x100 * FromLE(t2);
  }

  lemma U64Fits(x: u64)
    ensures x < Pow256(8)
  {
    assert Pow256(8) == 0x1_0000_0000_0000_0000;
  }

  /** htole16 followed by le16toh is the identity. */
  lemma LE16RoundTrip(x: u16)
    ensures U16Of(LE(x, 2)) == x
  {
    FromLEOfLE(x, 2);
    U16OfIsFromLE(LE(x, 2));
  }

  /** htole64 followed by le64toh is the identity. */
  lemma LE64RoundTrip(x: u64)
    ensures U64Of(LE(x, 8)) == x
  {
    U64Fits(x);
    FromLEOfLE(x, 8);
    U64OfIsFromLE(LE(x, 8));
  }

  /** le16toh followed by htole16 gives back the bytes. */
  lemma U16OfRoundTrip(s: seq<byte>)
    requires |s| == 2
    ensures LE(U16Of(s), 2) == s
  {
    U16OfIsFromLE(s);
    LEOfFromLE(s);
  }

  /** le64toh followed by htole64 gives back the bytes. */
  lemma U64OfRoundTrip(s: seq<byte>)
    requires |s| == 8
    ensures LE(U64Of(s), 8) == s
  {
    U64OfIsFromLE(s);
    LEOfFromLE(s);
  }
}
