/** Bytes, little-endian fixed-width integers and the CRC-32 checksum used by the BOF codec. */
module Bytes {

  /** One byte, as Rust's `u8`. */
  type byte = b: int | 0 <= b < 256

  /** A value of Rust's `u32`, the type of a CRC-32 checksum. */
  type u32 = n: nat | n < 0x1_0000_0000

  /** 256 to the power `k`: the number of values a `k`-byte unsigned integer can hold. */
  function Pow256(k: nat): (p: nat)
    ensures p > 0
  {
    if k == 0 then 1 else 256 * Pow256(k - 1)
  }

  lemma Pow256Widths()
    ensures Pow256(4) == 0x1_0000_0000
    ensures Pow256(8) == 0x1_0000_0000_0000_0000
  {
  }

  /** `n` as `width` bytes, least significant first (Rust's `to_le_bytes` on a `width`-byte unsigned integer). */
  function ToLeBytes(n: nat, width: nat): (r: seq<byte>)
    ensures |r| == width
  {
    if width == 0 then [] else [n % 256] + ToLeBytes(n / 256, width - 1)
  }

  /** The unsigned integer whose little-endian bytes are `s` (Rust's `from_le_bytes`). */
  function FromLeBytes(s: seq<byte>): (n: nat)
    ensures n < Pow256(|s|)
  {
    if s == [] then 0 else s[0] + 256 * FromLeBytes(s[1..])
  }

  /** Decoding the encoding of a value that fits in `width` bytes gives the value back. */
  lemma {:induction false} FromToLeBytes(n: nat, width: nat)
    requires n < Pow256(width)
    ensures FromLeBytes(ToLeBytes(n, width)) == n
  {
    if width > 0 {
      FromToLeBytes(n / 256, width - 1);
      assert ToLeBytes(n, width)[1..] == ToLeBytes(n / 256, width - 1);
    }
  }

  /** Encoding a decoded byte string gives the same bytes back. */
  lemma {:induction false} ToFromLeBytes(s: seq<byte>)
    ensures ToLeBytes(FromLeBytes(s), |s|) == s
  {
    if s != [] {
      ToFromLeBytes(s[1..]);
      var n := FromLeBytes(s);
      assert n % 256 == s[0] && n / 256 == FromLeBytes(s[1..]);
    }
  }

  /** The reflected generator polynomial of the CRC-32 of IEEE 802.3 clause 3.2.9. */
  const CRC32_POLY: bv32 := 0xEDB8_8320

  /** Shifts `bits` bits out of the CRC register, one at a time. */
  function CrcShift(crc: bv32, bits: nat): bv32
    decreases bits
  {
    if bits == 0 then crc
    else CrcShift(if crc & 1 == 1 then (crc >> 1) ^ CRC32_POLY else crc >> 1, bits - 1)
  }

  /** Feeds `data` into the CRC register, byte by byte. */
  function CrcUpdate(crc: bv32, data: seq<byte>): bv32
    decreases |data|
  {
    if data == [] then crc else CrcUpdate(CrcShift(crc ^ (data[0] as bv32), 8), data[1..])
  }

  /** The CRC-32 of `data`, as `crc32fast::hash` computes it. A reference definition: no property of the codec depends on it. */
  function Crc32(data: seq<byte>): u32
  {
    (CrcUpdate(0xFFFF_FFFF, data) ^ 0xFFFF_FFFF) as u32
  }
}
