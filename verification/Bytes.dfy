/** Bytes and little-endian integers. */
module Bytes {

  type byte = x: int | 0 <= x < 256

  const TWO16 := 0x1_0000
  const TWO32 := 0x1_0000_0000

  /** `u16::to_le_bytes`, on an argument already reduced to sixteen bits. */
  function Le16(n: nat): (r: seq<byte>)
    requires n < TWO16
    ensures |r| == 2 && FromLe16(r) == n
  {
    [n % 256, n / 256]
  }

  /** `u32::to_le_bytes`, on an argument already reduced to thirty-two bits. */
  function Le32(n: nat): (r: seq<byte>)
    requires n < TWO32
    ensures |r| == 4 && FromLe32(r) == n
  {
    var q1, q2, q3 := n / 256, n / 256 / 256, n / 256 / 256 / 256;
    [n % 256, q1 % 256, q2 % 256, q3]
  }

  /** `u16::from_le_bytes` */
  function FromLe16(s: seq<byte>): (r: nat)
    requires |s| == 2
    ensures r < TWO16
  {
    var b0: int, b1: int := s[0], s[1];
    b0 + 256 * b1
  }

  /** `u32::from_le_bytes` */
  function FromLe32(s: seq<byte>): (r: nat)
    requires |s| == 4
    ensures r < TWO32
  {
    var b0: int, b1: int, b2: int, b3: int := s[0], s[1], s[2], s[3];
    b0 + 256 * (b1 + 256 * (b2 + 256 * b3))
  }
}

/** CRC-32 (reflected, polynomial 0xEDB88320), as `crc32fast` computes it. */
module Checksum {
  import opened Bytes

  function ShiftBit(c: bv32): bv32 {
    if c & 1 == 1 then (c >> 1) ^ 0xEDB8_8320 else c >> 1
  }

  function ShiftBits(c: bv32, n: nat): bv32
    decreases n
  {
    if n == 0 then c else ShiftBits(ShiftBit(c), n - 1)
  }

  function Update(c: bv32, data: seq<byte>): bv32
    decreases |data|
  {
    if data == [] then c else Update(ShiftBits(c ^ (data[0] as bv32), 8), data[1..])
  }

  function Crc32(data: seq<byte>): (r: nat)
    ensures r < TWO32
  {
    (Update(0xFFFF_FFFF, data) ^ 0xFFFF_FFFF) as int
  }
}
