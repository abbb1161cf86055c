/** Fixed-width integers and the byte orders the wire formats use. */
module Bytes {
  type u8 = x: int | 0 <= x < 0x100
  type u16 = x: int | 0 <= x < 0x1_0000
  type u32 = x: int | 0 <= x < 0x1_0000_0000
  type u64 = x: int | 0 <= x < 0x1_0000_0000_0000_0000
  type i16 = x: int | -0x8000 <= x < 0x8000
  type i32 = x: int | -0x8000_0000 <= x < 0x8000_0000

  const TWO32: int := 0x1_0000_0000
  const TWO64: int := 0x1_0000_0000_0000_0000

  function Be16(x: u16): seq<u8> {
    [x / 0x100, x % 0x100]
  }

  function Be32(x: u32): seq<u8> {
    Be16(x / 0x1_0000) + Be16(x % 0x1_0000)
  }

  function Be64(x: u64): seq<u8> {
    Be32(x / TWO32) + Be32(x % TWO32)
  }

  function Le16(x: u16): seq<u8> {
    [x % 0x100, x / 0x100]
  }

  /** The two's complement bit pattern of a signed 32-bit value, and back. */
  function ToUnsigned32(x: i32): u32 {
    x % TWO32
  }

  function ToSigned32(x: u32): i32 {
    if x < 0x8000_0000 then x else x - TWO32
  }

  function ToSigned16(x: u16): i16 {
    if x < 0x8000 then x else x - 0x1_0000
  }

  // Field reads at a byte offset.

  function GetBe16(data: seq<u8>, at: nat): u16
    requires at + 2 <= |data|
  {
    (data[at] as int) * 0x100 + data[at + 1]
  }

  function GetBe32(data: seq<u8>, at: nat): u32
    requires at + 4 <= |data|
  {
    (GetBe16(data, at) as int) * 0x1_0000 + GetBe16(data, at + 2)
  }

  function GetBe64(data: seq<u8>, at: nat): u64
    requires at + 8 <= |data|
  {
    (GetBe32(data, at) as int) * TWO32 + GetBe32(data, at + 4)
  }

  function GetLe16(data: seq<u8>, at: nat): u16
    requires at + 2 <= |data|
  {
    (data[at + 1] as int) * 0x100 + data[at]
  }

  /** `buffer` after `s` has been stored at `at`. */
  function Put(buffer: seq<u8>, at: nat, s: seq<u8>): (r: seq<u8>)
    requires at + |s| <= |buffer|
    ensures |r| == |buffer|
  {
    buffer[..at] + s + buffer[at + |s|..]
  }
}
