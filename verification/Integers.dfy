/** Fixed-width integers, bytes and the few helpers every module uses. */
module Integers {
  const TWO16: int := 0x1_0000
  const TWO31: int := 0x8000_0000
  const TWO32: int := 0x1_0000_0000
  const TWO63: int := 0x8000_0000_0000_0000
  const TWO64: int := 0x1_0000_0000_0000_0000

  type u8 = x: int | 0 <= x < 0x100
  type u16 = x: int | 0 <= x < 0x1_0000
  type u32 = x: int | 0 <= x < 0x1_0000_0000
  type u64 = x: int | 0 <= x < 0x1_0000_0000_0000_0000
  type byte = u8

  datatype Option<+T> = None | Some(value: T)

  /** Reduction to the width of an unsigned integer. */
  function U8(x: int): u8 { x % 0x100 }

  function U16(x: int): u16 { x % 0x1_0000 }

  function U32(x: int): u32 { x % 0x1_0000_0000 }

  function U64(x: int): u64 { x % 0x1_0000_0000_0000_0000 }

  function Min(a: int, b: int): int { if a <= b then a else b }

  function Max(a: int, b: int): int { if a >= b then a else b }

  function Abs(a: int): nat { if a >= 0 then a else -a }

  /** `std::string::substr(pos, n)`: at most `n` bytes from `pos`. */
  function Substr(s: seq<byte>, pos: nat, n: nat): seq<byte>
    requires pos <= |s|
  {
    s[pos..Min(pos + n, |s|)]
  }
}
