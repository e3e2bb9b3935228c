/** Bytes, big-endian integers and the small wrappers every other module uses. */
module Basics {

  type byte = b: int | 0 <= b < 0x100
  type u16 = n: int | 0 <= n < 0x1_0000
  type u32 = n: int | 0 <= n < 0x1_0000_0000

  datatype Option<+T> = None | Some(value: T)

  datatype Result<+T, +E> = Ok(value: T) | Err(error: E)

  function Min(a: nat, b: nat): nat {
    if a < b then a else b
  }

  /** `u16::to_be_bytes`. */
  function U16Bytes(n: u16): (b: seq<byte>)
    ensures |b| == 2
  {
    [n / 0x100, n % 0x100]
  }

  /** `u16::from_be_bytes`. */
  function U16Of(hi: byte, lo: byte): u16 {
    hi * 0x100 + lo
  }

  /** `u32::to_be_bytes`. */
  function U32Bytes(n: u32): (b: seq<byte>)
    ensures |b| == 4
  {
    U16Bytes(n / 0x1_0000) + U16Bytes(n % 0x1_0000)
  }

  /** `u32::from_be_bytes`. */
  function U32Of(b0: byte, b1: byte, b2: byte, b3: byte): u32 {
    U16Of(b0, b1) * 0x1_0000 + U16Of(b2, b3)
  }
}
