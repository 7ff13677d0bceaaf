/** Machine-level vocabulary shared by every module: bytes, byte strings and 64-bit words. */
module Bytes {

  newtype byte = x: int | 0 <= x < 0x100

  type Bytes = seq<byte>

  const TWO64: nat := 0x1_0000_0000_0000_0000

  /** An unsigned 64-bit machine word; arithmetic that may wrap says so with `Wrap`. */
  type u64 = x: nat | x < 0x1_0000_0000_0000_0000

  /** Two's-complement wrap-around of an unsigned 64-bit result. */
  function Wrap(x: int): u64 { x % TWO64 }

  datatype Option<+T> = None | Some(value: T)

  /** The prefix of `s` of at most `max` bytes: what a bounded copy keeps. */
  function Clip(s: Bytes, max: nat): (r: Bytes)
    ensures |s| <= max ==> r == s
    ensures |r| <= max && r <= s
  {
    if |s| <= max then s else s[..max]
  }
}
