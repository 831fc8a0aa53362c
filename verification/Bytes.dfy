/** Machine-level value types shared by the models. */
module Bytes {
  type byte = n: int | 0 <= n < 256

  /** A NUL-terminated string, without its terminator. */
  type CString = s: seq<byte> | 0 !in s

  newtype int32 = x: int | -0x8000_0000 <= x < 0x8000_0000
}
