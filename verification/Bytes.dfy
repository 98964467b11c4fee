/** Octets and MAC addresses. */
module Bytes {
  newtype Byte = x: int | 0 <= x < 256

  const ETH_ALEN := 6

  type Mac = m: seq<Byte> | |m| == 6 witness [0, 0, 0, 0, 0, 0]

  function Xor(a: Byte, b: Byte): Byte {
    ((a as bv8) ^ (b as bv8)) as Byte
  }

  function XorAll(s: seq<Byte>): Byte {
    if s == [] then 0 else Xor(XorAll(s[..|s| - 1]), s[|s| - 1])
  }
}
