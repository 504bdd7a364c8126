/** Fixed-width integer types of the firmware, hardware addresses and the
    two's-complement conversions used by both radio components. */
module Bytes {

  type byte = x: int | 0 <= x < 0x100
  /** `uint8_t` as a configuration value; the same range as `byte`. */
  type uint8 = byte
  type uint16 = x: int | 0 <= x < 0x1_0000
  type uint32 = x: int | 0 <= x < 0x1_0000_0000
  type int16 = x: int | -0x8000 <= x < 0x8000

  /** A 6-byte hardware (MAC) address. */
  type Mac = s: seq<byte> | |s| == 6 witness [0, 0, 0, 0, 0, 0]

  /** A 3-byte message identifier. */
  type MsgId = s: seq<byte> | |s| == 3 witness [0, 0, 0]

  const BroadcastMac: Mac := [0xFF, 0xFF, 0xFF, 0xFF, 0xFF, 0xFF]

  datatype Option<T> = None | Some(value: T)

  /** Conversion of a 16-bit pattern to `int16_t` (two's complement, as
      the ESP32 toolchain does it). */
  function ToInt16(v: uint16): (c: int16)
    ensures c % 0x1_0000 == v
  {
    if v < 0x8000 then v else v - 0x1_0000
  }

  /** Low byte of a 16-bit value: `cmd & 0xFF`. */
  function LowByte(c: int16): byte
  {
    c % 0x100
  }

  /** High byte of a 16-bit value: `(cmd >> 8) & 0xFF`; `>>` on a negative
      value is an arithmetic shift, which is floor division by 256 (the
      same as Dafny's `/` for a positive divisor). */
  function HighByte(c: int16): byte
  {
    (c / 0x100) % 0x100
  }

  /** Reassembling the two bytes of `c` and converting back gives `c`. */
  lemma BytesOfInt16(c: int16)
    ensures ToInt16(HighByte(c) * 0x100 + LowByte(c)) == c
  {
    var u := HighByte(c) * 0x100 + LowByte(c);
    assert u == c % 0x1_0000;
  }

  /** Splitting an `int16` into bytes is injective. */
  lemma BytesDetermineInt16(c: int16, d: int16)
    requires HighByte(c) == HighByte(d) && LowByte(c) == LowByte(d)
    ensures c == d
  {
    BytesOfInt16(c);
    BytesOfInt16(d);
  }
}
