/** The fixed-width integers of the 32-bit target, as subranges of int. */
module Words {
  const TWO16 := 0x1_0000
  const TWO31 := 0x8000_0000
  const TWO32 := 0x1_0000_0000
  const TWO63 := 0x8000_0000_0000_0000
  const TWO64 := 0x1_0000_0000_0000_0000

  type Byte = x: int | 0 <= x < 0x100
  type UInt16 = x: int | 0 <= x < TWO16
  type UInt32 = x: int | 0 <= x < TWO32
  type UInt64 = x: int | 0 <= x < TWO64
  type Int32 = x: int | -TWO31 <= x < TWO31
  type Int64 = x: int | -TWO63 <= x < TWO63

  /** Conversion to an unsigned 32-bit word: reduction modulo 2^32. */
  function ToUInt32(x: int): UInt32 {
    x % TWO32
  }

  /** Conversion to a signed 32-bit word: the two's complement reading of the low 32 bits. */
  function ToInt32(x: int): Int32 {
    var m := x % TWO32;
    if m < TWO31 then m else m - TWO32
  }

  /** Conversion to an unsigned 64-bit word. */
  function ToUInt64(x: int): UInt64 {
    x % TWO64
  }

  /** Conversion to a signed 64-bit word. */
  function ToInt64(x: int): Int64 {
    var m := x % TWO64;
    if m < TWO63 then m else m - TWO64
  }

  /** A value in the signed range survives being cut to a word and read back. */
  lemma SignedValue(x: int)
    requires -TWO31 <= x < TWO31
    ensures ToInt32(x) == x && ToInt32(ToUInt32(x)) == x
  {
  }

  /** A value in the unsigned range is its own word. */
  lemma UnsignedValue(x: int)
    requires 0 <= x < TWO32
    ensures ToUInt32(x) == x
  {
  }
}
