/** Definitions shared by the models: an optional value and the C integer conversions they use. */
module Common {

  /** A value that may be absent: a NULL pointer, an empty slot, a failed lookup. */
  datatype Option<T> = None | Some(value: T)

  const U32Modulus: nat := 0x1_0000_0000

  /** A C int (32 bits, two's complement). */
  newtype int32 = x: int | -0x8000_0000 <= x < 0x8000_0000

  /** Conversion of an int to unsigned int: negative values wrap to the top half. */
  function ToU32(x: int32): (v: nat)
    ensures v < U32Modulus
    ensures x >= 0 ==> v == x as int
    ensures x < 0 ==> v == x as int + U32Modulus
  {
    x as int % U32Modulus
  }
}
