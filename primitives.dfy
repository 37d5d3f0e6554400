/** Small value types shared by the model of the book-catalogue API. */
module Primitives {

  /** A value that may be absent: the C# `null` of a reference-typed property. */
  datatype Option<+T> = None | Some(value: T)

  /** The C# `int` type: a 32-bit two's-complement integer. */
  newtype Int32 = x: int | -0x8000_0000 <= x < 0x8000_0000

  /** `int.MaxValue`. */
  const Int32MaxValue: Int32 := 0x7FFF_FFFF
}
