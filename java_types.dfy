/**
  The few Java value types the graph-reading and printing code relies on: the 32-bit
  `int`, and a reference that may be `null` (or an exception instead of a value),
  written as an option.
*/
module JavaTypes {

  /** Java's `int`. */
  type Int32 = x: int | -0x8000_0000 <= x < 0x8000_0000

  /** A value, or none (Java's `null`, or an exception in place of a result). */
  datatype Option<T> = None | Some(value: T)
}
