/**
 * Exceptions raised by the bit-vector operations, modelled as values.
 * An operation that the C# code lets throw returns `Err(e)` here.
 */
module Outcome {
  datatype Error =
    | IndexOutOfRange     // IndexOutOfRangeException
    | InvalidOperation    // InvalidOperationException
    | Overflow            // OverflowException from a checked context
    | ArgumentOutOfRange  // ArgumentOutOfRangeException from a List<T> indexer or Capacity

  datatype Result<T> = Ok(value: T) | Err(error: Error)

  /** Largest value of C#'s `int`. */
  const IntMax: int := 0x7fff_ffff
  /** 2^64: one past the largest `ulong`. */
  const ULongLimit: int := 0x1_0000_0000_0000_0000

  /** Values of C#'s `ulong`. */
  type ULong = x: int | 0 <= x < 0x1_0000_0000_0000_0000
  /** Values of C#'s `uint`. */
  type UInt = x: int | 0 <= x < 0x1_0000_0000
  /** Values of C#'s `int`. */
  type Int32 = x: int | -0x8000_0000 <= x < 0x8000_0000

  /** An unchecked `(int)` cast of a non-negative integer: keeps the low 32 bits, read as signed. */
  function TruncateToInt32(x: nat): (r: Int32)
    ensures x <= IntMax ==> r == x
    ensures (r - x) % 0x1_0000_0000 == 0
    ensures x % 0x1_0000_0000 <= IntMax ==> r == x % 0x1_0000_0000
    ensures x % 0x1_0000_0000 > IntMax ==> r < 0
  {
    var low := x % 0x1_0000_0000;
    if low <= IntMax then low else low - 0x1_0000_0000
  }

  function Min(a: int, b: int): int {
    if a < b then a else b
  }
}
