/** Values shared by the asset-stream modules: bytes, the .NET integer widths
    that the stream API takes, seek origins, and the exceptions a stream raises. */
module StreamTypes {

  newtype byte = x: int | 0 <= x < 256

  const Int32Min: int := -0x8000_0000
  const Int32Max: int := 0x7FFF_FFFF
  const Int64Min: int := -0x8000_0000_0000_0000
  const Int64Max: int := 0x7FFF_FFFF_FFFF_FFFF

  /** The range of a C# `int`. */
  predicate IsInt32(x: int) { Int32Min <= x <= Int32Max }

  /** The range of a C# `long`. */
  predicate IsInt64(x: int) { Int64Min <= x <= Int64Max }

  /** The value C#'s unchecked `int` arithmetic produces for the exact value `x`:
      two's-complement wrap-around into the 32-bit range. */
  function Wrap32(x: int): (r: int)
    ensures IsInt32(r)
    ensures IsInt32(x) ==> r == x
    ensures (x - r) % 0x1_0000_0000 == 0
  {
    (x - Int32Min) % 0x1_0000_0000 + Int32Min
  }

  function Min(a: int, b: int): int { if a <= b then a else b }

  /** System.IO.SeekOrigin; its values 0, 1, 2 are the native `whence` codes. */
  datatype SeekOrigin = Begin | Current | End

  /** The exceptions the asset streams raise, by .NET type. */
  datatype Error =
    | FileNotFound        // FileNotFoundException: no such asset
    | ObjectDisposed      // ObjectDisposedException: the stream is closed
    | ArgumentNull        // ArgumentNullException: null buffer
    | ArgumentOutOfRange  // ArgumentOutOfRangeException: negative offset or count
    | Argument            // ArgumentException: offset + count past the buffer
    | IO                  // IOException: the native layer reported a fault
    | NotSupported        // NotSupportedException: SetLength and Write

  datatype Option<T> = None | Some(value: T)

  /** A member that returns a value or throws. */
  datatype Result<T> = Ok(value: T) | Err(error: Error)

  /** A `void` member that returns normally or throws. */
  datatype Outcome = Pass | Fail(error: Error)
}
