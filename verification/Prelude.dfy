/** Values shared by every component: optional pointers, fallible results and
    Go's fixed-width integers. */
module Prelude {

  /** A Go pointer that may be nil. */
  datatype Option<+T> = None | Some(value: T)

  /** A Go `(value, error)` return. */
  datatype Result<+T, +E> = Ok(value: T) | Err(error: E)

  /** The API server's answer to a write. */
  datatype WriteOutcome = Written | Conflict | WriteFailed

  const TWO_31 := 0x8000_0000
  const TWO_32 := 0x1_0000_0000
  const TWO_63 := 0x8000_0000_0000_0000
  const TWO_64 := 0x1_0000_0000_0000_0000

  /** The value an `int64` holds after an operation whose exact result is `x`. */
  function Wrap64(x: int): (r: int)
    ensures -TWO_63 <= r < TWO_63
    ensures -TWO_63 <= x < TWO_63 ==> r == x
  {
    (x + TWO_63) % TWO_64 - TWO_63
  }

  /** The value an `int32` holds after an operation whose exact result is `x`. */
  function Wrap32(x: int): (r: int)
    ensures -TWO_31 <= r < TWO_31
    ensures -TWO_31 <= x < TWO_31 ==> r == x
  {
    (x + TWO_31) % TWO_32 - TWO_31
  }
}
