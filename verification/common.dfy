/** Shared vocabulary: optional values, results with a typed error, and bytes. */
module Common {

  /** An optional value; `None` plays the role of Python's `None` / a missing row. */
  datatype Option<+T> = None | Some(value: T)

  /** The outcome of an operation that may raise: `Failure` carries the raised error. */
  datatype Result<+T, +E> = Success(value: T) | Failure(error: E)

  /** One octet of a binary payload (Python `bytes`). */
  newtype byte = x: int | 0 <= x < 256

  type Bytes = seq<byte>
}
