/** Shared value types: bytes, and the Option/Result wrappers that stand for
    Go's `(value, error)` returns. */
module Types {

  /** A Go `byte`. */
  newtype byte = b: int | 0 <= b < 256

  datatype Option<+T> = None | Some(value: T)

  datatype Result<+T, +E> = Success(value: T) | Failure(error: E)
}
