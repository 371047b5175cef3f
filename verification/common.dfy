/** Shared vocabulary of the model: bytes as the Node.js runtime hands them out,
    and the Option / Result wrappers that stand in for `undefined` and for
    thrown exceptions. */
module Common {

  /** One octet, as in a Node.js `Buffer`. */
  newtype byte = x: int | 0 <= x < 256

  type Bytes = seq<byte>

  datatype Option<+T> = None | Some(value: T)

  /** `Failure` stands for an exception thrown by the source. */
  datatype Result<+T, +E> = Success(value: T) | Failure(error: E)
}
