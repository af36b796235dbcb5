/** Basic types shared by every module: bytes, and the Option/Result wrappers
    used for the thrown errors of the service. */
module Prelude {

  /** An octet, as stored in a Node/`buffer` Buffer or a Uint8Array. */
  type byte = x: int | 0 <= x < 256

  type Bytes = seq<byte>

  datatype Option<+T> = None | Some(value: T)

  datatype Result<+T, +E> = Success(value: T) | Failure(error: E) {
    predicate IsFailure() { Failure? }

    function PropagateFailure<U>(): Result<U, E>
      requires Failure?
    {
      Failure(error)
    }

    function Extract(): T
      requires Success?
    {
      value
    }
  }
}
