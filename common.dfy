/** Shared vocabulary of the cache model: machine integers, Go's `error`
    values and the optional/fallible results that stand in for Go's
    `(value, ok)` and `(value, err)` return pairs. */
module Common {

  /** A Go `byte`. */
  newtype byte = x: int | 0 <= x < 0x100

  /** A Go `uint32`, the result type of the ring's hash function. */
  newtype uint32 = x: int | 0 <= x < 0x1_0000_0000

  /** Go's `(v, ok)` pair: `None` is the not-found answer. */
  datatype Option<+T> = None | Some(value: T)

  /** Go's `(v, err)` pair: `Failure` carries the non-nil error. */
  datatype Result<+T> = Success(value: T) | Failure(error: Error)

  /** A Go `error`, identified by its message. `Panic` stands for the
      branches where the Go code panics instead of returning an error. */
  datatype Error = Error(message: string) | Panic(message: string)
}
