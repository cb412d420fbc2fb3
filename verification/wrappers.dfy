/** Failure-carrying results used in place of Reactor's `Mono`: a `Mono` that
    completes with a value, completes empty, or signals an error. */
module Wrappers {

  /** A value that may be absent: `Mono.just(v)` or `Mono.empty()`. */
  datatype Option<+T> = None | Some(value: T)

  /** A value or an error: `Mono.just(v)` or `Mono.error(e)`. */
  datatype Result<+T, +E> = Success(value: T) | Failure(error: E)
}
