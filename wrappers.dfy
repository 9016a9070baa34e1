/** Option and Result: the "no value" and "failed" outcomes of the stream pipelines. */
module Wrappers {

  /** What `Optional` / `OptionalInt` hold: a value or nothing. */
  datatype Option<+T> = None | Some(value: T)

  /** A pipeline that either yields a value or stops with an exception. */
  datatype Result<+T, +E> = Success(value: T) | Failure(error: E)
}
