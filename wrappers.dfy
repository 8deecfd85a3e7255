/** Failure-carrying wrappers shared by the codec modules. */
module Wrappers {

  datatype Option<+T> = None | Some(value: T)

  /** Either a value or an error value; the models return these where the
      generated Rust code panics. */
  datatype Result<+T, +E> = Success(value: T) | Failure(error: E)
}
