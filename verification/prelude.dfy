/** The `Option` and `Result` types every other module uses to model failure. */
module Prelude {

  datatype Option<T> = None | Some(value: T)

  datatype Result<T, E> = Ok(value: T) | Err(error: E)
}
