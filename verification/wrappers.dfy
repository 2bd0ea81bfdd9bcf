/** Option, the result shape of every lookup that may find nothing (the
    source's `X | None` return types), and Result, a value or the error
    that replaced it. */
module Wrappers {

  datatype Option<+T> = None | Some(value: T)

  datatype Result<+T, +E> = Ok(value: T) | Err(error: E)
}
