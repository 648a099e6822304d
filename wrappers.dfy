/** Option and Result, the two wrappers the model uses for Python's `None`
    and for an early error return. */
module Wrappers {

  datatype Option<+T> = None | Some(value: T)

  datatype Result<+T, +E> = Ok(value: T) | Err(error: E)
}
