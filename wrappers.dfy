/** Option and Result values for the places where the Python code returns
    None, raises, or swallows an error. */
module Wrappers {

  datatype Option<+T> = None | Some(value: T)

  datatype Result<+T, +E> = Ok(value: T) | Err(error: E)
}
