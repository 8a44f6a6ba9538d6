/** Option and Result: the shapes the model uses for Python's `None` and
    for exceptions raised by the modelled functions. */
module Wrappers {

  datatype Option<+T> = None | Some(value: T)

  datatype Result<+T, +E> = Ok(value: T) | Err(error: E)
}
