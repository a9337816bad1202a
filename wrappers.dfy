/** Option and Result, the two shapes the model uses for values that may be
    absent (a session key not yet set, an upload that returned None) and for
    computations that may raise. */
module Wrappers {

  datatype Option<+T> = None | Some(value: T)

  datatype Result<+R, +E> = Ok(value: R) | Err(error: E)
}
