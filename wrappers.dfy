/** Option and Result, used for the values the source represents with `None`,
    `undefined`, a missing key or an exception. */
module Wrappers {

  datatype Option<+T> = None | Some(value: T)

  datatype Result<+R, +E> = Ok(value: R) | Err(error: E)
}
