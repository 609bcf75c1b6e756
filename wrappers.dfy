/** Option and Result, used for "no match" (a recogniser returning None) and
    for raised ValueErrors. */
module Wrappers {

  datatype Option<+T> = None | Some(value: T)

  datatype Result<+R, +E> = Ok(value: R) | Err(error: E)
}
