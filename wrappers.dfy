/** Failure-carrying results. A JavaScript `throw` in the modelled code becomes `Err`. */
module Wrappers {

  datatype Option<+T> = None | Some(value: T)

  datatype Result<+T, +E> = Ok(value: T) | Err(error: E)
}
