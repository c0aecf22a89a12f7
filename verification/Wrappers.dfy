/** The two ways a Go function reports "nothing": a missing value, and an error whose text is not
    modelled. */
module Wrappers {
  datatype Option<+T> = None | Some(value: T)
  datatype Result<+T> = Ok(value: T) | Err
}
