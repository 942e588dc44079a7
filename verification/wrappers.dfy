/** Failure-carrying datatypes: `Option` stands for a Python value that may be
    `None`; `Result` stands for a call that either returns or raises. */
module Wrappers {

  datatype Option<+T> = None | Some(value: T)

  datatype Result<+T, +E> = Ok(value: T) | Err(error: E)
}
