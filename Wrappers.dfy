/** The two failure-carrying datatypes the model uses: an optional value
    (Python's `None` or a value) and a result that is either a value or a
    fault. */
module Wrappers {

  datatype Option<+T> = None | Some(value: T)

  datatype Result<+T, +E> = Ok(value: T) | Err(error: E)
}
