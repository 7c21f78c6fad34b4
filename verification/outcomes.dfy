/** Outcomes of operations that can fail: the Python exceptions of the
    system become the error side of a `Result`. */
module Outcomes {

  datatype Result<T, E> = Ok(value: T) | Err(error: E)

  datatype Option<T> = None | Some(value: T)
}
