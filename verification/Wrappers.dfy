/** The outcome of a lookup, and of an operation that can be refused. */
module Wrappers {

  datatype Option<+T> = None | Some(value: T)
  {
    function OrElse(other: Option<T>): Option<T> {
      if None? then other else this
    }
  }

  datatype Result<+T, +E> = Ok(value: T) | Err(error: E)
}
