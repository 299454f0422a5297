/** Option and Result, the shapes fp-ts `Option` and thrown errors take in this model. */
module Wrappers {

  datatype Option<+T> = None | Some(value: T) {
    /** `option.alt`: this value if it is Some, otherwise the alternative. */
    function Alt(other: Option<T>): Option<T> {
      if Some? then this else other
    }
  }

  datatype Result<+T, +E> = Ok(value: T) | Err(error: E)
}
