/** Optional values and fallible results (Rust's `Option` and `Result`,
    for results that carry no remaining input). */
module Wrappers {

  datatype Option<T> = None | Some(value: T)

  datatype Outcome<T, E> = Success(value: T) | Failure(error: E)
}
