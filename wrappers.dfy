/** Option and Result values, standing in for Rust's `Option` and `Result`. */
module Wrappers {

  datatype Option<T> = None | Some(value: T)

  datatype Result<T, E> = Ok(value: T) | Err(error: E) {

    /** `unwrap_or`: the carried value, or `default` on an error. */
    function UnwrapOr(default: T): T
    {
      match this
      case Ok(v) => v
      case Err(_) => default
    }
  }
}
