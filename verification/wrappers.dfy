/** Rust's `Option`, as the handlers use it. */
module Wrappers {

  datatype Option<T> = None | Some(value: T) {

    /** The carried value, or `fallback` when there is none
        (`unwrap_or`, and `unwrap_or_default` with the type's default). */
    function UnwrapOr(fallback: T): (r: T)
      ensures Some? ==> r == value
      ensures None? ==> r == fallback
    {
      if Some? then value else fallback
    }
  }
}
