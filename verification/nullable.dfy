/** JavaScript's "nothing there": a missing storage key, a JSON `null` or an
    undefined field. */
module Nullable {

  datatype Option<T> = None | Some(value: T) {

    /** `x || fallback` for a value that is never falsy when present. */
    function GetOr(fallback: T): T {
      if Some? then value else fallback
    }
  }
}
