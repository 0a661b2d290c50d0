/** An optional value, used for Python's `None`. */
module Wrappers {

  datatype Option<+T> = None | Some(value: T) {

    /** `x if x is not None else default`; with `default == ""` this is `x or ""` (main.py:21). */
    function GetOr(default: T): (r: T)
      ensures Some? ==> r == value
      ensures None? ==> r == default
    {
      match this
      case Some(v) => v
      case None => default
    }
  }
}
