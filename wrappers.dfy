/** Python's `Optional[...]`: a value that may be `None`. */
module Wrappers {

  datatype Option<+T> = None | Some(value: T) {

    /** `x or default` for a value whose only falsy form is `None`. */
    function GetOr(default: T): T {
      match this
      case Some(v) => v
      case None => default
    }
  }
}
