/** The optional value used wherever the application tests a lookup result
    or a field for being present (`find` returning `undefined`, `user || ...`). */
module Wrappers {

  datatype Option<+T> = None | Some(value: T) {

    /** The value when present, otherwise `default` (the `x || default` idiom). */
    function GetOr(default: T): T {
      match this
      case Some(v) => v
      case None => default
    }
  }
}
