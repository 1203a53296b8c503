/** Small failure-compatible wrapper used throughout the model. `None` stands for
    Ruby's `nil` (and `false`): the values the engine treats as "no result". */
module Wrappers {

  datatype Option<+T> = None | Some(value: T) {

    /** Returns the value in `Some`, or `default` for `None`. */
    function GetOr(default: T): T {
      match this
      case Some(v) => v
      case None => default
    }
  }
}
