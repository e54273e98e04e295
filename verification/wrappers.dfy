/** The optional-value datatype used wherever the source returns `null`. */
module Wrappers {

  /** `None` stands for JavaScript's `null`/`undefined` result. */
  datatype Option<+T> = None | Some(value: T) {

    /** The wrapped value, or `default` when there is none. */
    function GetOr(default: T): T {
      match this
      case Some(v) => v
      case None => default
    }
  }
}
