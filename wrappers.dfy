/** Small failure-carrying datatypes shared by the model. */
module Wrappers {

  datatype Option<+T> = None | Some(value: T) {
    function GetOr(default: T): T {
      match this
      case Some(v) => v
      case None => default
    }
  }

  /** The result of Go code that may panic: either the value it returns or a panic. */
  datatype Outcome<+T> = Returned(value: T) | Panicked(reason: string)
}
