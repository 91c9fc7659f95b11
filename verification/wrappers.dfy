/** Option, the failure-carrying shape the model uses. */
module Wrappers {

  datatype Option<+T> = None | Some(value: T) {

    /** The value held, or `default` when there is none. */
    function GetOr(default: T): (r: T)
    {
      match this
      case Some(v) => v
      case None => default
    }
  }
}
