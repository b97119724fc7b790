/** A value that may be absent: the model of a C# nullable reference. */
module Wrappers {

  datatype Option<+T> = None | Some(value: T) {

    /** The ?? operator: the value, or `default` when absent. */
    function GetOr(default: T): T {
      match this
      case Some(v) => v
      case None => default
    }
  }
}
