// Optional values: the model's stand-in for Kotlin's nullable types and
// Java's `null` returns.
module Wrappers {
  datatype Option<T> = None | Some(value: T)
  {
    function GetOr(default: T): T
    {
      match this
      case None => default
      case Some(v) => v
    }
  }
}
