/** Optional values, standing in for Python's `None` returns and for
    exceptions that the callers catch and turn into "skip". */
module Wrappers {

  datatype Option<+T> = None | Some(value: T) {
    function GetOr(default: T): T
    {
      match this
      case Some(v) => v
      case None => default
    }
  }
}
