/** Optional values and outcomes that may have failed (a JavaScript value that may be
    `undefined`/`null`, or a call that may throw). */
module Wrappers {
  datatype Option<T> = None | Some(value: T)
  {
    function GetOr(default: T): T
    {
      match this
      case None => default
      case Some(v) => v
    }
  }

  datatype Result<T, E> = Success(value: T) | Failure(error: E)
}
