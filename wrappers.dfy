/** Optional values and results with an error, shared by the other modules. */
module Wrappers {

  /** A value that may be missing: an optional field of a request body, or a
      nullable column. */
  datatype Option<+T> = None | Some(value: T) {

    /** The value when present, `default` otherwise. */
    function GetOr(default: T): T {
      match this
      case Some(v) => v
      case None => default
    }
  }

  /** The outcome of a store call: the returned value, or the error it throws. */
  datatype Result<+R, +E> = Success(value: R) | Failure(error: E)
}
