/** Optional values (the source's nullable references and `Nullable<T>`) and results
    (a value or the exception the source would throw). */
module Wrappers {

  /** `None` models a C# `null`. */
  datatype Option<+T> = None | Some(value: T) {

    /** The C# `??` operator: the value if present, otherwise `default`. */
    function GetOr(default: T): T {
      match this
      case Some(v) => v
      case None => default
    }
  }

  datatype Result<+R, +E> = Success(value: R) | Failure(error: E)
}
