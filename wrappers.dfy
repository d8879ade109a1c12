/** Nullable values and fallible results. A C# `null` is `None`; an exception
    thrown by the mapper or the store is `Failure` with a description. */
module Wrappers {

  datatype Option<+T> = None | Some(value: T) {
    /** `Nullable<T>.GetValueOrDefault(default)` */
    function GetOr(default: T): T {
      match this
      case Some(v) => v
      case None => default
    }
  }

  datatype Result<+T> = Success(value: T) | Failure(error: string)
}
