/** Optional values (the C# `null`) and results with an error alternative
    (the C# exceptions) used throughout the model. */
module Wrappers {

  /** `None` stands for a C# `null` reference. */
  datatype Option<+T> = None | Some(value: T) {
    function GetOr(default: T): T {
      match this
      case Some(v) => v
      case None => default
    }
  }

  /** `Failure` stands for an exception thrown by the modelled code. */
  datatype Result<+R, +E> = Success(value: R) | Failure(error: E)
}
