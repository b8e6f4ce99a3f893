/** Option and Result: the model's stand-ins for C#'s `null` results and thrown exceptions. */
module Wrappers {

  /** `None` plays the part of a C# `null` (for example what `FirstOrDefault` yields on no match). */
  datatype Option<+T> = None | Some(value: T) {
    function GetOr(default: T): T {
      match this
      case Some(v) => v
      case None => default
    }
  }

  /** `Err` plays the part of an exception escaping the call. */
  datatype Result<+T, +E> = Ok(value: T) | Err(error: E)
}
