/** Failure-carrying values used throughout the model. `Result` carries the
    error text the Go code returns (`errors.New("...")`). */
module Wrappers {

  datatype Option<T> = None | Some(value: T) {
    function GetOr(default: T): T {
      match this
      case Some(v) => v
      case None => default
    }
  }

  datatype Result<T> = Ok(value: T) | Err(error: string)
}
