/** Result-like datatypes for the outcomes of the modelled operations. */
module Wrappers {

  datatype Option<+T> = None | Some(value: T) {
    function GetOr(default: T): T {
      match this
      case Some(v) => v
      case None => default
    }
  }

  /** How a Rust call ends: a value, a returned error, or a panic (which aborts the process
      and drops every uncommitted transaction). */
  datatype Outcome<+T, +E> = Ok(value: T) | Err(error: E) | Panic(message: string)
}
