/** Failure-carrying results shared by every component. */
module Wrappers {
  datatype Option<+T> = None | Some(value: T) {
    function GetOr(default: T): T {
      if Some? then value else default
    }
  }

  /** The outcome of an operation that may raise an exception: no state is promised after Err. */
  datatype Result<+T> = Ok(value: T) | Err
}
