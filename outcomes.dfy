/** The error values the checker passes to `log.Fatal`, and the wrappers
    that carry them. Error messages of the libraries are opaque text. */
module Outcomes {

  datatype Option<T> = None | Some(value: T)

  /** Where a fatal error came from. */
  datatype Error =
    | Transport(message: string)   // `http.Get` could not complete the request
    | Decode(message: string)      // the vCard decoder failed with something other than EOF
    | Store(message: string)       // a Redis command failed

  /** A Go `(value, err)` pair in which exactly one side is meaningful. */
  datatype Result<T> = Ok(value: T) | Err(error: Error)
}
