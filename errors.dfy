/** Error taxonomy of the driver and the result type its fallible operations return. */
module Errors {

  /** The error value the serial port reports (the port's own `CommE`), kept abstract. */
  datatype CommError = CommError(code: nat)

  /** The errors of the crate. `Unresponsive` is declared but no operation produces it. */
  datatype Error =
    | Comm(fault: CommError)
    | ErrorResponse
    | Unresponsive

  datatype Result<T> = Ok(value: T) | Err(error: Error)
}
