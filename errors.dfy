/** Python exceptions raised by the modelled code, and the two result shapes
    used to carry them: a value-or-exception `Result` and a bare `Outcome`. */
module Errors {

  /** The exceptions the modelled code can raise. */
  datatype Error =
    | ValueError          // int() on malformed text, unpacking, unknown action
    | KeyError            // dict lookup of a missing key
    | IndexError          // `[-1]` on an empty list
    | FileNotFoundError   // missing adb executable or labels file
    | ZeroDivisionError   // `% 0`
    | CalledProcessError  // a subprocess that exited non-zero under check=True
    | AdbNotConnected     // the generic Exception raised by check_adb_connection
    | ForeignCallError    // an exception raised inside OpenCV or TensorFlow

  datatype Result<+T> = Ok(value: T) | Err(error: Error) {
    predicate IsFailure() { Err? }

    function PropagateFailure<U>(): Result<U>
      requires Err?
    {
      Err(error)
    }

    function Extract(): T
      requires Ok?
    {
      value
    }
  }

  /** How a statement sequence without a value ends: normally, or by raising. */
  datatype Outcome = Pass | Fail(error: Error)

  datatype Option<+T> = None | Some(value: T)
}
