/** Option, the Python exceptions the pipeline can raise, and results that
    carry either a value or one of those exceptions. */
module Outcomes {

  datatype Option<+T> = None | Some(value: T)

  /** The exceptions the modelled code raises. */
  datatype Error =
    | IndexError          // a list index past the end (parse_temperature_text)
    | ValueError          // int() of text that is not an integer
    | TypeError           // an operation on None (deg_min / deg_max unset)
    | KeyError            // a record without its 'temps' history
    | ZeroDivisionError   // float division by zero in the graph geometry

  datatype Result<+T> = Success(value: T) | Failure(error: Error)

  datatype Outcome = Pass | Fail(error: Error)
}
