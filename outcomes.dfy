/** Success/failure values standing in for the C++ exceptions of the
    modelled code: each thrown exception class becomes an `Error` case. */
module Outcomes {

  datatype Option<+T> = None | Some(value: T)

  /** The exception classes the modelled code throws, plus the one
      condition the stream code leaves unchecked (reading past the end). */
  datatype Error =
    | RangeError      // std::range_error: an index or id out of range
    | RuntimeError    // std::runtime_error: a lookup or format failure
    | LogicError      // std::logic_error: incompatible matrix shapes
    | EndOfStream     // the input bytes ran out in the middle of a value

  datatype Result<+T> = Ok(value: T) | Err(error: Error)
}
