/** Failure-carrying results shared by every module of the model. */
module Errors {

  /** The ways an operation of the library can fail. */
  datatype Error =
    /** `std::invalid_argument` thrown by a constructor or helper. */
    | InvalidArgument(reason: string)
    /** An unsigned division or remainder by zero: undefined behaviour in C++. */
    | DivisionByZero
    /** A read past the end of a buffer: undefined behaviour in C++. */
    | OutOfBounds
    /** A read from an exhausted stream, which blocks forever. */
    | Stalled

  datatype Result<+T> = Ok(value: T) | Err(error: Error)
}
