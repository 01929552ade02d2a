/**
 * Failure-compatible result type shared by every codec in the model.
 *
 * The Java library signals failure with several exception classes; the model
 * collapses them into one `Error` datatype that keeps the exception's kind.
 */
module Wrappers {

  datatype Option<+T> = None | Some(value: T)

  /** The exceptions the codec raises, one constructor per Java exception class. */
  datatype Error =
    | BufferUnderflow   // a relative get reads past the buffer's limit
    | BufferOverflow    // a put writes past the allocated capacity
    | IndexOutOfBounds  // an absolute get, a list index or a bulk-put range is out of bounds
    | IllegalArgument   // a negative capacity, or a millisecond offset outside [0, 999]
    | Parse             // a record of the wrong type, or a negative payload size
    | NullPointer       // a null argument the source dereferences or rejects

  datatype Result<+T> = Success(value: T) | Failure(error: Error) {

    predicate IsFailure() {
      Failure?
    }

    function PropagateFailure<U>(): Result<U>
      requires Failure?
    {
      Failure(error)
    }

    function Extract(): T
      requires Success?
    {
      value
    }
  }
}
