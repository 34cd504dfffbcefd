/** Outcomes of the fast-start conversion.

  The converter declares three checked exceptions; they become `Err` values.
  Java runtime exceptions (which the converter never catches) and the one way its
  top-level loop can run forever become `Aborted` values, so that every function of
  the model is total; the public entry point excludes them by precondition.
 */
module Outcomes {

  /** The checked exceptions: `BadFilePositionException` of the byte store and the
      `MalformedFileException` / `UnsupportedFileException` of the converter. */
  datatype Error = BadFilePosition | MalformedFile | UnsupportedFile

  /** Ways the Java code leaves without a checked exception or a result. */
  datatype Abort =
    | NegativeArraySize   // an array allocated with a negative length
    | IndexOutOfBounds    // an absolute index outside a buffer or array
    | BufferOverflow      // a relative put with too little room left
    | BufferUnderflow     // a relative get with too few bytes left
    | IllegalArgument     // a buffer position set beyond its limit
    | Diverges            // the top-level scan revisits a header and never stops

  /** Failure-compatible result: a value, a checked exception, or an abort. */
  datatype Result<+T> = Ok(value: T) | Err(error: Error) | Aborted(abort: Abort) {

    predicate IsFailure() {
      !Ok?
    }

    function PropagateFailure<U>(): Result<U>
      requires !Ok?
    {
      if Err? then Err(error) else Aborted(abort)
    }

    function Extract(): T
      requires Ok?
    {
      value
    }
  }

  /** Java's nullable reference. */
  datatype Option<+T> = None | Some(value: T)
}
