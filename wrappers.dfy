/** Option and Result types shared by the codec and the containers. */
module Wrappers {

  /** A value that may be absent (`undefined` in the source). */
  datatype Option<+T> = None | Some(value: T)

  /** The exceptions the modelled code can raise. */
  datatype Error =
    | RangeError           // a `Buffer` read past the end of the buffer
    | UnsupportedResponse  // a rules response whose header is -2 (split packet)

  /** The outcome of a step that may throw; failure-compatible, so `:-` propagates the error. */
  datatype Result<+T> = Ok(value: T) | Err(error: Error) {

    predicate IsFailure() {
      Err?
    }

    function PropagateFailure<U>(): Result<U>
      requires Err?
    {
      Err(error)
    }

    function Extract(): T
      requires Ok?
    {
      value
    }
  }
}
