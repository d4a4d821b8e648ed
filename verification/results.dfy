/** Failure-compatible wrappers used across the model.

    The Kotlin code signals errors by throwing; the model returns them as
    values instead, so that every operation stays a total function. */
module Results {

  datatype Option<+T> = None | Some(value: T)

  /** The exceptions the modelled code can raise. */
  datatype Failure =
    /** `String.substring(begin, end)` outside `0 <= begin <= end <= length` */
    | IndexOutOfBounds(begin: int, end: int, length: int)
    /** `String.hexToByte()` on text that is not hexadecimal */
    | NumberFormat(text: string)

  datatype Result<+T> = Ok(value: T) | Err(failure: Failure) {

    predicate IsFailure() {
      Err?
    }

    function PropagateFailure<U>(): Result<U>
      requires Err?
    {
      Err(failure)
    }

    function Extract(): T
      requires Ok?
    {
      value
    }
  }
}
