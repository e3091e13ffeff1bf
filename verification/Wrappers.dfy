/** Optional values and results that carry the source's error codes. */
module Wrappers {
  datatype Option<+T> = None | Some(value: T) {
    predicate IsFailure() { None? }

    function PropagateFailure<U>(): Option<U>
      requires None?
    {
      None
    }

    function Extract(): T
      requires Some?
    {
      value
    }
  }

  datatype Result<+T, +E> = Ok(value: T) | Err(error: E)

  /** The error codes of crypto-commons that the modelled functions return. */
  datatype Error = InvalidInput | InvalidFormat | FieldTooLong | Expired | InvalidSignature
}
