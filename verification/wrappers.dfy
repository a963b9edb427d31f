/** Option and Result, the two failure-carrying datatypes the quiz model uses:
    Option for "the listener may or may not be called", Result for operations
    that can throw an index-out-of-bounds exception in the original code. */
module Wrappers {

  datatype Option<+T> = None | Some(value: T)

  /** An exception that escapes an operation. Only one kind arises in the
      modelled code: a list read at an index outside `0 .. size - 1`. */
  datatype Fault = IndexOutOfBounds(index: int, size: nat)

  datatype Result<+T> = Ok(value: T) | Err(fault: Fault)
}
