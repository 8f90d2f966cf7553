/** Failure-compatible result type and the exceptions the modelled Python code can raise. */
module Wrappers {

  datatype Option<+T> = None | Some(value: T)

  /** The kinds of exception the decoder and the extractors raise. */
  datatype Error =
    | ClassError(message: string)  // raised explicitly by the class-file decoder
    | StructError                  // struct.unpack_from ran past the end of the buffer
    | KeyError                     // a dictionary lookup of a key that is not there
    | IndexError                   // pop from an empty list, or [0] of an empty list
    | ValueError                   // a split that lacks its separator, or int() of a non-digit
    | TypeError                    // subscripting a value that is not a dictionary

  datatype Result<+T> = Ok(value: T) | Err(error: Error) {
    predicate IsFailure() { Err? }

    function PropagateFailure<U>(): Result<U>
      requires Err?
    {
      Err(error)
    }

    function Extract(): T
      requires Ok?
    {
      value
    }
  }
}
