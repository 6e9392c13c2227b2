/** Exceptions raised by the Python modules, as values.
    A Python function that raises becomes a function or method returning
    `Err(e)`, with `e` named after the exception class the interpreter raises. */
module Outcomes {

  datatype Error =
    | ZeroDivisionError    // `x % 0`, `x // 0`
    | OverflowError        // `int.to_bytes` on a value that does not fit
    | IndexError           // list or bytearray index past the end
    | ValueError           // `range` with step 0, `chr` out of range
    | NoModularInverse     // `raise Exception('Modular inverse does not exist')`

  datatype Result<T> = Ok(value: T) | Err(error: Error) {
    predicate IsFailure() { Err? }

    function PropagateFailure<U>(): Result<U>
      requires Err?
    {
      Err(error)
    }

    function Extract(): T
      requires Ok?
    {
      value
    }
  }

  /** A Python argument that may be `None`. */
  datatype Option<T> = None | Some(value: T)
}
