/** Python's exceptions and optional values, as data.

    Every operation of the engine that can raise is modelled as a function or
    method returning a Result; the error carries the exception class and,
    where the source builds one, its message. */
module Outcome {

  datatype Error =
    | ZeroDivisionError
    | IndexError
    | ValueError(message: string)
    | TypeError(message: string)
    | AttributeError(message: string)
    | SyntaxError(message: string)
    | StopIteration

  datatype Option<+T> = None | Some(value: T)

  datatype Result<+T> = Ok(value: T) | Err(error: Error) {
    predicate IsFailure() {
      Err?
    }

    function PropagateFailure<U>(): Result<U>
      requires Err?
    {
      Err(error)
    }

    function Extract(): T
      requires Ok?
    {
      value
    }
  }
}
