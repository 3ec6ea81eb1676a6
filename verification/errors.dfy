/**
 The Python exceptions the modelled code can raise, and a result type that
 carries either a value or the exception that ended the call.
 */
module Errors {

  datatype PyError =
    | ZeroDivisionError          // `x / 0`, `x % 0`
    | ValueError                 // `np.zeros` asked for a negative extent ("negative dimensions are not allowed")
    | AttributeError(name: string)  // a module has no attribute of that name

  datatype Result<+T> = Success(value: T) | Failure(error: PyError) {
    predicate IsFailure() {
      Failure?
    }

    function PropagateFailure<U>(): Result<U>
      requires Failure?
    {
      Failure(error)
    }

    function Extract(): T
      requires Success?
    {
      value
    }
  }
}
