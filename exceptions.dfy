/** The exceptions the modelled code can raise, and a result type that carries
    either a value or the exception that stops the computation. */
module Exceptions {

  /** The built-in Python exceptions the core raises on bad input. */
  datatype PyError =
    | IndexError   // a list index or subscript past the end
    | KeyError     // a dictionary lookup of a missing key
    | ValueError   // a failed unpacking or `list.index` of a missing element
    | TypeError    // `None` concatenated to a string

  datatype Result<+T> = Ok(value: T) | Raise(error: PyError) {
    predicate IsFailure() { Raise? }

    function PropagateFailure<U>(): Result<U>
      requires Raise?
    {
      Raise(error)
    }

    function Extract(): T
      requires Ok?
    {
      value
    }
  }

  /** What a void method that may raise ends with. */
  datatype Outcome = Completed | Raised(error: PyError)
}
