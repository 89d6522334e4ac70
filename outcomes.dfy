/** Error kinds surfaced by the editor, and the result types that carry them. */
module Outcomes {

  datatype Error =
    | IOError         // OSError: the file cannot be opened, mapped or read, or a seek is refused
    | AttributeError  // the member name is not one of the structure's fields
    | TypeMismatch    // OSError: the section is not a symbol table
    | IndexError      // an offset or index lies outside what the call accepts
    | NoException     // the C function returns NULL without setting an exception
    | OutOfFile       // the member lies outside the file's bytes (in C: zeros inside the last mapped page, undefined past it)
    | NullDeref       // the C code dereferences a NULL buffer (a crash)
    | OutOfBuffer     // memcpy reads past the caller's buffer (undefined behaviour in C)
    | ValueError      // a Python conversion (int(), bytearray item) rejects its argument
    | AssertionError  // a Python `assert` fails
    | Diverges        // the source loops forever on this input

  datatype Result<T> = Ok(value: T) | Err(error: Error) {
    predicate IsFailure() { Err? }
    function PropagateFailure<U>(): Result<U>
      requires Err?
    {
      Err(error)
    }
    function Extract(): T
      requires Ok?
    {
      value
    }
  }

  datatype Outcome = Pass | Fail(error: Error)

  datatype Option<T> = None | Some(value: T)

  /**
   * A state change that follows `spec`: on success the new state is the
   * specified one, on failure the error is reported and nothing changed.
   */
  ghost predicate Applied<S>(spec: Result<S>, r: Outcome, before: S, after: S) {
    match spec
    case Ok(s) => r == Pass && after == s
    case Err(e) => r == Fail(e) && after == before
  }
}
