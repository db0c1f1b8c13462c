/** The error taxonomy of the engine and the result type every fallible
    operation returns. Mirrors the `Errores` enum and Rust's
    `Result<T, Errores>`. */
module Resultados {

  /** Kinds of failure the engine reports. */
  datatype Errores =
    | InvalidTable   // the .csv table is missing or unusable
    | InvalidColumn  // a query names a column the table does not have
    | InvalidSyntax  // the query text is malformed
    | Error          // any other failure

  /** `Ok(value)` or `Err(error)`; usable with Dafny's `:-` operator. */
  datatype Result<+T> = Ok(value: T) | Err(error: Errores) {

    predicate IsFailure() {
      Err?
    }

    function PropagateFailure<U>(): Result<U>
      requires Err?
    {
      Err(error)
    }

    function Extract(): T
      requires Ok?
    {
      value
    }
  }

  /** An optional value (`Option<T>` in the source). */
  datatype Option<+T> = None | Some(value: T)
}
