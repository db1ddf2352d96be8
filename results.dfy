/** Option and Result values for the catalog's lookups and its error paths. */
module Results {

  datatype Option<+T> = None | Some(value: T)

  /** Ok carries a value; Err stands for a Python exception raised on that path. */
  datatype Result<+T, +E> = Ok(value: T) | Err(error: E) {
    predicate IsFailure() { Err? }

    function PropagateFailure<U>(): Result<U, E>
      requires Err?
    {
      Err(error)
    }

    function Extract(): T
      requires Ok?
    {
      value
    }
  }
}
