/** Small failure-carrying datatypes shared by the habit-tracker model. */
module Common {

  /** A value that may be absent, as a SQL `fetchone()` that finds no row. */
  datatype Option<T> = None | Some(value: T)

  /** The ways a store operation is refused; each leaves the store as it was. */
  datatype StoreError =
    | NotFound            // no habit carries the given name
    | DuplicateName       // the UNIQUE (name) constraint of the habits table
    | InvalidPeriodicity  // the CHECK (periodicity IN ("daily","weekly")) constraint

  /** The outcome of a store operation: a value, or the error that refused it. */
  datatype Result<T> = Ok(value: T) | Err(error: StoreError)
}
