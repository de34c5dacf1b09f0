/** Optional values and results, standing for Rust's `Option` and `Result`. */
module Wrappers {

  datatype Option<+T> = None | Some(value: T)

  datatype Result<+T, +E> = Ok(value: T) | Err(error: E)

  /** `Result<(), E>`: a check that either passes or fails with an error. */
  datatype Outcome<+E> = Pass | Fail(error: E)
}

/** The error kinds of the database layer that callers distinguish. */
module Database {

  /** `diesel::result::Error`, reduced to the kinds the handlers tell apart.
      `OtherDbError` stands for every other failure of the database (connection
      loss, constraint kinds nobody matches on, ...). */
  datatype DbError = NotFound | UniqueViolation | OtherDbError
}
