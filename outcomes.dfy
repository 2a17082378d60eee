/** Result types shared by the cache model: optional lookups, fallible
    operations, and the failures the store can report. */
module Outcomes {

  /** An optional lookup result (Python's `Optional`, `None` for no row). */
  datatype Option<+T> = None | Some(value: T)

  /** The ways an operation of the cache can fail. */
  datatype Failure =
    /** IsengardDBError: the database file cannot be opened or created. */
    | CannotOpen
    /** IsengardDBError: an incompatible database file cannot be deleted. */
    | CannotDelete
    /** IsengardDBError: the database cannot be recreated after a reset. */
    | CannotRecreate
    /** sqlite3.IntegrityError: UNIQUE(run, target) rejected an insertion. */
    | IntegrityError
    /** sqlite3.DatabaseError escaping the version check: the file is not
        an SQLite database (only the as-written version check reports it). */
    | NotADatabase
    /** TypeError escaping the version check: the version table exists but
        holds no row for the magic number (only the as-written check). */
    | MissingVersionRow

  /** The errors the cache itself raises as IsengardDBError. */
  predicate IsDBError(f: Failure) {
    f.CannotOpen? || f.CannotDelete? || f.CannotRecreate?
  }

  /** A value or the failure that prevented it. */
  datatype Result<+T> = Ok(value: T) | Err(error: Failure)

  /** Success or the failure, for operations without a value. */
  datatype Outcome = Pass | Fail(error: Failure)
}
