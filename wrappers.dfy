/** Absent values, results and the error kinds the data-access layer raises. */
module Wrappers {

  /** A Java reference that may be null. */
  datatype Option<T> = None | Some(value: T)

  /** The value of a call that either returns normally or raises an exception. */
  datatype Result<T, E> = Ok(value: T) | Err(error: E)

  /** The outcome of a `void` call: it returns normally or raises an exception. */
  datatype Outcome<E> = Pass | Fail(error: E)

  /** The exceptions that can leave the DAO. */
  datatype Error =
    | InvalidArgument   // IllegalArgumentException: a null primary key handed to read
    | EntityExists      // the store refuses to persist a second row under a key it already has
    | NoResult          // NoResultException: a single-result query found no row
    | NonUniqueResult   // NonUniqueResultException: a single-result query found several rows
    | NotFound          // deleteById on a key with no entity behind it
}
