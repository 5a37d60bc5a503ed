/** Option and Result values for the scheduler's lookups and error paths. */
module Wrappers {

  /** A value that may be missing (a fellow found by a scan, a clinic cover). */
  datatype Option<+T> = None | Some(value: T)

  /** The outcome of an operation that the source can abort. */
  datatype Result<+R, +E> = Ok(value: R) | Err(error: E)
}
