/** Failure-carrying results used where the firmware panics or a read can fail. */
module Wrappers {

  /** An optional value: `None` stands for a failed or absent read. */
  datatype Option<+T> = None | Some(value: T)

  /** The outcome of an operation that either yields a value or panics with a reason. */
  datatype Result<+T, +E> = Ok(value: T) | Err(error: E)
}
