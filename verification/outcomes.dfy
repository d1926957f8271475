/**
 The two failure-carrying wrappers the rest of the model returns: `Option`
 for lookups that may find nothing, `Result` for operations that may abort
 with a reason.
 */
module Outcomes {

  datatype Option<+T> = None | Some(value: T)

  /** Either a value or the reason the operation gave up. */
  datatype Result<+T, +E> = Ok(value: T) | Err(error: E)
}
