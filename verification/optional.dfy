/** Failure-carrying results shared by the planner's components. */
module Optional {

  /** A value that may be absent; the planner's `null` returns. */
  datatype Option<+T> = None | Some(value: T)

  /** A value or the reason the computation stopped. */
  datatype Result<+T, +E> = Ok(value: T) | Err(error: E)
}
