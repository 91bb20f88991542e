/** Statuses and status-or-value results. */
module Status {
  datatype Error = InvalidArgument | NotFound | IOError | Corruption | Internal

  datatype Result<+T> = Ok(value: T) | Err(error: Error)
}
