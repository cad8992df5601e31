/** The success/failure envelope returned by every extraction, and Python's `None`. */
module Results {

  /** A value that may be absent, as Python's `None`. */
  datatype Option<+T> = None | Some(value: T)

  /** `Result.ok(value)` or `Result.fail_with_msg(message)`. */
  datatype Result<+T> = Ok(value: T) | Fail(message: string)
}
