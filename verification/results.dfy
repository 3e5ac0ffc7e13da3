/** Failure-carrying values shared by the repository, the use cases and the
    server actions. A thrown JavaScript `Error` is modelled by `Err`, carrying
    the error's message, since the create action branches on that message. */
module Results {

  /** A value that may be absent: `undefined`/`null` in the source. */
  datatype Option<+T> = None | Some(value: T)

  /** A thrown error; only its `message` is observable by callers. */
  datatype Error = Error(message: string)

  /** The outcome of an awaited call: a value, or the error it threw. */
  datatype Result<+T> = Ok(value: T) | Err(error: Error)
}
