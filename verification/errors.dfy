/** The error kinds the pool reports synchronously to the calling thread, and the
    reply shapes of its operations. In the C++ source these are exceptions; here
    they are values. */
module Errors {

  datatype PoolError =
    | InvalidConfiguration  // constructor called with num_threads <= 0
    | NullTask              // SubmitTask called with a null task pointer
    | DuplicateTaskName     // SubmitTask called with a name that is still registered
    | UnknownTaskName       // WaitForTask called with a name that is not registered

  /** The result of an operation that returns `void` or throws. */
  datatype Outcome = Pass | Fail(error: PoolError)

  /** The result of an operation that produces a value or throws. */
  datatype Result<+T> = Ok(value: T) | Err(error: PoolError)
}
