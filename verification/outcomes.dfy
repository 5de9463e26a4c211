/** Result shapes shared by the rest of the model. */
module Outcomes {

  /** A value that may be missing. */
  datatype Option<+T> = None | Some(value: T)

  /** A value, or the error that prevented computing it. */
  datatype Result<+T, +E> = Ok(value: T) | Err(error: E)

  /**
   * How the body of a task ends. `Failure` is a TaskFailureException carrying a message for the user,
   * `Cancelled` a TaskCancelledException, and `Raised` any other exception escaping the body, which the
   * task engine treats as fatal rather than as an ordinary failure.
   */
  datatype Outcome = Success | Failure(message: string) | Cancelled | Raised(error: string)

  /** A progress report: `None` in the source means an indeterminate amount of work remains. */
  datatype Progress = Indeterminate | Fraction(value: real)
}
