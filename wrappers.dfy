/** Failure-compatible wrappers and the error taxonomy shared by all components. */
module Wrappers {

  datatype Option<+T> = None | Some(value: T)

  datatype Result<+R, +E> = Success(value: R) | Failure(error: E) {
    predicate IsFailure() { Failure? }

    function PropagateFailure<U>(): Result<U, E>
      requires Failure?
    {
      Failure(error)
    }

    function Extract(): R
      requires Success?
    {
      value
    }
  }

  /** Pass/Fail outcome of an operation that produces no value. */
  datatype Outcome<+E> = Pass | Fail(error: E)

  /**
   * Every place where the source calls `log.error` (which raises in the
   * project's logger) or lets a Python exception escape becomes one of these.
   */
  datatype Error =
    | UnknownFormat(file: string)
    | IndexOutOfRange
    | MissingFile(path: string)
    | MissingDirectory(path: string)
    | PatchLevelUndetermined(patch: string)
    | PatchFailed(patch: string)
    | NonZeroExit(cmd: string, exitCode: int, output: string)
    | HangTimeout(cmd: string, tail: string)
    | QuestionMismatch(question: string, pattern: string)
    | InvalidRegExp
    | KeyNotFound(key: string)
    | NoContent
}
