/** Failure-carrying datatypes shared by every service of the model.

    A Java reference that may be `null` becomes an `Option`; an operation
    that may throw becomes a function returning a `Result`.
 */
module Wrappers {

  /** A nullable value: `None` stands for Java's `null`. */
  datatype Option<+T> = None | Some(value: T) {

    /** The value, or `default` when it is `None`. */
    function GetOr(default: T): T {
      match this
      case Some(v) => v
      case None => default
    }
  }

  /** Why a service call failed.

      - `Missing`: an `Optional.orElseThrow` lookup found nothing.
      - `AccessDenied`: an ownership check failed with `AccessDeniedException`.
      - `Failed`: any other exception, with its message.
      - `Duplicate`: the database refused a row that breaks a unique column.
   */
  datatype Error =
    | Missing(entity: string)
    | AccessDenied(message: string)
    | Failed(message: string)
    | Duplicate(column: string)
  {
    /** The exception's message, as `getMessage` would report it. */
    function Message(): string {
      match this
      case Missing(entity) => entity + " not found"
      case AccessDenied(message) => message
      case Failed(message) => message
      case Duplicate(column) => "Duplicate entry for " + column
    }
  }

  /** The outcome of a call that may throw. */
  datatype Result<+T> = Ok(value: T) | Err(error: Error) {

    predicate IsFailure() {
      Err?
    }

    function PropagateFailure<U>(): Result<U>
      requires Err?
    {
      Err(error)
    }

    function Extract(): T
      requires Ok?
    {
      value
    }
  }
}
