/** Failure-compatible result type for the exceptions the graph code throws. */
module Wrappers {

  datatype Option<+T> = None | Some(value: T) {
    /** Returns the value in Some, or the given default. */
    function GetOr(default: T): T {
      match this
      case Some(v) => v
      case None => default
    }
  }

  /** What the JavaScript code throws. */
  datatype Error =
    | NoSuchElement   // the string "no such element"
    | NoBackupsLeft   // the string "no backups left"
    | NoUpdatesLeft   // the string "no updates left"
    | Unresolved      // a lookup returned undefined and the result was dereferenced (a TypeError)

  datatype Result<+T> = Ok(value: T) | Err(error: Error) {
    predicate IsFailure() {
      Err?
    }

    function PropagateFailure<U>(): Result<U>
      requires Err?
    {
      Err(error)
    }

    function Extract(): T
      requires Ok?
    {
      value
    }
  }
}
