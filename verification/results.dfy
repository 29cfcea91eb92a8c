/** Failure-compatible wrappers used by every patch step. */
module Results {

  /** A value that may be absent, as returned by `str.find` (absent is `-1` there). */
  datatype Option<+T> = None | Some(value: T)

  /** Either the step's result or the error that aborts the whole run. */
  datatype Result<+T, +E> = Success(value: T) | Failure(error: E) {

    predicate IsFailure() {
      Failure?
    }

    function PropagateFailure<U>(): Result<U, E>
      requires Failure?
    {
      Failure(error)
    }

    function Extract(): T
      requires Success?
    {
      value
    }
  }
}

/** The reasons a run of the patcher aborts. Every one of them is fatal. */
module Errors {

  datatype PatchError =
      /** A literal anchor needed for an insertion is absent. */
    | AnchorNotFound(anchor: string)
      /** The opening text `function <name>` does not occur. */
    | DefinitionNotFound(name: string)
      /** The brace count never returned to zero after the opening text. */
    | UnbalancedSpan(name: string)
      /** The helper definition is still missing after its insert-or-replace. */
    | HelperMissing(name: string)
      /** The block to be replaced is absent from the named definition. */
    | BlockNotFound(name: string)
      /** The parameter-list closing line is absent from the named definition. */
    | InsertionPointNotFound(name: string)
}
