/** Failure-compatible wrappers and the exceptions the reconciler can raise.

    Every Python `raise` of the modelled core becomes an `Err` carrying one of the
    `Error` alternatives below; the Python exception class is named in each comment. */
module Errors {

  /** `None` or a present value (Python's `x | None` where `None` means "absent"). */
  datatype Option<+T> = None | Some(value: T) {

    predicate IsFailure() {
      None?
    }

    function PropagateFailure<U>(): Option<U>
      requires None?
    {
      None
    }

    function Extract(): T
      requires Some?
    {
      value
    }

    function GetOr(default: T): T {
      match this
      case Some(v) => v
      case None => default
    }
  }

  /** The exceptions raised by the modelled code. */
  datatype Error =
    | NotAMapping(schema: string)                 // ValueError: props must be a mapping
    | MissingRequired(schema: string, prop: string) // ValueError: missing required prop
    | UnknownProps(schema: string, extra: set<string>) // ValueError: unknown props
    | RequiredIsNone(prop: string)                // ValueError: None for a required prop
    | TypeCheckFailed(prop: string)               // ValueError: typecheck failed
    | DiffShapeMismatch(prop: string)             // ValueError: mapping diffed with non-mapping
    | UnknownCompat(compat: string)               // ValueError: unknown compatibility
    | DuplicateUids(uids: set<string>)            // ValueError: duplicate keys
    | KeyError(key: string)                       // KeyError
    | TypeError(what: string)                     // TypeError
    | AttributeError(name: string)                // AttributeError
    | AssertionError(what: string)                // AssertionError (a failed `assert`)
    | RuntimeError(what: string)                  // RuntimeError

  /** A value, or the exception that aborted its computation. */
  datatype Result<+T> = Ok(value: T) | Err(error: Error) {

    predicate IsFailure() {
      Err?
    }

    function PropagateFailure<U>(): Result<U>
      requires Err?
    {
      Err(error)
    }

    function Extract(): T
      requires Ok?
    {
      value
    }
  }

  /** `Ok` when `cond` holds, otherwise the given error. */
  function Need(cond: bool, e: Error): (r: Result<()>)
    ensures r.Ok? <==> cond
    ensures r.Err? ==> r.error == e
  {
    if cond then Ok(()) else Err(e)
  }
}
