/**
 * What the set operations throw, and the result types that carry it back to
 * the caller in place of a JavaScript exception.
 */
module Outcomes {
  import opened Values

  /** The exceptions the set classes raise. */
  datatype Error =
    /** `throw "..."`: a bare string is thrown (read-only sets, filters). */
    | Thrown(text: string)
    /** `throw new Error(message)`. */
    | ErrorObject(message: string)
    /** The engine's TypeError for calling a method the object does not have. */
    | TypeError(missing: string)

  /** `throw "read-only set"` in SingletonSet's `add` and `remove`. */
  const ReadOnly := Thrown("read-only set")

  /** `throw ("value " + v + " rejected by filter")`. */
  function Rejected(v: Value): (e: Error)
    ensures e.Thrown?
  {
    Thrown("value " + Display(v) + " rejected by filter")
  }

  /** An optional value, such as a filter that may be missing. */
  datatype Option<T> = None | Some(value: T)

  /** A call that either returns a value or throws. */
  datatype Result<T> = Ok(value: T) | Err(error: Error)

  /** A check that either passes or throws. */
  datatype Outcome = Pass | Fail(error: Error)
}
