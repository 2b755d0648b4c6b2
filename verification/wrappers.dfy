/** Failure-compatible wrappers shared by every module: an optional value
    (a Mongo lookup that may find nothing, a JS value that may be absent)
    and the outcome of a request handler (a value or a named rejection). */
module Wrappers {

  datatype Option<+T> = None | Some(value: T) {

    /** The wrapped value, or `default` when there is none. */
    function GetOr(default: T): T {
      match this
      case Some(v) => v
      case None => default
    }
  }

  /** A handler either succeeds with a value or rejects with an error; a
      rejection never carries a partially updated state. */
  datatype Result<+T, +E> = Ok(value: T) | Err(error: E) {

    predicate IsFailure() {
      Err?
    }

    function PropagateFailure<U>(): Result<U, E>
      requires Err?
    {
      Err(error)
    }

    function Extract(): T
      requires Ok?
    {
      value
    }
  }

  /** The outcome of a check that produces no value. */
  datatype Outcome<+E> = Pass | Fail(error: E) {

    predicate IsFailure() {
      Fail?
    }

    function PropagateFailure<U>(): Result<U, E>
      requires Fail?
    {
      Err(error)
    }
  }

  /** `Pass` when `cond` holds, otherwise `Fail(e)`: one step of a handler's
      ordered validation chain. */
  function Need<E>(cond: bool, e: E): (o: Outcome<E>)
    ensures o.Pass? <==> cond
    ensures o.Fail? ==> o.error == e
  {
    if cond then Pass else Fail(e)
  }
}
