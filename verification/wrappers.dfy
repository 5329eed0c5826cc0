/** Python's `Optional[T]`: `None` or a present value. */
module Wrappers {

  datatype Option<+T> = None | Some(value: T) {

    /** Returns the present value, or `default` when absent (Python's `x or default` for non-strings). */
    function GetOr(default: T): T {
      match this
      case Some(v) => v
      case None => default
    }
  }

  /** Python truthiness of an optional string: neither `None` nor `""`. */
  predicate Truthy(v: Option<string>) {
    v.Some? && v.value != ""
  }

  /** Python's `v or ""` for an optional string. */
  function OrEmpty(v: Option<string>): (r: string)
    ensures Truthy(v) <==> r != ""
    ensures Truthy(v) ==> r == v.value
  {
    match v
    case Some(s) => s
    case None => ""
  }

  /** The value when it is truthy, otherwise `None`: what `x if x else None` keeps. */
  function NonEmpty(v: Option<string>): (r: Option<string>)
    ensures Truthy(r) <==> Truthy(v)
    ensures r.Some? ==> r == v && r.value != ""
  {
    if Truthy(v) then v else None
  }

  /** The outcome of a step that can fail with a message (an exception in the source). */
  datatype Result<+T> = Ok(value: T) | Failed(reason: string)
}
