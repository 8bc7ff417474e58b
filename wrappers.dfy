/** Small failure-carrying datatypes shared by every module of the model. */
module Wrappers {

  /** The value of a Python expression that may be `None`. */
  datatype Option<+T> = None | Some(value: T) {
    function GetOr(default: T): T {
      match this
      case Some(v) => v
      case None => default
    }
  }

  /** The result of a call that either returns normally or raises. */
  datatype Outcome<+E> = Pass | Fail(error: E)

  /** Python truthiness of an optional string: `None` and `""` are both false. */
  predicate Truthy(s: Option<string>) {
    s.Some? && s.value != ""
  }
}
