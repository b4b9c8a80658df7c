/** Optional values: the model's rendering of JavaScript's `null`/`undefined` results. */
module Wrappers {

  datatype Option<+T> = None | Some(value: T) {
    function GetOr(default: T): T {
      match this
      case Some(v) => v
      case None => default
    }
  }

  /** A key that may be absent from a JavaScript options object. */
  datatype Field<+T> = Absent | Present(value: T)

  /** JavaScript truthiness of a string that may be `null`: `null` and the empty string are falsy. */
  predicate Truthy(s: Option<string>) {
    s.Some? && s.value != ""
  }
}
