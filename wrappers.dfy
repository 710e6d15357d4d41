/** Optional values: an absent request-body field, a row that a lookup did not find. */
module Wrappers {

  datatype Option<+T> = None | Some(value: T) {

    /** The value inside, or `default` when absent. */
    function GetOr(default: T): T {
      match this
      case Some(v) => v
      case None => default
    }
  }

  /** JavaScript truthiness of an optional string: absent and "" are falsy. */
  predicate Truthy(s: Option<string>) {
    s.Some? && s.value != ""
  }

  /** `s || fallback` for an optional string. */
  function OrElse(s: Option<string>, fallback: string): (r: string)
    ensures Truthy(s) ==> r == s.value
    ensures !Truthy(s) ==> r == fallback
  {
    if Truthy(s) then s.value else fallback
  }

  /** An HTTP reply: a status code and, for some codes, a JSON body. */
  datatype Reply<+T> = Reply(status: int, body: Option<T>)
}
