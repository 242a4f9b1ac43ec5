/** Values shared by every module: an optional value and JavaScript truthiness
    of an optional string (`undefined`, `null` and `""` are all falsy). */
module Base {

  datatype Option<+T> = None | Some(value: T) {

    /** `x ?? default` / `x || default` for a value that is never falsy itself. */
    function GetOr(default: T): T {
      match this
      case Some(v) => v
      case None => default
    }
  }

  /** A JavaScript string field that may be missing is truthy when it is present
      and not the empty string. */
  predicate Truthy(s: Option<string>) {
    s.Some? && s.value != ""
  }

  /** `s || fallback` on an optional string. */
  function OrElse(s: Option<string>, fallback: string): string {
    if Truthy(s) then s.value else fallback
  }
}
