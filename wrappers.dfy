/** Optional values: `None` stands for Python's `None`, a missing file or an
    exception the scripts do not catch. */
module Wrappers {

  datatype Option<T> = None | Some(value: T)

  /** Python `x if x else default` for an optional string: `None` and `''` are
      both falsy. */
  function OrElse(x: Option<string>, default: string): (r: string)
    ensures x.Some? && x.value != "" ==> r == x.value
    ensures x.None? || x.value == "" ==> r == default
  {
    if x.Some? && x.value != "" then x.value else default
  }
}
