/** Optional values: Python's `None` next to a present value. */
module Wrappers {

  datatype Option<+T> = None | Some(value: T)

  /** Python's `x or ''` for a possibly missing string field. */
  function OrEmpty(x: Option<string>): (s: string)
    ensures x.None? ==> s == ""
    ensures x.Some? ==> s == x.value
  {
    match x
    case None => ""
    case Some(v) => v
  }
}
