/** Optional values. */
module Wrappers {

  datatype Option<+T> = None | Some(value: T)

  /** The value held, or d when there is none. */
  function GetOr<T>(o: Option<T>, d: T): (r: T)
    ensures o.Some? ==> r == o.value
    ensures o.None? ==> r == d
  {
    match o
    case Some(v) => v
    case None => d
  }
}
