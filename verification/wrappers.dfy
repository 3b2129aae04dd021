/** Optional values, used for request-body fields that may be absent. */
module Wrappers {

  /** `None` stands for a field that is absent (or, where the handler tests
      truthiness, present but falsy). */
  datatype Option<+T> = None | Some(value: T)

  /** The value carried by `o`, or `default` when there is none. */
  function GetOr<T>(o: Option<T>, default: T): T
  {
    match o
    case Some(v) => v
    case None => default
  }
}
