/** Optional values, results, and the three-state fields of JavaScript inputs. */
module Wrappers {

  datatype Option<+T> = None | Some(value: T)

  datatype Result<+R, +E> = Success(value: R) | Failure(error: E)

  /** A JavaScript property that may be missing, explicitly `null`, or hold a value. */
  datatype Nullable<+T> = Undefined | Null | Defined(value: T)

  /** The `?? undefined` idiom: both `null` and a missing property become absent. */
  function Coalesce<T>(n: Nullable<T>): (r: Option<T>)
    ensures r.Some? <==> n.Defined?
    ensures r.Some? ==> r.value == n.value
  {
    match n
    case Defined(v) => Some(v)
    case _ => None
  }
}
