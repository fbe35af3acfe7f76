/** Option and Result values used for lookups that may miss and for conversions that may fail. */
module Wrappers {

  datatype Option<+T> = None | Some(value: T)

  datatype Result<+R, +E> = Ok(value: R) | Err(error: E)

  /** The value an option holds, as a list of zero or one. */
  function ToSeq<T>(o: Option<T>): (s: seq<T>)
    ensures |s| <= 1 && (|s| == 1 <==> o.Some?)
  {
    if o.Some? then [o.value] else []
  }
}
