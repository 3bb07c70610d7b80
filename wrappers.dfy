/** The conventional optional value: Python's `None` versus a present value. */
module Wrappers {
  datatype Option<+T> = None | Some(value: T)

  /** The option as a sequence of zero or one elements. */
  function OptionToSeq<T>(o: Option<T>): (s: seq<T>)
    ensures |s| <= 1
    ensures o.None? ==> s == []
    ensures o.Some? ==> s == [o.value]
  {
    match o
    case None => []
    case Some(v) => [v]
  }
}
