/** Optional values: JavaScript's `undefined`, `null` and a failed parse. */
module Wrappers {

  datatype Option<+T> = None | Some(value: T) {

    /** The wrapped value as a sequence of length zero or one. */
    function ToSeq(): (r: seq<T>)
      ensures |r| <= 1
      ensures Some? <==> |r| == 1
      ensures Some? ==> r[0] == value
    {
      match this
      case Some(v) => [v]
      case None => []
    }
  }
}
