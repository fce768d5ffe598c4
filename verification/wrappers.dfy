/** Optional values, the model's stand-in for `std::optional` and for the
    "no value" outcomes of stream reads and socket reads. */
module Wrappers {

  datatype Option<+T> = None | Some(value: T) {

    /** The value if present, `default` otherwise. */
    function GetOr(default: T): T {
      match this
      case Some(v) => v
      case None => default
    }
  }
}
