/** The optional value used for every outcome of a foreign call: `None` stands
    for Python's `None` or for an exception the caller catches. */
module Wrappers {
  datatype Option<+T> = None | Some(value: T) {
    function GetOr(default: T): T {
      match this
      case Some(v) => v
      case None => default
    }
  }
}
