/** An optional value, for a lookup that may have nothing to return. */
module Wrappers {
  datatype Option<T> = None | Some(value: T) {
    /** The value, or `default` when there is none. */
    function GetOr(default: T): T
    {
      match this
      case Some(x) => x
      case None => default
    }
  }
}
