/** Option, standing in for Java's nullable references. */
module Wrappers {
  datatype Option<+T> = None | Some(value: T) {
    /** The value, or a default where Java would hold null. */
    function GetOr(default: T): T
    {
      match this
      case Some(v) => v
      case None => default
    }
  }
}
