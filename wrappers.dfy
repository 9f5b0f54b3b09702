/** The optional value used for dictionary lookups that may miss. */
module Wrappers {

  datatype Option<+T> = None | Some(value: T) {

    /** dict.get(key, default): the value when present, else the default. */
    function GetOr(default: T): T
    {
      match this
      case Some(v) => v
      case None => default
    }
  }
}
