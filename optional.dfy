/** A JavaScript value that may be `undefined`: selector attributes that are
    missing, optional JSON fields, headers that were not sent. */
module Optional {

  datatype Option<+T> = None | Some(value: T) {

    /** The value, or `default` when it is absent */
    function GetOr(default: T): T {
      match this
      case Some(v) => v
      case None => default
    }
  }
}
