/** An optional value: a lookup that can miss, or a message field that can
    be absent. */
module Options {

  datatype Option<+T> = None | Some(value: T) {

    /** What the option holds; an empty option falls back to `default`. */
    function GetOr(default: T): T {
      match this
      case Some(v) => v
      case None => default
    }
  }
}
