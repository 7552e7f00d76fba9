/** The Python `None`-or-value pattern: a dictionary key that is absent (or holds None). */
module Optional {
  datatype Option<+T> = None | Some(value: T) {
    /** The value, or `default` when there is none, as `dict.get(key, default)` gives it. */
    function GetOr(default: T): T {
      match this
      case Some(v) => v
      case None => default
    }
  }
}
