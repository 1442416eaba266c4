/** The "value or absent" wrapper used wherever the chart reads a field that may be
    `null` or `undefined`. */
module Optional {

  datatype Option<+T> = None | Some(value: T)
  {
    /** The value, or `default` when absent. */
    function GetOr(default: T): T {
      match this
      case Some(v) => v
      case None => default
    }
  }
}
