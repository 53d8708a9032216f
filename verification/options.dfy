/** Nullable values of the Kotlin source (`T?`) as an explicit option type. */
module Options {

  datatype Option<+T> = None | Some(value: T) {

    /** The value, or `default` when absent: Kotlin's elvis operator `x ?: default`. */
    function GetOr(default: T): T {
      match this
      case Some(v) => v
      case None => default
    }
  }
}
