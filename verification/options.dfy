/** Optional values: the `None` of Python, used both for dictionary lookups
    and for the omitted fields of a request body. */
module Options {
  datatype Option<T> = None | Some(value: T) {
    /** The value, or `default` when absent. */
    function GetOr(default: T): T {
      match this
      case Some(v) => v
      case None => default
    }
  }
}
