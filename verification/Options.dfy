/** A value that may be missing: the source's `undefined`, `null` and `?? fallback`. */
module Options {
  datatype Option<+T> = None | Some(value: T) {
    function GetOr(fallback: T): T {
      if Some? then value else fallback
    }
  }
}
