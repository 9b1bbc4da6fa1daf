/** Optional values: the result of an external command that may fail and of
    the subject grammar, which may not match. */
module Maybe {

  datatype Option<T> = None | Some(value: T) {

    /** The held value, or `fallback` when there is none. */
    function ValueOr(fallback: T): T {
      if Some? then value else fallback
    }
  }
}
