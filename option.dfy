/** Optional values: Python's `None` next to a set value. */
module Optional {

  datatype Option<T> = None | Some(value: T)

  /** The value written by a partial update: a supplied value wins, an absent one keeps `current`. */
  function Override<T>(current: Option<T>, supplied: Option<T>): (r: Option<T>)
    ensures supplied.Some? ==> r == supplied
    ensures supplied.None? ==> r == current
  {
    if supplied.Some? then supplied else current
  }

  /** `kwargs.get(key, default)`: the supplied value, or `default` when none is supplied. */
  function GetOr<T>(supplied: Option<T>, default: T): (r: T)
    ensures supplied.Some? ==> r == supplied.value
    ensures supplied.None? ==> r == default
  {
    if supplied.Some? then supplied.value else default
  }
}
