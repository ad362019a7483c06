/** Where the scripts use `None`, or the sentinel index -1, the model uses
    `Option`. */
module Optional {

  datatype Option<+T> = None | Some(value: T) {

    /** Python's `d.get(key, default)` on a key that may be missing: the
        stored value if there is one, `default` otherwise. */
    function GetOr(default: T): (r: T)
      ensures Some? ==> r == value
      ensures None? ==> r == default
    {
      if Some? then value else default
    }
  }
}
