/** A value that may be missing: the model's stand-in for JavaScript's
    `null`/`undefined` on fields the application treats as optional. */
module Optional {

  datatype Option<T> = None | Some(value: T)

  /** `o ?? fallback`: the value when present, the fallback otherwise. */
  function ValueOr<T>(o: Option<T>, fallback: T): (r: T)
    ensures o.Some? ==> r == o.value
    ensures o.None? ==> r == fallback
  {
    if o.Some? then o.value else fallback
  }
}
