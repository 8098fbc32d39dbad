/** Python's `None`-or-value and the exception-or-value outcome of a call. */
module Options {

  /** `None` in Python becomes `None` here; any other value `v` becomes `Some(v)`. */
  datatype Option<+T> = None | Some(value: T)

  /** A call that may raise: `Ok(v)` when it returns `v`, `Err(e)` when it raises `e`. */
  datatype Result<+T, +E> = Ok(value: T) | Err(error: E)
}
