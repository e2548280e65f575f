/** The optional-value datatype used throughout the model: `None` stands for
    JavaScript's `null`/`undefined`, `Some(v)` for a present value. */
module Options {

  datatype Option<+T> = None | Some(value: T) {

    /** Returns the wrapped value, or `default` when there is none (`x ?? default`). */
    function GetOr(default: T): T
    {
      match this
      case Some(v) => v
      case None => default
    }
  }

  /** A value or the error that was thrown instead of producing it. */
  datatype Result<+T, +E> = Ok(value: T) | Err(error: E)
}
