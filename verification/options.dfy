/** A result that may be missing: a failed look-up, or an operation that panics. */
module Options {
  datatype Option<+T> = None | Some(value: T)
}
