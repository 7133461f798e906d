/** The optional value used wherever the modelled Go code returns a value
    together with a possibly non-nil error and only the value's presence matters. */
module Options {
  datatype Option<+T> = None | Some(value: T)
}
