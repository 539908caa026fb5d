/** An optional value: the model's stand-in for Python's `None` returns and
    for an operation that stops before producing a result. */
module Optional {
  datatype Option<+T> = None | Some(value: T)
}
