/** A value that may be absent: the model of a JavaScript `null` where the
    source keeps one in its state. */
module Options {
  datatype Option<T> = None | Some(value: T)
}
