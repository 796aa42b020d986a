/** An optional value: the model's stand-in for the source's `null` and
    `undefined` results. */
module Optional {
  datatype Option<T> = None | Some(value: T)
}
