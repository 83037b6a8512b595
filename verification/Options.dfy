/** A value or none: what the source calls `Option`, and the model of a call that aborts. */
module Options {
  datatype Option<+T> = None | Some(value: T)
}
