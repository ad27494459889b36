/**
 Results that may be missing: NULL, -1 and the like.
 */
module Options {
  datatype Option<+T> = None | Some(value: T)
}
