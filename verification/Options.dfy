/** Values that may be absent: failed lookups and -1 returns. */
module Options {
  datatype Option<+T> = None | Some(value: T)
}
