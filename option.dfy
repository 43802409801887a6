/** An optional value, for fields a loaded file or a probe may not supply and
    for searches that may find nothing. */
module Optional {
  datatype Option<+T> = None | Some(value: T)
}
