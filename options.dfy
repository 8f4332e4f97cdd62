/** An optional value, for decoders that may find nothing to decode and
    searches that may find nothing. */
module Options {
  datatype Option<T> = None | Some(value: T)
}
