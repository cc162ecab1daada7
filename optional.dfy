/** Python's `None`-or-value, as used for the playback position and for the
    optional list of censored labels. */
module Optional {

  datatype Option<+T> = None | Some(value: T)
}
