/** The usual Some/None datatype: the model's stand-in for a pointer that may be NULL
    and for a lookup that may fail. */
module Optional {

  datatype Option<+T> = None | Some(value: T)
}
