/** A value that may be absent: a missing HTML element, a missing query
    parameter. */
module Optional {

  datatype Option<+T> = None | Some(value: T)
}
