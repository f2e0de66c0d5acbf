/** A value that may be absent: a missing storage entry, a string that does not
    parse, an instant outside the range a Date can represent. */
module Options {

  datatype Option<+T> = None | Some(value: T)
}
