/** The Some/None result that the map's lookups return in place of a reference. */
module Options {

  datatype Option<+T> = None | Some(value: T)
}
