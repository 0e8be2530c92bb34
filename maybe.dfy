/** Go's nil-able pointers and "value, ok" lookups as an explicit option. */
module Maybe {

  datatype Option<+T> = None | Some(value: T)

}
