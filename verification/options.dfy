/** The "absent" sentinel of JavaScript lookups (`null` from getCookie, no regex match). */
module Options {
  datatype Option<+T> = None | Some(value: T)
}
