/** An optional value: the result of converting a raw integer that may not
    name any enumerator. */
module Options {

  datatype Option<+T> = None | Some(value: T)
}
