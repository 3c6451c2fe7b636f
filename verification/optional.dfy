/** Optional values: the result of a lookup or an operation of the game that can fail. */
module Optional {

  datatype Option<+T> = None | Some(value: T)
}
