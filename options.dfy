/** Optional values: `None` stands for the source's NULL or "no such element". */
module Options {
  datatype Option<T> = None | Some(value: T)
}
