/** The value a reading function returns when its input has the expected shape. */
module Optional {
  datatype Option<T> = None | Some(value: T)
}
