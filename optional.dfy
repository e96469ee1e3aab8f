/** Python's `Optional[T]`: `None` or a present value. */
module Optional {

  datatype Option<T> = None | Some(value: T)
}
