/** The outcome of an operation that the source aborts with an exception on some inputs. */
module Options {
  datatype Option<T> = None | Some(value: T)
}
