/** An optional value, shared by the document model and the debounce model. */
module Options {

  datatype Option<T> = None | Some(value: T)
}
