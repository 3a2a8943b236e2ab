/** An optional value: it stands where the C# binder has a null reference or a `Try…(out …)` result. */
module Wrappers {

  datatype Option<+T> = None | Some(value: T)
}
