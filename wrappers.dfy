/** An optional value: a field of a raw export record that may be absent. */
module Wrappers {

  datatype Option<+T> = None | Some(value: T)
}
