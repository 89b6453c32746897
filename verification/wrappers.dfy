/** The optional value used wherever the source gets `null`, `undefined` or a thrown error. */
module Wrappers {

  datatype Option<+T> = None | Some(value: T)

}
