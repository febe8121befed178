/** An optional value: the result of a step that may fail, or a call argument that may be absent. */
module Wrappers {

  datatype Option<T> = None | Some(value: T)
}
