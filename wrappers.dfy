/** The optional value shared by the other modules: a missing range, an unset selection,
    a notice not shown, an input refused. */
module Wrappers {

  datatype Option<T> = None | Some(value: T)
}
