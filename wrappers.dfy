/** An optional value: the form element a run either builds or leaves absent. */
module Wrappers {

  datatype Option<+T> = None | Some(value: T)
}
