/** Option, for JavaScript's `undefined`/`null` results and blank form fields. */
module Wrappers {

  datatype Option<+T> = None | Some(value: T)
}
