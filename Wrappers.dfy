/** An optional value: stands for JavaScript's `undefined`/`null` where the
    component reads something that may be absent. */
module Wrappers {

  datatype Option<+T> = None | Some(value: T)
}
