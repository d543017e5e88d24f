/** Option, standing for the JavaScript values that may be `null`
    (a blob that was not produced, a file that is not selected). */
module Wrappers {

  datatype Option<+T> = None | Some(value: T)
}
