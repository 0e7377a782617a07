/** The optional-value wrapper used throughout the model: a JavaScript value
    that may be `undefined` (a missing object key, a failed `find`, a `NaN`
    from `Number(...)`) is an `Option`. */
module Wrappers {

  datatype Option<+T> = None | Some(value: T)
}
