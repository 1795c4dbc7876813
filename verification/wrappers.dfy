/** Optional values. In this model `None` stands for JavaScript's `undefined`
    (an out-of-range array read, a missing form control). */
module Wrappers {

  datatype Option<+T> = None | Some(value: T)
}
