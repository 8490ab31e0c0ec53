/** The absence marker used by the feed join: JavaScript's `undefined` result
    of `Array.prototype.find` becomes `None`, and a nullable field becomes
    `Option`. */
module Wrappers {

  datatype Option<+T> = None | Some(value: T)

}
