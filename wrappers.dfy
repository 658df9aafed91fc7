/** Optional values: a JavaScript `null`/`undefined` or a failed lookup is `None`. */
module Wrappers {

  datatype Option<+T> = None | Some(value: T)

}
