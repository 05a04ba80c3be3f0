/** Optional values: a sensor reading that could not be obtained is `None`. */
module Wrappers {

  datatype Option<+T> = None | Some(value: T)

}
