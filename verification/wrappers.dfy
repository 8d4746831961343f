/** Optional values, standing in for the source's `nullptr` results and out-parameters
    that are only meaningful when the call reports success. */
module Wrappers {

  datatype Option<+T> = None | Some(value: T)
}
