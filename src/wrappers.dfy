/** Optional values, used where the modelled JavaScript yields `undefined`
    or throws for a missing input. */
module Wrappers {

  datatype Option<+T> = None | Some(value: T)
}
