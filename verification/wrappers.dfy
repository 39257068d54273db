/** Optional values: a missing chunk content, an unset model selection, a secret that is absent. */
module Wrappers {

  datatype Option<+T> = None | Some(value: T)

}
