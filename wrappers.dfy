/** Optional values: a missing JSON key, a JSON null, or a nullable response field. */
module Wrappers {

  datatype Option<+T> = None | Some(value: T)

}
