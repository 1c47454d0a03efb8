/** Optional values: a C# reference that may be null, a nullable int. */
module Wrappers {

  datatype Option<+T> = None | Some(value: T)
}
