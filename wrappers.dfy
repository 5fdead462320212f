/** Optional values: the model's stand-in for Java's null results and for calls that end in an exception. */
module Wrappers {
  datatype Option<+T> = None | Some(value: T)
}
