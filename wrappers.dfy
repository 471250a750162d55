/** Optional values for the C functions that return NULL or a "not found" flag. */
module Wrappers {
  datatype Option<T> = None | Some(value: T)
  {
    predicate IsSome() { this.Some? }
  }
}
