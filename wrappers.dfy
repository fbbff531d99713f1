/** Optional values: the model's stand-in for C# `null` and for a failed `TryGet`. */
module Wrappers {
  datatype Option<T> = None | Some(value: T)
}
