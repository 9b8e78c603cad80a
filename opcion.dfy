/** Optional values: the C++ core reports failure by sentinels, the model by `None`. */
module Opcion {
  datatype Option<T> = None | Some(value: T)
}
