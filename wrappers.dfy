/** Nullable values: the entity's fields and the request bodies' keys are
    either absent (null) or hold a value. */
module Wrappers {

  datatype Option<+T> = None | Some(value: T)

}
