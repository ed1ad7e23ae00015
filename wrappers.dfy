/** Optional and nullable values, the Dafny counterparts of TypeScript's
    `field?: T` (absent) and `T | null` (present but null). */
module Wrappers {

  datatype Option<+T> = None | Some(value: T)

  datatype Nullable<+T> = Null | NonNull(value: T)

}
