/** C#'s `null` for reference types and `Nullable<T>` (`Guid?`, `DateTime?`),
    written as an explicit option. */
module Nullable {

  datatype Option<+T> = None | Some(value: T)
}
