/** What every part of the model uses. */
module Basics {
  datatype Option<T> = None | Some(value: T)

  function Max(a: int, b: int): int { if a < b then b else a }
}
