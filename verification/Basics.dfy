/** What several parts share. */
module Basics {
  const NUM_TERMINALS := 3
  const MAX_FILES := 8

  datatype Option<T> = None | Some(value: T)

  function Min(a: nat, b: nat): nat { if a < b then a else b }

  function Max(a: nat, b: nat): nat { if a < b then b else a }
}
